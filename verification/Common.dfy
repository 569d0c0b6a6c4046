/** Types that the storage, index and transaction models share. */
module Common {
  datatype Option<T> = None | Some(value: T)

  newtype Byte = b: int | 0 <= b < 256
  type Bytes = seq<Byte>

  /** Where a record is. */
  datatype Rid = Rid(page: int, slot: int)
}
