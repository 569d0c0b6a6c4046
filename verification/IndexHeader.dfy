/** The header page of an index file as bytes. */
module IndexHeader {
  import opened Common
  import opened KeyOrder
  import opened RawCodec

  datatype Header = Header(totLen: int, firstFree: int, numPages: int, root: int, colNum: int, types: seq<int>,
                           lens: seq<int>, colTotLen: int, order: int, keysSize: int, firstLeaf: int, lastLeaf: int)

  /** Four page numbers, six ints, and a type and a length for every column. */
  function TotLen(colNum: int): int
  {
    4 * 4 + 4 * 6 + 4 * colNum + 4 * colNum
  }

  /** The fields in the order in which they are written. */
  ghost function Fields(h: Header): seq<int>
  {
    [h.totLen, h.firstFree, h.numPages, h.root, h.colNum] + h.types + h.lens
      + [h.colTotLen, h.order, h.keysSize, h.firstLeaf, h.lastLeaf]
  }

  ghost predicate AllInt32(xs: seq<int>)
  {
    forall i | 0 <= i < |xs| :: Int32(xs[i])
  }

  ghost predicate HeaderOk(h: Header)
  {
    h.colNum == |h.types| == |h.lens| && h.totLen == TotLen(h.colNum) && AllInt32(Fields(h))
  }

  /** The bytes of the first `k` fields. */
  ghost function FieldBytes(xs: seq<int>, k: nat): (r: Bytes)
    requires AllInt32(xs) && k <= |xs|
    ensures |r| == 4 * k
  {
    if k == 0 then [] else FieldBytes(xs, k - 1) + EncodeInt(xs[k - 1])
  }

  lemma {:induction false} FieldsBelow(xs: seq<int>, k: nat, n: nat)
    requires AllInt32(xs) && k <= n <= |xs|
    ensures FieldBytes(xs, k) <= FieldBytes(xs, n)
  {
    if k < n {
      FieldsBelow(xs, k, n - 1);
    }
  }

  ghost function HeaderBytes(h: Header): Bytes
    requires HeaderOk(h)
  {
    FieldBytes(Fields(h), |Fields(h)|)
  }

  /** The next field goes behind the first `k`. */
  method PutField(dest: array<Byte>, offset: nat, v: int, ghost xs: seq<int>, ghost k: nat) returns (next: nat)
    requires AllInt32(xs) && k < |xs| && v == xs[k] && offset == 4 * k && offset + 4 <= dest.Length
    requires dest[..offset] == FieldBytes(xs, k)
    modifies dest
    ensures next == offset + 4 && dest[..next] == FieldBytes(xs, k + 1)
  {
    next := Put(dest, offset, EncodeInt(v));
  }

  /** Several fields in a row. */
  method PutFields(dest: array<Byte>, offset: nat, vs: seq<int>, ghost xs: seq<int>, ghost k: nat) returns (next: nat)
    requires AllInt32(xs) && k + |vs| <= |xs| && vs == xs[k..k + |vs|] && offset == 4 * k
      && 4 * (k + |vs|) <= dest.Length
    requires dest[..offset] == FieldBytes(xs, k)
    modifies dest
    ensures next == 4 * (k + |vs|) && dest[..next] == FieldBytes(xs, k + |vs|)
  {
    next := offset;
    var i := 0;
    while i < |vs|
      invariant 0 <= i <= |vs| && next == 4 * (k + i) && dest[..next] == FieldBytes(xs, k + i)
    {
      assert vs[i] == xs[k + i];
      next := PutField(dest, next, vs[i], xs, k + i);
      i := i + 1;
    }
  }

  lemma FieldsSplit(h: Header)
    requires HeaderOk(h)
    ensures var xs, n := Fields(h), |h.types|;
            && |xs| == 10 + n + n && 4 * |xs| == h.totLen
            && xs[0..5] == [h.totLen, h.firstFree, h.numPages, h.root, h.colNum]
            && xs[5..5 + n] == h.types && xs[5 + n..5 + n + n] == h.lens
            && xs[5 + n + n..10 + n + n] == [h.colTotLen, h.order, h.keysSize, h.firstLeaf, h.lastLeaf]
  {
  }

  lemma {:induction false} FieldAt(xs: seq<int>, k: nat, n: nat)
    requires AllInt32(xs) && k < n <= |xs|
    ensures FieldBytes(xs, n)[4 * k..4 * k + 4] == EncodeInt(xs[k])
  {
    if k < n - 1 {
      FieldAt(xs, k, n - 1);
      assert FieldBytes(xs, n)[4 * k..4 * k + 4] == FieldBytes(xs, n - 1)[4 * k..4 * k + 4];
    }
  }

  /** The number at bytes `4 * k` to `4 * k + 4`. */
  ghost predicate Stands(b: Bytes, k: nat, v: int)
  {
    Int32(v) && 4 * k + 4 <= |b| && b[4 * k..4 * k + 4] == EncodeInt(v)
  }

  /** Where each field stands in the page. */
  lemma Layout(h: Header)
    requires HeaderOk(h)
    ensures var b, n := HeaderBytes(h), |h.types|;
            && |b| == h.totLen
            && Stands(b, 0, h.totLen) && Stands(b, 1, h.firstFree) && Stands(b, 2, h.numPages)
            && Stands(b, 3, h.root) && Stands(b, 4, h.colNum)
            && (forall i | 0 <= i < n :: Stands(b, 5 + i, h.types[i]) && Stands(b, 5 + n + i, h.lens[i]))
            && Stands(b, 5 + n + n, h.colTotLen) && Stands(b, 6 + n + n, h.order) && Stands(b, 7 + n + n, h.keysSize)
            && Stands(b, 8 + n + n, h.firstLeaf) && Stands(b, 9 + n + n, h.lastLeaf)
  {
    var b, xs, n := HeaderBytes(h), Fields(h), |h.types|;
    FieldsSplit(h);
    forall k: nat | k < |xs| ensures Stands(b, k, xs[k]) {
      FieldAt(xs, k, |xs|);
    }
    FieldsAre(h);
  }

  /** The number of each field. */
  lemma FieldsAre(h: Header)
    requires HeaderOk(h)
    ensures var xs, n := Fields(h), |h.types|;
            && |xs| == 10 + n + n
            && xs[0] == h.totLen && xs[1] == h.firstFree && xs[2] == h.numPages && xs[3] == h.root && xs[4] == h.colNum
            && (forall i | 0 <= i < n :: xs[5 + i] == h.types[i] && xs[5 + n + i] == h.lens[i])
            && xs[5 + n + n] == h.colTotLen && xs[6 + n + n] == h.order && xs[7 + n + n] == h.keysSize
            && xs[8 + n + n] == h.firstLeaf && xs[9 + n + n] == h.lastLeaf
  {
  }

  /** Everything up to the column types. */
  method SerializeFront(h: Header, dest: array<Byte>) returns (offset: nat)
    requires HeaderOk(h) && h.totLen <= dest.Length
    modifies dest
    ensures offset == 4 * (5 + |h.types|) <= dest.Length
      && dest[..offset] == FieldBytes(Fields(h), 5 + |h.types|)
  {
    FieldsSplit(h);
    offset := PutFields(dest, 0, [h.totLen, h.firstFree, h.numPages, h.root, h.colNum], Fields(h), 0);
    offset := PutFields(dest, offset, h.types, Fields(h), 5);
  }

  /** The column lengths and everything behind them. */
  method SerializeBack(h: Header, dest: array<Byte>, front: nat) returns (offset: nat)
    requires HeaderOk(h) && h.totLen <= dest.Length && front == 4 * (5 + |h.types|)
    requires dest[..front] == FieldBytes(Fields(h), 5 + |h.types|)
    modifies dest
    ensures offset == h.totLen && dest[..offset] == HeaderBytes(h)
  {
    ghost var xs, n := Fields(h), |h.types|;
    FieldsSplit(h);
    offset := PutFields(dest, front, h.lens, xs, 5 + n);
    offset := PutFields(dest, offset, [h.colTotLen, h.order, h.keysSize, h.firstLeaf, h.lastLeaf], xs, 5 + n + n);
  }

  /** Writes the header; the offset at the end is the length it stores. */
  method Serialize(h: Header, dest: array<Byte>) returns (offset: nat)
    requires HeaderOk(h) && h.totLen <= dest.Length
    modifies dest
    ensures offset == h.totLen && dest[..offset] == HeaderBytes(h)
  {
    offset := SerializeFront(h, dest);
    offset := SerializeBack(h, dest, offset);
  }

  method GetField(src: array<Byte>, offset: nat, ghost xs: seq<int>, ghost k: nat) returns (v: int, next: nat)
    requires AllInt32(xs) && FieldBytes(xs, |xs|) <= src[..] && k < |xs| && offset == 4 * k
    ensures v == xs[k] && next == 4 * (k + 1)
  {
    FieldsBelow(xs, k + 1, |xs|);
    IntRoundTrip(xs[k]);
    next := offset + 4;
    assert src[..][..next] == FieldBytes(xs, k + 1);
    assert src[offset..next] == FieldBytes(xs, k + 1)[offset..];
    v := DecodeInt(src[offset..next]);
  }

  method GetFields(src: array<Byte>, offset: nat, n: nat, ghost xs: seq<int>, ghost k: nat)
    returns (vs: seq<int>, next: nat)
    requires AllInt32(xs) && FieldBytes(xs, |xs|) <= src[..] && k + n <= |xs| && offset == 4 * k
    ensures vs == xs[k..k + n] && next == 4 * (k + n)
  {
    vs, next := [], offset;
    var i := 0;
    while i < n
      invariant 0 <= i <= n && vs == xs[k..k + i] && next == 4 * (k + i)
    {
      var v;
      v, next := GetField(src, next, xs, k + i);
      vs := vs + [v];
      i := i + 1;
    }
  }

  /** A buffer that begins with the bytes of a header reads back as that header. */
  method Deserialize(src: array<Byte>, ghost h: Header) returns (r: Header)
    requires HeaderOk(h) && HeaderBytes(h) <= src[..]
    ensures r == h
  {
    ghost var xs := Fields(h);
    FieldsSplit(h);
    var head, types, lens, tail, offset;
    head, offset := GetFields(src, 0, 5, xs, 0);
    var colNum: nat := head[4];
    types, offset := GetFields(src, offset, colNum, xs, 5);
    lens, offset := GetFields(src, offset, colNum, xs, 5 + colNum);
    tail, offset := GetFields(src, offset, 5, xs, 5 + colNum + colNum);
    r := Header(head[0], head[1], head[2], head[3], head[4], types, lens, tail[0], tail[1], tail[2], tail[3], tail[4]);
  }

  /** Writing a header and reading it back. */
  method RoundTrip(h: Header, dest: array<Byte>) returns (r: Header)
    requires HeaderOk(h) && h.totLen <= dest.Length
    modifies dest
    ensures r == h
  {
    var offset := Serialize(h, dest);
    assert dest[..offset] <= dest[..];
    r := Deserialize(dest, h);
  }

  // ---------------------------------------------------------------- the order of the tree

  const PAGE_SIZE := 4096
  const PAGE_HDR_SIZE := 24
  const RID_SIZE := 8
  const MAX_COL_LEN := 512

  function TreeOrder(colTotLen: nat): int
  {
    (PAGE_SIZE - PAGE_HDR_SIZE) / (colTotLen + RID_SIZE) - 1
  }

  /**
    For every key length that is allowed the order is at least 6, and a node with one entry to spare is the most that
    fits a page.
   */
  lemma NodeFits(colTotLen: nat)
    requires colTotLen <= MAX_COL_LEN
    ensures var n := TreeOrder(colTotLen);
            && n >= 6
            && PAGE_HDR_SIZE + (colTotLen + RID_SIZE) * (n + 1) <= PAGE_SIZE
              < PAGE_HDR_SIZE + (colTotLen + RID_SIZE) * (n + 2)
  {
    var d, n := colTotLen + RID_SIZE, TreeOrder(colTotLen);
    var q := (PAGE_SIZE - PAGE_HDR_SIZE) / d;
    assert d * q <= 4072 < d * q + d;
    assert q >= 7 by {
      assert q <= 6 ==> d * q <= 6 * d;
    }
  }

  lemma OrderAtLeast(colTotLen: nat)
    requires colTotLen <= MAX_COL_LEN
    ensures TreeOrder(colTotLen) >= 6
  {
    NodeFits(colTotLen);
  }
}
