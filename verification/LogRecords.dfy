/** The insert log record as bytes. */
module LogRecords {
  import opened Common
  import opened KeyOrder
  import opened RawCodec

  const LOG_HEADER_SIZE := 20
  const INSERT := 1

  datatype InsertLog = InsertLog(kind: int, lsn: int, totLen: nat, tid: int, prevLsn: int, value: Bytes, rid: Rid,
    name: Bytes)

  /** The constructor's sum: header, size and bytes of the value, rid, size and bytes of the table name. */
  function NewInsertLog(tid: int, value: Bytes, rid: Rid, name: Bytes): (r: InsertLog)
    ensures r.totLen == LOG_HEADER_SIZE + 4 + |value| + 8 + 8 + |name|
  {
    InsertLog(INSERT, -1, LOG_HEADER_SIZE + 4 + |value| + 8 + (8 + |name|), tid, -1, value, rid, name)
  }

  ghost predicate LogOk(r: InsertLog)
  {
    && Int32(r.kind) && Int32(r.lsn) && r.totLen < Pow256(4) && Int32(r.tid) && Int32(r.prevLsn)
    && Int32(|r.value|) && Int32(r.rid.page) && Int32(r.rid.slot) && |r.name| < Pow256(8)
  }

  ghost function Parts(r: InsertLog): seq<Bytes>
    requires LogOk(r)
  {
    [EncodeInt(r.kind), EncodeInt(r.lsn), EncodeNat(r.totLen, 4), EncodeInt(r.tid), EncodeInt(r.prevLsn),
     EncodeInt(|r.value|), r.value, EncodeInt(r.rid.page), EncodeInt(r.rid.slot), EncodeNat(|r.name|, 8), r.name]
  }

  lemma HeaderLen(p: seq<Bytes>)
    requires |p| >= 5 && |p[0]| == |p[1]| == |p[2]| == |p[3]| == |p[4]| == 4
    ensures |Front(p, 5)| == LOG_HEADER_SIZE
  {
    FrontNext(p, 0);
    FrontNext(p, 1);
    FrontNext(p, 2);
    FrontNext(p, 3);
    FrontNext(p, 4);
  }

  lemma BodyLen(p: seq<Bytes>)
    requires |p| == 11 && |p[5]| == |p[7]| == |p[8]| == 4 && |p[9]| == 8
    ensures |Front(p, 11)| == |Front(p, 5)| + 4 + |p[6]| + 8 + 8 + |p[10]|
  {
    FrontNext(p, 5);
    FrontNext(p, 6);
    FrontNext(p, 7);
    FrontNext(p, 8);
    FrontNext(p, 9);
    FrontNext(p, 10);
  }

  /** The bytes are as many as the constructor's sum. */
  lemma PartsLen(r: InsertLog)
    requires LogOk(r)
    ensures |Concat(Parts(r))| == LOG_HEADER_SIZE + 4 + |r.value| + 8 + 8 + |r.name|
  {
    HeaderLen(Parts(r));
    BodyLen(Parts(r));
  }

  /** Where the shared header's fields stand. */
  lemma HeaderLayout(r: InsertLog)
    requires LogOk(r)
    ensures var c := Concat(Parts(r));
            && |c| >= LOG_HEADER_SIZE
            && c[0..4] == EncodeInt(r.kind) && c[4..8] == EncodeInt(r.lsn) && c[8..12] == EncodeNat(r.totLen, 4)
            && c[12..16] == EncodeInt(r.tid) && c[16..20] == EncodeInt(r.prevLsn)
  {
    var p := Parts(r);
    PartsLen(r);
    FrontNext(p, 0);
    FrontNext(p, 1);
    FrontNext(p, 2);
    FrontNext(p, 3);
    FrontNext(p, 4);
    PartAt(p, 0);
    PartAt(p, 1);
    PartAt(p, 2);
    PartAt(p, 3);
    PartAt(p, 4);
  }

  /** Where the fields behind the header stand. */
  lemma BodyLayout(r: InsertLog)
    requires LogOk(r)
    ensures var c, v := Concat(Parts(r)), 24 + |r.value|;
            && |c| == v + 16 + |r.name|
            && c[20..24] == EncodeInt(|r.value|) && c[24..v] == r.value
            && c[v..v + 4] == EncodeInt(r.rid.page) && c[v + 4..v + 8] == EncodeInt(r.rid.slot)
            && c[v + 8..v + 16] == EncodeNat(|r.name|, 8) && c[v + 16..] == r.name
  {
    var p := Parts(r);
    PartsLen(r);
    HeaderLen(p);
    FrontNext(p, 5);
    FrontNext(p, 6);
    FrontNext(p, 7);
    FrontNext(p, 8);
    FrontNext(p, 9);
    FrontNext(p, 10);
    PartAt(p, 5);
    PartAt(p, 6);
    PartAt(p, 7);
    PartAt(p, 8);
    PartAt(p, 9);
    PartAt(p, 10);
  }

  /** The part that all log records share. */
  method SerializeHeader(r: InsertLog, dest: array<Byte>) returns (offset: nat)
    requires LogOk(r) && |Concat(Parts(r))| <= dest.Length
    modifies dest
    ensures offset == |Front(Parts(r), 5)| <= dest.Length && dest[..offset] == Front(Parts(r), 5)
  {
    ghost var p := Parts(r);
    offset := PutPart(dest, 0, EncodeInt(r.kind), p, 0);
    offset := PutPart(dest, offset, EncodeInt(r.lsn), p, 1);
    offset := PutPart(dest, offset, EncodeNat(r.totLen, 4), p, 2);
    offset := PutPart(dest, offset, EncodeInt(r.tid), p, 3);
    offset := PutPart(dest, offset, EncodeInt(r.prevLsn), p, 4);
  }

  /** Writes the record: as many bytes as the length the constructor stored. */
  method Serialize(r: InsertLog, dest: array<Byte>) returns (offset: nat)
    requires LogOk(r) && |Concat(Parts(r))| <= dest.Length
    modifies dest
    ensures offset == LOG_HEADER_SIZE + 4 + |r.value| + 8 + 8 + |r.name| <= dest.Length
      && dest[..offset] == Concat(Parts(r))
  {
    ghost var p := Parts(r);
    PartsLen(r);
    offset := SerializeHeader(r, dest);
    offset := PutPart(dest, offset, EncodeInt(|r.value|), p, 5);
    offset := PutPart(dest, offset, r.value, p, 6);
    offset := PutPart(dest, offset, EncodeInt(r.rid.page), p, 7);
    offset := PutPart(dest, offset, EncodeInt(r.rid.slot), p, 8);
    offset := PutPart(dest, offset, EncodeNat(|r.name|, 8), p, 9);
    offset := PutPart(dest, offset, r.name, p, 10);
  }

  /** A buffer that begins with the bytes of a record reads back as that record. */
  method Deserialize(src: array<Byte>, ghost l: InsertLog) returns (r: InsertLog)
    requires LogOk(l) && Concat(Parts(l)) <= src[..]
    ensures r == l
  {
    ghost var p := Parts(l);
    var kind, lsn, tid, prev, size, page, slot, offset;
    var totLen, nameSize, value, name: Bytes;
    kind, offset := GetInt(src, 0, l.kind, p, 0);
    lsn, offset := GetInt(src, offset, l.lsn, p, 1);
    totLen, offset := Get(src, offset, 4, p, 2);
    tid, offset := GetInt(src, offset, l.tid, p, 3);
    prev, offset := GetInt(src, offset, l.prevLsn, p, 4);
    size, offset := GetInt(src, offset, |l.value|, p, 5);
    value, offset := Get(src, offset, size, p, 6);
    page, offset := GetInt(src, offset, l.rid.page, p, 7);
    slot, offset := GetInt(src, offset, l.rid.slot, p, 8);
    nameSize, offset := Get(src, offset, 8, p, 9);
    NatRoundTrip(l.totLen, 4);
    NatRoundTrip(|l.name|, 8);
    name, offset := Get(src, offset, DecodeNat(nameSize), p, 10);
    r := InsertLog(kind, lsn, DecodeNat(totLen), tid, prev, value, Rid(page, slot), name);
  }

  /** Constructing, writing and reading back a record; the stored length is the number of bytes written. */
  method RoundTrip(tid: int, value: Bytes, rid: Rid, name: Bytes, dest: array<Byte>) returns (r: InsertLog)
    requires LogOk(NewInsertLog(tid, value, rid, name)) && NewInsertLog(tid, value, rid, name).totLen <= dest.Length
    modifies dest
    ensures r == NewInsertLog(tid, value, rid, name)
  {
    var l := NewInsertLog(tid, value, rid, name);
    PartsLen(l);
    var offset := Serialize(l, dest);
    assert offset == l.totLen;
    assert dest[..offset] <= dest[..];
    r := Deserialize(dest, l);
  }
}
