/** Writing fields one after the other into a byte buffer, and reading them back with a running offset. */
module RawCodec {
  import opened Common
  import opened KeyOrder

  /** The first `k` fields, one after the other. */
  ghost function Front(parts: seq<Bytes>, k: nat): Bytes
    requires k <= |parts|
  {
    if k == 0 then [] else Front(parts, k - 1) + parts[k - 1]
  }

  /** All fields, one after the other. */
  ghost function Concat(parts: seq<Bytes>): Bytes
  {
    Front(parts, |parts|)
  }

  /** Fields stand where the fields before them end. */
  lemma {:induction false} FrontBelow(parts: seq<Bytes>, k: nat, n: nat)
    requires k <= n <= |parts|
    ensures Front(parts, k) <= Front(parts, n)
  {
    if k < n {
      FrontBelow(parts, k, n - 1);
    }
  }

  lemma FrontNext(parts: seq<Bytes>, k: nat)
    requires k < |parts|
    ensures |Front(parts, k + 1)| == |Front(parts, k)| + |parts[k]|
  {
  }

  lemma PartAt(parts: seq<Bytes>, k: nat)
    requires k < |parts|
    ensures var from, to := |Front(parts, k)|, |Front(parts, k + 1)|;
            from <= to <= |Concat(parts)| && Concat(parts)[from..to] == parts[k]
  {
    FrontBelow(parts, k + 1, |parts|);
    assert Front(parts, k + 1)[|Front(parts, k)|..] == parts[k];
  }

  /** Copies bytes into the buffer behind those written so far. */
  method Put(dest: array<Byte>, offset: nat, bytes: Bytes) returns (next: nat)
    requires offset + |bytes| <= dest.Length
    modifies dest
    ensures next == offset + |bytes| && dest[..next] == old(dest[..offset]) + bytes && dest[next..] == old(dest[next..])
  {
    next := offset + |bytes|;
    var i := 0;
    while i < |bytes|
      invariant 0 <= i <= |bytes| && dest[..offset] == old(dest[..offset])
      invariant dest[offset..offset + i] == bytes[..i] && dest[next..] == old(dest[next..])
    {
      dest[offset + i] := bytes[i];
      assert dest[offset..offset + i + 1] == dest[offset..offset + i] + [bytes[i]];
      i := i + 1;
    }
    assert dest[offset..next] == bytes;
    assert dest[..next] == dest[..offset] + dest[offset..next];
  }

  /** The `k`-th of the fields that make up the buffer. */
  method PutPart(dest: array<Byte>, offset: nat, bytes: Bytes, ghost parts: seq<Bytes>, ghost k: nat)
    returns (next: nat)
    requires |Concat(parts)| <= dest.Length && k < |parts| && bytes == parts[k]
    requires offset == |Front(parts, k)| <= dest.Length && dest[..offset] == Front(parts, k)
    modifies dest
    ensures next == offset + |bytes| == |Front(parts, k + 1)| <= dest.Length && dest[..next] == Front(parts, k + 1)
  {
    FrontBelow(parts, k + 1, |parts|);
    next := Put(dest, offset, bytes);
  }

  /** The bytes of the `k`-th field, given how many there are. */
  method Get(src: array<Byte>, offset: nat, len: nat, ghost parts: seq<Bytes>, ghost k: nat)
    returns (bytes: Bytes, next: nat)
    requires Concat(parts) <= src[..] && k < |parts| && offset == |Front(parts, k)| && len == |parts[k]|
    ensures bytes == parts[k] && next == offset + len == |Front(parts, k + 1)|
  {
    FrontBelow(parts, k + 1, |parts|);
    next := offset + len;
    bytes := src[offset..next];
    assert src[..][..next] == Front(parts, k + 1);
    assert bytes == Front(parts, k + 1)[offset..];
  }

  predicate Int32(i: int)
  {
    -INT_LIMIT <= i < INT_LIMIT
  }

  method GetInt(src: array<Byte>, offset: nat, ghost v: int, ghost parts: seq<Bytes>, ghost k: nat)
    returns (r: int, next: nat)
    requires Concat(parts) <= src[..] && k < |parts| && offset == |Front(parts, k)| && Int32(v)
      && parts[k] == EncodeInt(v)
    ensures r == v && next == offset + 4 == |Front(parts, k + 1)|
  {
    var bytes;
    bytes, next := Get(src, offset, 4, parts, k);
    IntRoundTrip(v);
    r := DecodeInt(bytes);
  }

  /** A number without a sign, the lowest byte first. */
  function EncodeNat(n: nat, width: nat): (r: Bytes)
    ensures |r| == width
  {
    if width == 0 then [] else [(n % 256) as Byte] + EncodeNat(n / 256, width - 1)
  }

  function DecodeNat(raw: Bytes): nat
  {
    if raw == [] then 0 else raw[0] as nat + 256 * DecodeNat(raw[1..])
  }

  lemma {:induction false} NatRoundTrip(n: nat, width: nat)
    requires n < Pow256(width)
    ensures DecodeNat(EncodeNat(n, width)) == n
  {
    if width > 0 {
      NatRoundTrip(n / 256, width - 1);
      assert EncodeNat(n, width)[1..] == EncodeNat(n / 256, width - 1);
    }
  }

  /** A byte has the weight 256 to the number of bytes before it. */
  lemma {:induction false} DecodeNatAdds(raw: Bytes, b: Byte)
    ensures DecodeNat(raw + [b]) == DecodeNat(raw) + b as nat * Pow256(|raw|)
  {
    if raw == [] {
      assert [b][1..] == [] && DecodeNat([]) == 0;
    } else {
      DecodeNatAdds(raw[1..], b);
      assert (raw + [b])[1..] == raw[1..] + [b];
    }
  }
}
