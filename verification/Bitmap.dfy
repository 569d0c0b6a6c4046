/** The slot bitmap of a record page: eight slots a byte, the first slot in the highest bit. */
module Bitmap {
  type Bits = seq<bv8>

  const WIDTH := 8

  function Bucket(pos: nat): nat
  {
    pos / WIDTH
  }

  function Mask(pos: nat): bv8
  {
    (0x80 as bv8) >> (pos % WIDTH)
  }

  predicate IsSet(bm: Bits, pos: nat)
  {
    Bucket(pos) < |bm| && bm[Bucket(pos)] & Mask(pos) != 0
  }

  function Set(bm: Bits, pos: nat): Bits
    requires Bucket(pos) < |bm|
  {
    bm[Bucket(pos) := bm[Bucket(pos)] | Mask(pos)]
  }

  function Reset(bm: Bits, pos: nat): Bits
    requires Bucket(pos) < |bm|
  {
    bm[Bucket(pos) := bm[Bucket(pos)] & !Mask(pos)]
  }

  lemma MaskIs(pos: nat)
    ensures Mask(pos) == match pos % WIDTH
                         case 0 => 0x80 case 1 => 0x40 case 2 => 0x20 case 3 => 0x10
                         case 4 => 0x08 case 5 => 0x04 case 6 => 0x02 case _ => 0x01
  {
    match pos % WIDTH
    case 0 => case 1 => case 2 => case 3 => case 4 => case 5 => case 6 => case _ =>
  }

  lemma OneBit(x: bv8, p: nat)
    ensures (x | Mask(p)) & Mask(p) != 0 && (x & !Mask(p)) & Mask(p) == 0
  {
    MaskIs(p);
  }

  lemma OtherBit(x: bv8, p: nat, q: nat)
    requires p % WIDTH != q % WIDTH
    ensures (x | Mask(p)) & Mask(q) == x & Mask(q) && (x & !Mask(p)) & Mask(q) == x & Mask(q)
  {
    MaskIs(p);
    MaskIs(q);
  }

  /** Setting or clearing a slot changes that slot and no other. */
  lemma SetAndReset(bm: Bits, p: nat, q: nat)
    requires Bucket(p) < |bm|
    ensures IsSet(Set(bm, p), q) <==> p == q || IsSet(bm, q)
    ensures IsSet(Reset(bm, p), q) <==> p != q && IsSet(bm, q)
  {
    if Bucket(p) == Bucket(q) {
      if p == q {
        OneBit(bm[Bucket(p)], p);
      } else {
        OtherBit(bm[Bucket(p)], p, q);
      }
    }
  }

  /** How many of the first `n` slots are set. */
  ghost function Count(bm: Bits, n: nat): (c: nat)
    ensures c <= n
  {
    if n == 0 then 0 else Count(bm, n - 1) + if IsSet(bm, n - 1) then 1 else 0
  }

  lemma {:induction false} CountSame(a: Bits, b: Bits, n: nat)
    requires forall q | 0 <= q < n :: IsSet(a, q) <==> IsSet(b, q)
    ensures Count(a, n) == Count(b, n)
  {
    if n > 0 {
      CountSame(a, b, n - 1);
    }
  }

  lemma {:induction false} CountSet(bm: Bits, p: nat, n: nat)
    requires Bucket(p) < |bm| && p < n
    ensures !IsSet(bm, p) ==> Count(Set(bm, p), n) == Count(bm, n) + 1
    ensures IsSet(bm, p) ==> Count(Reset(bm, p), n) == Count(bm, n) - 1
  {
    SetAndReset(bm, p, n - 1);
    if p < n - 1 {
      CountSet(bm, p, n - 1);
    } else {
      forall q | 0 <= q < p
        ensures (IsSet(bm, q) <==> IsSet(Set(bm, p), q)) && (IsSet(bm, q) <==> IsSet(Reset(bm, p), q))
      {
        SetAndReset(bm, p, q);
      }
      CountSame(bm, Set(bm, p), p);
      CountSame(bm, Reset(bm, p), p);
    }
  }

  /** A page is full exactly when every slot is set. */
  lemma {:induction false} CountFull(bm: Bits, n: nat)
    ensures Count(bm, n) == n <==> forall q | 0 <= q < n :: IsSet(bm, q)
    ensures Count(bm, n) == 0 <==> forall q | 0 <= q < n :: !IsSet(bm, q)
  {
    if n > 0 {
      CountFull(bm, n - 1);
    }
  }

  /** The first slot from `curr + 1` on whose bit is `bit`, or `n`. */
  method NextBit(bit: bool, bm: Bits, n: nat, curr: int) returns (r: nat)
    requires -1 <= curr < n
    ensures curr < r <= n
    ensures r < n ==> IsSet(bm, r) == bit
    ensures forall q | curr < q < r :: IsSet(bm, q) == !bit
  {
    r := curr + 1;
    while r < n
      invariant curr < r <= n
      invariant forall q | curr < q < r :: IsSet(bm, q) == !bit
    {
      if IsSet(bm, r) == bit {
        return;
      }
      r := r + 1;
    }
  }
}
