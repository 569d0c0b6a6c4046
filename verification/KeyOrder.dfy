/**
  The order of index keys. Raw keys are compared column by column with ix_compare; the values they encode are compared
  with the Value operators. Both orders agree, and both are the order of an integer rank, so an index over raw keys is
  an index over integers.
 */
module KeyOrder {
  import opened Common

  /** INT and DATE columns are four bytes, the lowest first; STRING columns have a width. */
  datatype ColType = Int | Date | Str(width: nat)

  function Len(t: ColType): nat
  {
    if t.Str? then t.width else 4
  }

  datatype Value = IntVal(i: int) | StrVal(s: Bytes)

  const INT_SPAN: int := 0x1_0000_0000
  const INT_LIMIT: int := 0x8000_0000

  function Sign(a: int, b: int): int
  {
    if a < b then -1 else if a > b then 1 else 0
  }

  // ---------------------------------------------------------------- encoding and decoding a column

  /** The bytes as a number without a sign. */
  function Unsigned(raw: Bytes): (u: nat)
    requires |raw| == 4
    ensures u < INT_SPAN
  {
    raw[0] as nat + 0x100 * (raw[1] as nat + 0x100 * (raw[2] as nat + 0x100 * raw[3] as nat))
  }

  /** Two's complement. */
  function DecodeInt(raw: Bytes): (r: int)
    requires |raw| == 4
    ensures -INT_LIMIT <= r < INT_LIMIT
  {
    if Unsigned(raw) < INT_LIMIT then Unsigned(raw) else Unsigned(raw) - INT_SPAN
  }

  /** The weights of the four bytes, the highest of which holds the sign. */
  lemma DecodeIntIs(raw: Bytes)
    requires |raw| == 4
    ensures DecodeInt(raw) == raw[0] as int + 256 * raw[1] as int + 65536 * raw[2] as int + 16777216 * raw[3] as int
      - if raw[3] >= 128 then 4294967296 else 0
  {
    assert Unsigned(raw) == raw[0] as int + 256 * raw[1] as int + 65536 * raw[2] as int + 16777216 * raw[3] as int;
  }

  function EncodeInt(i: int): (r: Bytes)
    requires -INT_LIMIT <= i < INT_LIMIT
    ensures |r| == 4
  {
    var u: nat := if i >= 0 then i else i + INT_SPAN;
    var (u1, u2, u3) := (u / 0x100, u / 0x100 / 0x100, u / 0x100 / 0x100 / 0x100);
    [(u % 0x100) as Byte, (u1 % 0x100) as Byte, (u2 % 0x100) as Byte, (u3 % 0x100) as Byte]
  }

  /** A number below 2^32 is the sum of its four bytes. */
  lemma FourDigits(u: nat)
    requires u < INT_SPAN
    ensures var (u1, u2, u3) := (u / 0x100, u / 0x100 / 0x100, u / 0x100 / 0x100 / 0x100);
            u3 < 0x100 && u == u % 0x100 + 0x100 * (u1 % 0x100 + 0x100 * (u2 % 0x100 + 0x100 * (u3 % 0x100)))
  {
    var u1 := u / 0x100;
    var u2 := u1 / 0x100;
    assert u == u % 0x100 + 0x100 * u1 && u1 < 0x100_0000;
    assert u1 == u1 % 0x100 + 0x100 * u2 && u2 < 0x1_0000;
    assert u2 == u2 % 0x100 + 0x100 * (u2 / 0x100);
  }

  lemma IntRoundTrip(i: int)
    requires -INT_LIMIT <= i < INT_LIMIT
    ensures DecodeInt(EncodeInt(i)) == i
  {
    var u: nat := if i >= 0 then i else i + INT_SPAN;
    FourDigits(u);
    assert Unsigned(EncodeInt(i)) == u;
  }

  lemma LowDigit(a: nat, x: nat, b: nat, y: nat)
    requires a < 0x100 && b < 0x100 && a + 0x100 * x == b + 0x100 * y
    ensures a == b && x == y
  {
  }

  /** Four bytes are determined by the number they encode. */
  lemma DecodeIntInjective(a: Bytes, b: Bytes)
    requires |a| == |b| == 4 && DecodeInt(a) == DecodeInt(b)
    ensures a == b
  {
    LowDigit(a[0] as nat, a[1] as nat + 0x100 * (a[2] as nat + 0x100 * a[3] as nat),
             b[0] as nat, b[1] as nat + 0x100 * (b[2] as nat + 0x100 * b[3] as nat));
    LowDigit(a[1] as nat, a[2] as nat + 0x100 * a[3] as nat, b[1] as nat, b[2] as nat + 0x100 * b[3] as nat);
    LowDigit(a[2] as nat, a[3] as nat, b[2] as nat, b[3] as nat);
  }

  function Zeros(n: nat): (z: Bytes)
    ensures |z| == n && forall k | 0 <= k < n :: z[k] == 0
  {
    seq(n, _ => 0)
  }

  /** The string up to the first NUL, or all of it. */
  function DecodeStr(raw: Bytes): Bytes
  {
    if raw == [] || raw[0] == 0 then [] else [raw[0]] + DecodeStr(raw[1..])
  }

  function EncodeStr(s: Bytes, width: nat): Bytes
    requires |s| <= width
  {
    s + Zeros(width - |s|)
  }

  ghost predicate NulFree(s: Bytes)
  {
    forall k | 0 <= k < |s| :: s[k] != 0
  }

  /** Nothing but zeros behind the first NUL. */
  ghost predicate Padded(raw: Bytes)
  {
    raw == [] || (if raw[0] == 0 then raw == Zeros(|raw|) else Padded(raw[1..]))
  }

  lemma {:induction false} StrRoundTrip(s: Bytes, width: nat)
    requires |s| <= width && NulFree(s)
    ensures Padded(EncodeStr(s, width)) && DecodeStr(EncodeStr(s, width)) == s
  {
    var raw := EncodeStr(s, width);
    if s == [] {
      assert raw == Zeros(|raw|);
    } else {
      StrRoundTrip(s[1..], width - 1);
      assert raw[1..] == EncodeStr(s[1..], width - 1);
    }
  }

  // ---------------------------------------------------------------- the value operators

  /** Lexicographic order of byte strings, a proper prefix first. */
  function CompareStr(s: Bytes, t: Bytes): int
  {
    if s == [] && t == [] then 0
    else if s == [] then -1
    else if t == [] then 1
    else if s[0] != t[0] then Sign(s[0] as int, t[0] as int)
    else CompareStr(s[1..], t[1..])
  }

  /** The operators compare values of one kind. */
  predicate SameKind(v: Value, w: Value)
  {
    v.IntVal? <==> w.IntVal?
  }

  predicate Eq(v: Value, w: Value)
    requires SameKind(v, w)
  {
    v == w
  }

  predicate Ne(v: Value, w: Value)
    requires SameKind(v, w)
  {
    !Eq(v, w)
  }

  predicate Gt(v: Value, w: Value)
    requires SameKind(v, w)
  {
    match v
    case IntVal(i) => i > w.i
    case StrVal(s) => CompareStr(s, w.s) > 0
  }

  predicate Lt(v: Value, w: Value)
    requires SameKind(v, w)
  {
    !(Eq(v, w) || Gt(v, w))
  }

  predicate Ge(v: Value, w: Value)
    requires SameKind(v, w)
  {
    Eq(v, w) || Gt(v, w)
  }

  predicate Le(v: Value, w: Value)
    requires SameKind(v, w)
  {
    !Gt(v, w)
  }

  lemma {:induction false} CompareStrZero(s: Bytes, t: Bytes)
    ensures CompareStr(s, t) == 0 <==> s == t
    ensures CompareStr(t, s) == -CompareStr(s, t)
  {
    if s != [] && t != [] {
      CompareStrZero(s[1..], t[1..]);
      assert s == [s[0]] + s[1..] && t == [t[0]] + t[1..];
    }
  }

  /** The strings are alike up to `k`, where `s` ends or has the lower byte. */
  ghost predicate LessAt(s: Bytes, t: Bytes, k: nat)
  {
    k <= |s| && k < |t| && s[..k] == t[..k] && (k < |s| ==> s[k] < t[k])
  }

  lemma LessHead(s: Bytes, t: Bytes, k: nat)
    requires LessAt(s, t, k)
    ensures k > 0 ==> s[0] == t[0]
  {
    if k > 0 {
      assert s[..k][0] == t[..k][0];
    }
  }

  /** A string is below another exactly when it is a proper prefix, or has the lower byte where they first differ. */
  lemma {:induction false} CompareStrLess(s: Bytes, t: Bytes)
    ensures CompareStr(s, t) < 0 <==> exists k :: LessAt(s, t, k)
  {
    if s == [] {
      assert t != [] ==> LessAt(s, t, 0);
    } else if t != [] && s[0] == t[0] {
      CompareStrLess(s[1..], t[1..]);
      assert s == [s[0]] + s[1..] && t == [t[0]] + t[1..];
      if k: nat :| LessAt(s[1..], t[1..], k) {
        assert s[..k + 1] == [s[0]] + s[1..][..k] && t[..k + 1] == [t[0]] + t[1..][..k];
        assert LessAt(s, t, k + 1);
      }
      if k: nat :| LessAt(s, t, k) {
        assert k > 0;
        assert s[..k][1..] == s[1..][..k - 1] && t[..k][1..] == t[1..][..k - 1];
        assert LessAt(s[1..], t[1..], k - 1);
      }
    } else if t != [] {
      assert s[0] < t[0] ==> LessAt(s, t, 0);
      forall k | LessAt(s, t, k) ensures k == 0 {
        LessHead(s, t, k);
      }
    }
  }

  /**
    The operators fit together: exactly one of <, == and > holds, > is < turned round, <= and >= are what they say, and
    != is < or >.
   */
  lemma OperatorsAgree(v: Value, w: Value)
    requires SameKind(v, w)
    ensures Lt(v, w) <==> Gt(w, v)
    ensures Le(v, w) <==> Lt(v, w) || Eq(v, w)
    ensures Ge(v, w) <==> Le(w, v)
    ensures Ne(v, w) <==> Lt(v, w) || Gt(v, w)
    ensures !(Lt(v, w) && Gt(v, w)) && !(Lt(v, w) && Eq(v, w)) && !(Gt(v, w) && Eq(v, w))
  {
    if v.StrVal? {
      CompareStrZero(v.s, w.s);
    }
  }

  // ---------------------------------------------------------------- raw columns

  function MemCmp(a: Bytes, b: Bytes): int
    requires |a| == |b|
  {
    if a == [] then 0 else if a[0] != b[0] then Sign(a[0] as int, b[0] as int) else MemCmp(a[1..], b[1..])
  }

  function CompareCol(a: Bytes, b: Bytes, t: ColType): int
    requires |a| == |b| == Len(t)
  {
    if t.Str? then MemCmp(a, b) else Sign(DecodeInt(a), DecodeInt(b))
  }

  function DecodeCol(raw: Bytes, t: ColType): Value
    requires |raw| == Len(t)
  {
    if t.Str? then StrVal(DecodeStr(raw)) else IntVal(DecodeInt(raw))
  }

  lemma {:induction false} MemCmpIsCompareStr(a: Bytes, b: Bytes)
    requires |a| == |b| && Padded(a) && Padded(b)
    ensures MemCmp(a, b) == CompareStr(DecodeStr(a), DecodeStr(b))
  {
    if a != [] {
      if a[0] == b[0] {
        if a[0] == 0 {
          assert a == b;
          MemCmpZero(a, b);
        } else {
          MemCmpIsCompareStr(a[1..], b[1..]);
          assert DecodeStr(a)[1..] == DecodeStr(a[1..]) && DecodeStr(b)[1..] == DecodeStr(b[1..]);
        }
      }
    }
  }

  lemma {:induction false} MemCmpZero(a: Bytes, b: Bytes)
    requires |a| == |b|
    ensures MemCmp(a, b) == 0 <==> a == b
  {
    if a != [] {
      MemCmpZero(a[1..], b[1..]);
      assert a == [a[0]] + a[1..] && b == [b[0]] + b[1..];
    }
  }

  /** Comparing two raw columns is comparing the values they encode. */
  lemma ColumnOrder(a: Bytes, b: Bytes, t: ColType)
    requires |a| == |b| == Len(t) && (t.Str? ==> Padded(a) && Padded(b))
    ensures var v, w := DecodeCol(a, t), DecodeCol(b, t);
            && (CompareCol(a, b, t) < 0 <==> Lt(v, w))
            && (CompareCol(a, b, t) == 0 <==> Eq(v, w))
            && (CompareCol(a, b, t) > 0 <==> Gt(v, w))
  {
    if t.Str? {
      MemCmpIsCompareStr(a, b);
      CompareStrZero(DecodeStr(a), DecodeStr(b));
    }
  }

  // ---------------------------------------------------------------- composite keys

  function KeyLen(cols: seq<ColType>): nat
  {
    if cols == [] then 0 else Len(cols[0]) + KeyLen(cols[1..])
  }

  /** The sign of the first column that differs. */
  function CompareKey(a: Bytes, b: Bytes, cols: seq<ColType>): int
    requires |a| == |b| == KeyLen(cols)
    decreases |cols|
  {
    if cols == [] then 0
    else
      var n := Len(cols[0]);
      var r := CompareCol(a[..n], b[..n], cols[0]);
      if r != 0 then r else CompareKey(a[n..], b[n..], cols[1..])
  }

  /** The loop over the columns with a running offset. */
  method IxCompare(a: Bytes, b: Bytes, cols: seq<ColType>) returns (r: int)
    requires |a| == |b| == KeyLen(cols)
    ensures r == CompareKey(a, b, cols)
  {
    var offset, i := 0, 0;
    while i < |cols|
      invariant 0 <= i <= |cols| && 0 <= offset <= |a| && |a| - offset == KeyLen(cols[i..])
      invariant CompareKey(a, b, cols) == CompareKey(a[offset..], b[offset..], cols[i..])
    {
      var n := Len(cols[i]);
      assert cols[i..][1..] == cols[i + 1..];
      assert a[offset..][..n] == a[offset..offset + n] && b[offset..][..n] == b[offset..offset + n];
      assert a[offset..][n..] == a[offset + n..] && b[offset..][n..] == b[offset + n..];
      r := CompareCol(a[offset..offset + n], b[offset..offset + n], cols[i]);
      if r != 0 {
        return;
      }
      offset := offset + n;
      i := i + 1;
    }
    r := 0;
  }

  // ---------------------------------------------------------------- ranks

  function Pow256(n: nat): (p: nat)
    ensures p >= 1
  {
    if n == 0 then 1 else 256 * Pow256(n - 1)
  }

  /** The bytes read as a number, the first byte the most significant. */
  function Number(a: Bytes): nat
  {
    if a == [] then 0 else Mul(a[0] as nat, Pow256(|a| - 1)) + Number(a[1..])
  }

  function Mul(x: nat, c: nat): nat
  {
    x * c
  }

  lemma {:induction false} MulLess(x: nat, y: nat, c: nat)
    requires x < y
    ensures Mul(x, c) + c <= Mul(y, c)
  {
    if x + 1 < y {
      MulLess(x, y - 1, c);
    }
  }

  /** Digits in front decide; digits behind break ties. */
  lemma LexNumbers(x: nat, y: nat, x': nat, y': nat, c: nat)
    requires y < c && y' < c
    ensures Sign(Mul(x, c) + y, Mul(x', c) + y') == if x != x' then Sign(x, x') else Sign(y, y')
  {
    if x < x' {
      MulLess(x, x', c);
    } else if x' < x {
      MulLess(x', x, c);
    }
  }

  lemma {:induction false} NumberBound(a: Bytes)
    ensures Number(a) < Pow256(|a|)
  {
    if a != [] {
      NumberBound(a[1..]);
      MulLess(a[0] as nat, 256, Pow256(|a| - 1));
    }
  }

  lemma {:induction false} MemCmpIsNumber(a: Bytes, b: Bytes)
    requires |a| == |b|
    ensures MemCmp(a, b) == Sign(Number(a), Number(b))
  {
    if a != [] {
      NumberBound(a[1..]);
      NumberBound(b[1..]);
      MemCmpIsNumber(a[1..], b[1..]);
      LexNumbers(a[0] as nat, Number(a[1..]), b[0] as nat, Number(b[1..]), Pow256(|a| - 1));
    }
  }

  function ColRank(raw: Bytes, t: ColType): nat
    requires |raw| == Len(t)
  {
    if t.Str? then Number(raw) else DecodeInt(raw) + INT_LIMIT
  }

  function ColSpan(t: ColType): nat
  {
    if t.Str? then Pow256(t.width) else INT_SPAN
  }

  function Span(cols: seq<ColType>): nat
  {
    if cols == [] then 1 else Mul(ColSpan(cols[0]), Span(cols[1..]))
  }

  /** The rank of a key among all keys of its columns. */
  function Rank(key: Bytes, cols: seq<ColType>): nat
    requires |key| == KeyLen(cols)
    decreases |cols|
  {
    if cols == [] then 0
    else Mul(ColRank(key[..Len(cols[0])], cols[0]), Span(cols[1..])) + Rank(key[Len(cols[0])..], cols[1..])
  }

  lemma ColRankOrders(a: Bytes, b: Bytes, t: ColType)
    requires |a| == |b| == Len(t)
    ensures CompareCol(a, b, t) == Sign(ColRank(a, t), ColRank(b, t)) && ColRank(a, t) < ColSpan(t)
    ensures CompareCol(a, b, t) == 0 <==> a == b
  {
    if t.Str? {
      MemCmpIsNumber(a, b);
      NumberBound(a);
      MemCmpZero(a, b);
    } else if DecodeInt(a) == DecodeInt(b) {
      DecodeIntInjective(a, b);
    }
  }

  lemma {:induction false} RankBound(key: Bytes, cols: seq<ColType>)
    requires |key| == KeyLen(cols)
    ensures Rank(key, cols) < Span(cols)
    decreases |cols|
  {
    if cols != [] {
      var n := Len(cols[0]);
      RankBound(key[n..], cols[1..]);
      ColRankOrders(key[..n], key[..n], cols[0]);
      MulLess(ColRank(key[..n], cols[0]), ColSpan(cols[0]), Span(cols[1..]));
    }
  }

  /** Comparing two raw keys is comparing their ranks, and only equal keys compare equal: a total order. */
  lemma {:induction false} KeyOrderIsRank(a: Bytes, b: Bytes, cols: seq<ColType>)
    requires |a| == |b| == KeyLen(cols)
    ensures CompareKey(a, b, cols) == Sign(Rank(a, cols), Rank(b, cols))
    ensures CompareKey(a, b, cols) == 0 <==> a == b
    decreases |cols|
  {
    if cols != [] {
      var n := Len(cols[0]);
      ColRankOrders(a[..n], b[..n], cols[0]);
      KeyOrderIsRank(a[n..], b[n..], cols[1..]);
      RankBound(a[n..], cols[1..]);
      RankBound(b[n..], cols[1..]);
      LexNumbers(ColRank(a[..n], cols[0]), Rank(a[n..], cols[1..]), ColRank(b[..n], cols[0]), Rank(b[n..], cols[1..]),
        Span(cols[1..]));
      assert a == a[..n] + a[n..] && b == b[..n] + b[n..];
    }
  }

  // ---------------------------------------------------------------- dates

  /** A date packed into an int: nine bits below the year, five below the month. */
  function PackDate(year: nat, month: nat, day: nat): nat
  {
    year * 512 + month * 32 + day
  }

  /** The packed order is the calendar order. */
  lemma DateOrder(y: nat, m: nat, d: nat, y': nat, m': nat, d': nat)
    requires 1 <= m <= 12 && 1 <= m' <= 12 && 1 <= d <= 31 && 1 <= d' <= 31
    ensures PackDate(y, m, d) < PackDate(y', m', d') <==> y < y' || (y == y' && (m < m' || (m == m' && d < d')))
  {
    if y < y' {
      assert 512 * y + 512 <= 512 * y';
    } else if y' < y {
      assert 512 * y' + 512 <= 512 * y;
    } else if m < m' {
      assert 32 * m + 32 <= 32 * m';
    } else if m' < m {
      assert 32 * m' + 32 <= 32 * m;
    }
  }

  /** What stands in front of a bit field, and the field itself. */
  lemma SplitField(hi: nat, lo: nat)
    ensures lo < 512 ==> (512 * hi + lo) / 512 == hi
    ensures lo < 32 ==> (32 * hi + lo) / 32 == hi && (32 * hi + lo) % 32 == lo
    ensures lo < 16 ==> (16 * hi + lo) % 16 == lo
  {
  }

  /** A packed date can be taken apart again. */
  lemma DateRoundTrip(y: nat, m: nat, d: nat)
    requires 1 <= m <= 12 && 1 <= d <= 31
    ensures var p := PackDate(y, m, d); p / 512 == y && p / 32 % 16 == m && p % 32 == d
  {
    var p := PackDate(y, m, d);
    assert p == 512 * y + (32 * m + d) == 32 * (16 * y + m) + d;
    SplitField(y, 32 * m + d);
    SplitField(16 * y + m, d);
    SplitField(y, m);
  }
}
