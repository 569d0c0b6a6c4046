/** Printing the catalogue as text and reading it back. */
module Catalogue {
  /** `alias` and `aggr` are not printed, so they are not part of the model. */
  datatype ColMeta = ColMeta(tab: string, name: string, kind: int, len: int, offset: int, index: bool)

  datatype IndexMeta = IndexMeta(tab: string, totLen: int, colNum: int, cols: seq<ColMeta>)

  datatype TabMeta = TabMeta(name: string, cols: seq<ColMeta>, indexes: seq<IndexMeta>)

  datatype DbMeta = DbMeta(name: string, tabs: map<string, TabMeta>)

  // ---------------------------------------------------------------- words

  /** The characters at which a stream ends a word: blank, line feed, both tabs, carriage return and form feed. */
  predicate Space(c: char)
  {
    c == ' ' || c == '\n' || c == '\t' || c == '\r' || c == '\U{B}' || c == '\U{C}'
  }

  ghost predicate IsWord(s: string)
  {
    s != "" && forall i | 0 <= i < |s| :: !Space(s[i])
  }

  ghost predicate IsBlank(s: string)
  {
    forall i | 0 <= i < |s| :: Space(s[i])
  }

  // ---------------------------------------------------------------- numbers

  function Digit(n: nat): char
    requires n < 10
  {
    '0' + n as char
  }

  function Digits(n: nat): (s: string)
    ensures s != "" && forall i | 0 <= i < |s| :: '0' <= s[i] <= '9'
  {
    if n < 10 then [Digit(n)] else Digits(n / 10) + [Digit(n % 10)]
  }

  function Num(n: int): (s: string)
    ensures IsWord(s)
  {
    if n < 0 then "-" + Digits(-n) else Digits(n)
  }

  function ReadDigits(s: string): nat
    requires forall i | 0 <= i < |s| :: '0' <= s[i] <= '9'
  {
    if s == "" then 0 else 10 * ReadDigits(s[..|s| - 1]) + (s[|s| - 1] - '0') as nat
  }

  function ReadNum(s: string): int
  {
    if |s| > 0 && s[0] == '-' && (forall i | 0 <= i < |s[1..]| :: '0' <= s[1..][i] <= '9')
      then (var n: int := ReadDigits(s[1..]); -n)
    else if forall i | 0 <= i < |s| :: '0' <= s[i] <= '9' then ReadDigits(s)
    else 0
  }

  lemma {:induction false} DigitsRoundTrip(n: nat)
    ensures ReadDigits(Digits(n)) == n
  {
    if n < 10 {
      assert Digits(n)[..0] == "";
      assert ReadDigits("") == 0;
    } else {
      DigitsRoundTrip(n / 10);
      var s := Digits(n);
      assert s[..|s| - 1] == Digits(n / 10) && s[|s| - 1] == Digit(n % 10);
    }
  }

  lemma NumRoundTrip(n: int)
    ensures ReadNum(Num(n)) == n
  {
    if n < 0 {
      DigitsRoundTrip(-n);
      assert Num(n)[1..] == Digits(-n);
    } else {
      DigitsRoundTrip(n);
      assert Num(n)[0] != '-';
    }
  }

  // ---------------------------------------------------------------- items: a word and the blanks before it

  datatype Item = Item(sep: string, word: string)

  ghost function Emit(items: seq<Item>): string
  {
    if items == [] then "" else items[0].sep + items[0].word + Emit(items[1..])
  }

  /** Every item is blanks and a word, and there are blanks between two words. */
  ghost predicate ItemsOk(items: seq<Item>)
  {
    forall i | 0 <= i < |items| :: IsWord(items[i].word) && IsBlank(items[i].sep) && (i > 0 ==> items[i].sep != "")
  }

  lemma Chain3(a: string, b: string, c: string)
    ensures a + b + c == a + (b + c)
  {
  }

  lemma {:induction false} EmitConcat(a: seq<Item>, b: seq<Item>)
    ensures Emit(a + b) == Emit(a) + Emit(b)
  {
    if a == [] {
      assert a + b == b;
    } else {
      EmitConcat(a[1..], b);
      assert (a + b)[1..] == a[1..] + b && (a + b)[0] == a[0];
      Chain3(a[0].sep + a[0].word, Emit(a[1..]), Emit(b));
    }
  }

  function Blanks(s: string): nat
  {
    if s == "" || !Space(s[0]) then 0 else 1 + Blanks(s[1..])
  }

  function WordLen(s: string): nat
  {
    if s == "" || Space(s[0]) then 0 else 1 + WordLen(s[1..])
  }

  lemma {:induction false} BlanksAre(sep: string, t: string)
    requires IsBlank(sep) && t != "" && !Space(t[0])
    ensures Blanks(sep + t) == |sep|
  {
    if sep == "" {
      assert sep + t == t;
    } else {
      BlanksAre(sep[1..], t);
      assert (sep + t)[1..] == sep[1..] + t;
    }
  }

  lemma {:induction false} WordIs(w: string, t: string)
    requires (forall i | 0 <= i < |w| :: !Space(w[i])) && (t == "" || Space(t[0]))
    ensures WordLen(w + t) == |w|
  {
    if w == "" {
      assert w + t == t;
    } else {
      WordIs(w[1..], t);
      assert (w + t)[1..] == w[1..] + t;
    }
  }

  /** What follows a word is blank or nothing. */
  lemma EmitStarts(items: seq<Item>, trail: string)
    requires ItemsOk(items) && IsBlank(trail) && (items != [] ==> items[0].sep != "")
    ensures Emit(items) + trail == "" || Space((Emit(items) + trail)[0])
  {
    if items != [] {
      assert (Emit(items) + trail)[0] == items[0].sep[0];
    }
  }

  // ---------------------------------------------------------------- the input stream

  class Reader {
    var rest: string
    /** The items still to be read, and the blanks behind them. */
    ghost var items: seq<Item>
    ghost var trail: string

    ghost predicate Valid()
      reads this
    {
      ItemsOk(items) && IsBlank(trail) && rest == Emit(items) + trail
    }

    constructor (text: string, ghost items: seq<Item>, ghost trail: string)
      requires ItemsOk(items) && IsBlank(trail) && text == Emit(items) + trail
      ensures Valid() && this.items == items && this.trail == trail
    {
      rest, this.items, this.trail := text, items, trail;
    }

    /** Skips blanks and takes everything up to the next blank. */
    method Word() returns (w: string)
      requires Valid() && items != []
      modifies this
      ensures Valid() && w == old(items)[0].word && items == old(items)[1..] && trail == old(trail)
    {
      ghost var it, after := items[0], Emit(items[1..]) + trail;
      assert rest == it.sep + (it.word + after);
      EmitStarts(items[1..], trail);
      BlanksAre(it.sep, it.word + after);
      var i := SkipBlanks();
      assert rest[i..] == it.word + after;
      WordIs(it.word, after);
      var n := Measure(i);
      w := rest[i..i + n];
      rest := rest[i + n..];
      items := items[1..];
      assert w == it.word && rest == after;
    }

    method SkipBlanks() returns (i: nat)
      ensures i == Blanks(rest) && i <= |rest|
    {
      i := 0;
      while i < |rest| && Space(rest[i])
        invariant 0 <= i <= |rest| && Blanks(rest) == i + Blanks(rest[i..])
      {
        assert rest[i..][1..] == rest[i + 1..];
        i := i + 1;
      }
    }

    method Measure(i: nat) returns (n: nat)
      requires i <= |rest|
      ensures n == WordLen(rest[i..]) && i + n <= |rest|
    {
      n := 0;
      while i + n < |rest| && !Space(rest[i + n])
        invariant 0 <= n <= |rest| - i && WordLen(rest[i..]) == n + WordLen(rest[i + n..])
      {
        assert rest[i + n..][1..] == rest[i + n + 1..];
        n := n + 1;
      }
    }

    method Number() returns (n: int)
      requires Valid() && items != []
      modifies this
      ensures Valid() && n == ReadNum(old(items)[0].word) && items == old(items)[1..] && trail == old(trail)
    {
      var w := Word();
      n := ReadNum(w);
    }
  }
}
