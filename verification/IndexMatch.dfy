/** Choosing the index for a table scan: the longest leftmost match, and the conditions put into its column order. */
module IndexMatch {
  import opened Sequences
  import opened Plans

  // ---------------------------------------------------------------- what a match is

  /** A condition on the column, an equality if `eq`. */
  ghost predicate Names(cs: seq<Condition>, col: string, eq: bool)
  {
    exists i | 0 <= i < |cs| :: cs[i].lhs.col == col && (cs[i].op == EQ <==> eq)
  }

  /** The first `n` columns of the index can be matched: each has a condition, and all but the last an equality. */
  ghost predicate Matches(cs: seq<Condition>, cols: seq<string>, n: nat)
  {
    && n <= |cols|
    && (forall k | 0 <= k < n - 1 :: Names(cs, cols[k], true))
    && (n > 0 ==> Names(cs, cols[n - 1], true) || Names(cs, cols[n - 1], false))
  }

  /** `n` is the longest match of the index. */
  ghost predicate Longest(cs: seq<Condition>, cols: seq<string>, n: nat)
  {
    Matches(cs, cols, n) && forall m: nat | Matches(cs, cols, m) :: m <= n
  }

  // ---------------------------------------------------------------- the two condition maps

  /** The map finds, among the first `n` conditions, a condition for exactly the columns that have one. */
  ghost predicate FindsIn(m: map<string, nat>, cs: seq<Condition>, eq: bool, n: nat)
  {
    && n <= |cs|
    && (forall col | col in m :: m[col] < n && cs[m[col]].lhs.col == col && (cs[m[col]].op == EQ <==> eq))
    && (forall i | 0 <= i < n && (cs[i].op == EQ <==> eq) :: cs[i].lhs.col in m)
  }

  ghost predicate Finds(m: map<string, nat>, cs: seq<Condition>, eq: bool)
  {
    FindsIn(m, cs, eq, |cs|)
  }

  lemma FindsNames(m: map<string, nat>, cs: seq<Condition>, eq: bool, col: string)
    requires Finds(m, cs, eq)
    ensures col in m <==> Names(cs, col, eq)
  {
    if col in m {
      assert cs[m[col]].lhs.col == col;
    }
  }

  method SplitConds(cs: seq<Condition>) returns (eqMap: map<string, nat>, neqMap: map<string, nat>)
    ensures Finds(eqMap, cs, true) && Finds(neqMap, cs, false)
  {
    eqMap, neqMap := map[], map[];
    var i := 0;
    while i < |cs|
      invariant 0 <= i <= |cs| && FindsIn(eqMap, cs, true, i) && FindsIn(neqMap, cs, false, i)
    {
      if cs[i].op == EQ {
        eqMap := eqMap[cs[i].lhs.col := i];
      } else {
        neqMap := neqMap[cs[i].lhs.col := i];
      }
      i := i + 1;
    }
  }

  // ---------------------------------------------------------------- the longest match

  /** How many columns of the index match, from the left. */
  method MatchLength(ghost cs: seq<Condition>, eqMap: map<string, nat>, neqMap: map<string, nat>,
                     cols: seq<string>) returns (len: nat)
    requires Finds(eqMap, cs, true) && Finds(neqMap, cs, false)
    ensures Longest(cs, cols, len)
  {
    len := 0;
    while len < |cols|
      invariant 0 <= len <= |cols|
      invariant forall k | 0 <= k < len :: Names(cs, cols[k], true)
    {
      FindsNames(eqMap, cs, true, cols[len]);
      FindsNames(neqMap, cs, false, cols[len]);
      if cols[len] in eqMap {
        len := len + 1;
      } else if cols[len] in neqMap {
        len := len + 1;
        return;
      } else {
        return;
      }
    }
  }

  /** The first index with the longest match of all, or -1 if none matches. */
  method BestIndex(ghost cs: seq<Condition>, eqMap: map<string, nat>, neqMap: map<string, nat>,
    indexes: seq<seq<string>>)
    returns (best: int, len: nat)
    requires Finds(eqMap, cs, true) && Finds(neqMap, cs, false)
    ensures -1 <= best < |indexes| && (best == -1 <==> len == 0)
    ensures best >= 0 ==> Longest(cs, indexes[best], len)
    ensures forall i, n: nat | 0 <= i < |indexes| && Matches(cs, indexes[i], n) :: n <= len
  {
    best, len := -1, 0;
    var i := 0;
    while i < |indexes|
      invariant 0 <= i <= |indexes| && -1 <= best < |indexes| && (best == -1 <==> len == 0)
      invariant best >= 0 ==> Longest(cs, indexes[best], len)
      invariant forall k, n: nat | 0 <= k < i && Matches(cs, indexes[k], n) :: n <= len
    {
      var l := MatchLength(cs, eqMap, neqMap, indexes[i]);
      if l > len {
        len, best := l, i;
      }
      i := i + 1;
    }
  }

  // ---------------------------------------------------------------- reordering

  /** Those of the first `n` conditions whose places are in `s`, or are not. */
  ghost function Chosen(cs: seq<Condition>, s: set<nat>, n: nat, inside: bool): multiset<Condition>
    requires n <= |cs|
  {
    if n == 0 then multiset{}
    else if (n - 1 in s) == inside then Chosen(cs, s, n - 1, inside) + multiset{cs[n - 1]}
    else Chosen(cs, s, n - 1, inside)
  }

  lemma {:induction false} ChosenBoth(cs: seq<Condition>, s: set<nat>, n: nat)
    requires n <= |cs|
    ensures multiset(cs[..n]) == Chosen(cs, s, n, true) + Chosen(cs, s, n, false)
  {
    if n > 0 {
      ChosenBoth(cs, s, n - 1);
      assert cs[..n] == cs[..n - 1] + [cs[n - 1]];
      AddEither(Chosen(cs, s, n - 1, true), Chosen(cs, s, n - 1, false), multiset{cs[n - 1]});
    }
  }

  lemma AddEither(a: multiset<Condition>, b: multiset<Condition>, x: multiset<Condition>)
    ensures (a + b) + x == (a + x) + b == a + (b + x)
  {
  }

  lemma {:induction false} ChosenMore(cs: seq<Condition>, s: set<nat>, x: nat, n: nat)
    requires n <= |cs| && x < |cs| && x !in s
    ensures Chosen(cs, s + {x}, n, true) == if x < n then Chosen(cs, s, n, true) + multiset{cs[x]}
      else Chosen(cs, s, n, true)
  {
    if n > 0 {
      ChosenMore(cs, s, x, n - 1);
    }
  }

  lemma {:induction false} ChosenNone(cs: seq<Condition>, n: nat)
    requires n <= |cs|
    ensures Chosen(cs, {}, n, true) == multiset{}
  {
    if n > 0 {
      ChosenNone(cs, n - 1);
    }
  }

  /** The conditions at the given places. */
  method PickAt(cs: seq<Condition>, at: seq<nat>) returns (r: seq<Condition>, picked: set<nat>)
    requires NoDup(at) && forall k | 0 <= k < |at| :: at[k] < |cs|
    ensures |r| == |at| && (forall k | 0 <= k < |at| :: r[k] == cs[at[k]])
      && multiset(r) == Chosen(cs, picked, |cs|, true)
  {
    r, picked := [], {};
    var i := 0;
    ChosenNone(cs, |cs|);
    while i < |at|
      invariant 0 <= i <= |at| && |r| == i && (forall k | 0 <= k < i :: r[k] == cs[at[k]])
      invariant (forall x :: x in picked <==> x in at[..i]) && multiset(r) == Chosen(cs, picked, |cs|, true)
    {
      assert at[i] !in at[..i];
      ChosenMore(cs, picked, at[i], |cs|);
      assert at[..i + 1] == at[..i] + [at[i]];
      r := r + [cs[at[i]]];
      picked := picked + {at[i]};
      i := i + 1;
    }
  }

  /** Those of the first `n` conditions that were not picked, in their order. */
  function Others(cs: seq<Condition>, picked: set<nat>, n: nat): seq<Condition>
    requires n <= |cs|
  {
    if n == 0 then []
    else if n - 1 in picked then Others(cs, picked, n - 1)
    else Others(cs, picked, n - 1) + [cs[n - 1]]
  }

  lemma {:induction false} OthersChosen(cs: seq<Condition>, picked: set<nat>, n: nat)
    requires n <= |cs|
    ensures multiset(Others(cs, picked, n)) == Chosen(cs, picked, n, false)
  {
    if n > 0 {
      OthersChosen(cs, picked, n - 1);
    }
  }

  /** The conditions that were not picked, behind the others. */
  method AppendOthers(cs: seq<Condition>, front: seq<Condition>, picked: set<nat>) returns (r: seq<Condition>)
    ensures r == front + Others(cs, picked, |cs|)
  {
    r := front;
    var i := 0;
    while i < |cs|
      invariant 0 <= i <= |cs| && r == front + Others(cs, picked, i)
    {
      if i !in picked {
        r := r + [cs[i]];
      }
      i := i + 1;
    }
  }

  /** The picked conditions first, the others behind them in their order: a permutation. */
  method Reorder(cs: seq<Condition>, at: seq<nat>) returns (r: seq<Condition>)
    requires NoDup(at) && forall k | 0 <= k < |at| :: at[k] < |cs|
    ensures multiset(r) == multiset(cs) && |r| >= |at|
    ensures forall k | 0 <= k < |at| :: r[k] == cs[at[k]]
  {
    var front, picked := PickAt(cs, at);
    r := AppendOthers(cs, front, picked);
    OthersChosen(cs, picked, |cs|);
    ChosenBoth(cs, picked, |cs|);
    assert cs[..|cs|] == cs;
  }

  // ---------------------------------------------------------------- the whole

  /** Conditions whose right column belongs to the table are turned round. */
  function Turned(c: Condition, tab: string): Condition
  {
    if c.lhs.tab != tab && !c.isVal && c.rhs.tab == tab then Flip(c) else c
  }

  function TurnAll(cs: seq<Condition>, tab: string): seq<Condition>
  {
    seq(|cs|, i requires 0 <= i < |cs| => Turned(cs[i], tab))
  }

  /** `op'` compares the other way round. */
  ghost predicate Mirrored(op: CompOp, op': CompOp)
  {
    forall a, b :: Compare(a, op', b) <==> Compare(b, op, a)
  }

  /**
    `d` is `c` written towards the table: a condition whose only column of the table is on the right has its columns
    exchanged and its operator mirrored; every other one stays as it is written.
   */
  ghost predicate Towards(c: Condition, d: Condition, tab: string)
  {
    if c.lhs.tab == tab || c.isVal || c.rhs.tab != tab then d == c
    else d.lhs == c.rhs && d.rhs == c.lhs && !d.isVal && d.val == c.val && Mirrored(c.op, d.op)
  }

  lemma TurnAllTowards(cs: seq<Condition>, tab: string)
    ensures |TurnAll(cs, tab)| == |cs| && forall i | 0 <= i < |cs| :: Towards(cs[i], TurnAll(cs, tab)[i], tab)
    ensures (forall c | c in cs :: c.lhs.tab == tab) ==> TurnAll(cs, tab) == cs
  {
    forall op ensures Mirrored(op, Mirror(op)) {
      match op
      case EQ => case NE => case LT => case GT => case LE => case GE =>
    }
  }

  lemma TurnAllHolds(cs: seq<Condition>, tab: string, e: Row)
    ensures HoldsAll(TurnAll(cs, tab), e) <==> HoldsAll(cs, e)
  {
    forall i | 0 <= i < |cs| ensures Holds(TurnAll(cs, tab)[i], e) <==> Holds(cs[i], e) {
      if !cs[i].isVal {
        FlipHolds(cs[i], e);
      }
    }
    if HoldsAll(TurnAll(cs, tab), e) {
      forall i | 0 <= i < |cs| ensures Holds(cs[i], e) {
        assert Holds(TurnAll(cs, tab)[i], e);
      }
    }
  }

  /** The conditions in an order, with the index that fits them best. */
  ghost predicate FitsIndex(cs: seq<Condition>, cols: seq<string>, len: nat)
  {
    && len <= |cols| && len <= |cs|
    && (forall k | 0 <= k < len :: cs[k].lhs.col == cols[k])
    && (forall k | 0 <= k < len - 1 :: cs[k].op == EQ)
  }

  /** Where the matched columns have their conditions. */
  method Positions(cs: seq<Condition>, eqMap: map<string, nat>, neqMap: map<string, nat>, cols: seq<string>, len: nat)
    returns (at: seq<nat>)
    requires Finds(eqMap, cs, true) && Finds(neqMap, cs, false) && Matches(cs, cols, len) && NoDup(cols)
    ensures |at| == len && NoDup(at) && (forall k | 0 <= k < len :: at[k] < |cs| && cs[at[k]].lhs.col == cols[k])
    ensures forall k | 0 <= k < len - 1 :: cs[at[k]].op == EQ
  {
    at := [];
    var i := 0;
    while i < len
      invariant 0 <= i <= len && |at| == i
      invariant forall k | 0 <= k < i :: at[k] < |cs| && cs[at[k]].lhs.col == cols[k]
      invariant forall k | 0 <= k < i && k < len - 1 :: cs[at[k]].op == EQ
    {
      FindsNames(eqMap, cs, true, cols[i]);
      FindsNames(neqMap, cs, false, cols[i]);
      if cols[i] in eqMap {
        at := at + [eqMap[cols[i]]];
      } else {
        at := at + [neqMap[cols[i]]];
      }
      i := i + 1;
    }
  }

  /**
    Looks for the index with the longest leftmost match and puts its conditions first, in its column order. The
    conditions stay the same up to order and the side they are written on, and no index has a longer match.
   */
  method GetIndexCols(tab: string, conds: seq<Condition>, indexes: seq<seq<string>>)
    returns (found: bool, r: seq<Condition>, cols: seq<string>, ghost len: nat)
    requires forall i | 0 <= i < |indexes| :: NoDup(indexes[i])
    ensures var cs := TurnAll(conds, tab);
            && |cs| == |conds| && (forall i | 0 <= i < |conds| :: Towards(conds[i], cs[i], tab))
            && multiset(r) == multiset(cs)
            && forall i, n: nat | 0 <= i < |indexes| && Matches(cs, indexes[i], n) :: n <= len
    ensures found <==> len > 0
    ensures if found then cols in indexes && FitsIndex(r, cols, len) else cols == []
    ensures (forall c | c in conds :: c.lhs.tab == tab) ==>
      && multiset(r) == multiset(conds)
      && (forall i, n: nat | 0 <= i < |indexes| && Matches(conds, indexes[i], n) :: n <= len)
      && (found ==> Matches(conds, cols, len))
  {
    var cs := TurnAll(conds, tab);
    TurnAllTowards(conds, tab);
    var eqMap, neqMap := SplitConds(cs);
    var best, l := BestIndex(cs, eqMap, neqMap, indexes);
    if best == -1 {
      return false, cs, [], 0;
    }
    cols := indexes[best];
    var at := Positions(cs, eqMap, neqMap, cols, l);
    r := Reorder(cs, at);
    return true, r, cols, l;
  }

  lemma HoldsAllMultiset(a: seq<Condition>, b: seq<Condition>, e: Row)
    requires multiset(a) == multiset(b)
    ensures HoldsAll(a, e) <==> HoldsAll(b, e)
  {
    if HoldsAll(a, e) {
      forall i | 0 <= i < |b| ensures Holds(b[i], e) {
        assert b[i] in multiset(a);
        var j :| 0 <= j < |a| && a[j] == b[i];
      }
    }
    if HoldsAll(b, e) {
      forall i | 0 <= i < |a| ensures Holds(a[i], e) {
        assert a[i] in multiset(b);
        var j :| 0 <= j < |b| && b[j] == a[i];
      }
    }
  }
}
