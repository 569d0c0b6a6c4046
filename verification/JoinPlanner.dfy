/** Building the plan of a query: a scan per table, joins along the join conditions, and the tables that are left. */
module JoinPlanner {
  import opened Sequences
  import opened Plans
  import opened PlanMeaning
  import opened IndexMatch
  import opened Planner

  type Indexes = map<string, seq<seq<string>>>

  /** A condition between two tables. */
  predicate Crosses(c: Condition)
  {
    !c.isVal && c.lhs.tab != c.rhs.tab
  }

  /** The condition compares a column of a table of the query with a literal or with another such column. */
  ghost predicate CondOk(c: Condition, tables: seq<string>)
  {
    && c.lhs.tab in tables
    && if c.isVal then c.rhs.tab == "" else c.rhs.tab in tables
  }

  /** Comparisons of two columns of one table are within the first table of the query. */
  ghost predicate WithinFirst(tables: seq<string>, conds: seq<Condition>)
    requires tables != []
  {
    forall c | c in conds && !c.isVal && c.lhs.tab == c.rhs.tab :: c.lhs.tab == tables[0]
  }

  ghost predicate QueryOk(tables: seq<string>, conds: seq<Condition>)
  {
    && tables != [] && NoDup(tables) && "" !in tables
    && forall c | c in conds :: CondOk(c, tables)
  }

  ghost predicate IndexesOk(indexes: Indexes)
  {
    forall t, i | t in indexes && 0 <= i < |indexes[t]| :: NoDup(indexes[t][i])
  }

  // ---------------------------------------------------------------- the join conditions, in order

  function Crossing(cs: seq<Condition>): seq<Condition>
  {
    if cs == [] then [] else Crossing(cs[..|cs| - 1]) + if Crosses(cs[|cs| - 1]) then [cs[|cs| - 1]] else []
  }

  lemma CrossingSnoc(cs: seq<Condition>, c: Condition)
    ensures Crossing(cs + [c]) == Crossing(cs) + if Crosses(c) then [c] else []
  {
    assert (cs + [c])[..|cs|] == cs;
  }

  lemma {:induction false} CrossingKept(cs: seq<Condition>, tab: string)
    ensures Crossing(Kept(cs, tab, false)) == Crossing(cs)
  {
    if cs != [] {
      var n := |cs| - 1;
      CrossingKept(cs[..n], tab);
      if Popped(cs[n], tab) {
        assert Kept(cs, tab, false) == Kept(cs[..n], tab, false);
        assert !Crosses(cs[n]);
      } else {
        assert Kept(cs, tab, false) == Kept(cs[..n], tab, false) + [cs[n]];
        CrossingSnoc(Kept(cs[..n], tab, false), cs[n]);
      }
    }
  }

  lemma {:induction false} CrossingAll(cs: seq<Condition>)
    requires forall c | c in cs :: Crosses(c)
    ensures Crossing(cs) == cs
  {
    if cs != [] {
      var n := |cs| - 1;
      assert cs == cs[..n] + [cs[n]];
      CrossingAll(cs[..n]);
    }
  }

  /** The conditions that are not join conditions hold. */
  ghost predicate LocalHold(cs: seq<Condition>, e: Row)
  {
    forall i | 0 <= i < |cs| && !Crosses(cs[i]) :: Holds(cs[i], e)
  }

  lemma LocalSnoc(cs: seq<Condition>, c: Condition, e: Row)
    ensures LocalHold(cs + [c], e) <==> LocalHold(cs, e) && (Crosses(c) || Holds(c, e))
  {
    if LocalHold(cs + [c], e) {
      forall i | 0 <= i < |cs| && !Crosses(cs[i]) ensures Holds(cs[i], e) {
        assert (cs + [c])[i] == cs[i];
      }
      assert (cs + [c])[|cs|] == c;
    }
  }

  lemma HoldsSnoc(cs: seq<Condition>, c: Condition, e: Row)
    ensures HoldsAll(cs + [c], e) <==> HoldsAll(cs, e) && Holds(c, e)
  {
    HoldsAllConcat(cs, [c], e);
    assert HoldsAll([c], e) <==> Holds([c][0], e);
  }

  lemma {:induction false} KeptLocal(cs: seq<Condition>, tab: string, e: Row)
    ensures LocalHold(cs, e) <==> HoldsAll(Kept(cs, tab, true), e) && LocalHold(Kept(cs, tab, false), e)
  {
    if cs != [] {
      var n := |cs| - 1;
      var c, t, f := cs[n], Kept(cs[..n], tab, true), Kept(cs[..n], tab, false);
      KeptLocal(cs[..n], tab, e);
      assert cs == cs[..n] + [c];
      LocalSnoc(cs[..n], c, e);
      if Popped(c, tab) {
        assert Kept(cs, tab, true) == t + [c] && Kept(cs, tab, false) == f;
        HoldsSnoc(t, c, e);
      } else {
        assert Kept(cs, tab, true) == t && Kept(cs, tab, false) == f + [c];
        LocalSnoc(f, c, e);
      }
    }
  }

  lemma {:induction false} LocalAndCrossing(cs: seq<Condition>, e: Row)
    ensures HoldsAll(cs, e) <==> LocalHold(cs, e) && HoldsAll(Crossing(cs), e)
  {
    if cs != [] {
      var n := |cs| - 1;
      var c := cs[n];
      LocalAndCrossing(cs[..n], e);
      assert cs == cs[..n] + [c];
      LocalSnoc(cs[..n], c, e);
      HoldsSnoc(cs[..n], c, e);
      if Crosses(c) {
        HoldsSnoc(Crossing(cs[..n]), c, e);
      } else {
        assert Crossing(cs) == Crossing(cs[..n]);
      }
    }
  }

  // ---------------------------------------------------------------- the scans

  ghost predicate ScanOf(p: Plan, tab: string)
  {
    p.Scan? && p.tab == tab
  }

  /** The conditions of all scans hold. */
  ghost predicate ScansHold(scans: seq<Plan>, e: Row)
  {
    forall i | 0 <= i < |scans| :: TreeHolds(scans[i], e)
  }

  /** After the scans of the first `i` tables: only literals of later tables and join conditions are left. */
  ghost predicate Waiting(c: Condition, tables: seq<string>, i: nat)
  {
    && CondOk(c, tables) && i <= |tables|
    && (c.isVal ==> c.lhs.tab in tables[i..])
    && (i > 0 && !c.isVal ==> c.lhs.tab != c.rhs.tab)
  }

  lemma WaitingNext(cs: seq<Condition>, tables: seq<string>, i: nat)
    requires i < |tables| && NoDup(tables) && "" !in tables && forall c | c in cs :: Waiting(c, tables, i)
    ensures forall c | c in Kept(cs, tables[i], false) :: Waiting(c, tables, i + 1)
    ensures AllLocal(Kept(cs, tables[i], true), {tables[i]}) <==> (i == 0 ==> WithinFirst(tables, cs))
  {
    var tab := tables[i];
    forall c | c in Kept(cs, tab, false) ensures Waiting(c, tables, i + 1) {
      KeptHas(cs, tab, false, c);
      assert tables[i..] == [tab] + tables[i + 1..];
    }
    assert forall c | c in cs :: Waiting(c, tables, i);
    PopsOwn(cs, tab);
  }

  lemma TurnedLocal(cs: seq<Condition>, tab: string)
    ensures AllLocal(TurnAll(cs, tab), {tab}) <==> AllLocal(cs, {tab})
  {
    var t := TurnAll(cs, tab);
    forall i | 0 <= i < |cs| ensures Local(t[i], {tab}) <==> Local(cs[i], {tab}) {
    }
    if AllLocal(t, {tab}) {
      forall i | 0 <= i < |cs| ensures Local(cs[i], {tab}) {
        assert Local(t[i], {tab});
      }
    }
  }

  lemma PermutedLocal(a: seq<Condition>, b: seq<Condition>, tabs: set<string>)
    requires multiset(a) == multiset(b) && AllLocal(a, tabs)
    ensures AllLocal(b, tabs)
  {
    forall i | 0 <= i < |b| ensures Local(b[i], tabs) {
      assert b[i] in multiset(a);
      var j :| 0 <= j < |a| && a[j] == b[i];
    }
  }

  /** Putting conditions into index order changes neither what they say nor whose they are. */
  lemma ReorderedLocal(cs: seq<Condition>, r: seq<Condition>, tab: string)
    requires multiset(r) == multiset(TurnAll(cs, tab))
    ensures AllLocal(r, {tab}) <==> AllLocal(cs, {tab})
    ensures forall e :: HoldsAll(r, e) <==> HoldsAll(cs, e)
  {
    var t := TurnAll(cs, tab);
    TurnedLocal(cs, tab);
    if AllLocal(r, {tab}) {
      PermutedLocal(r, t, {tab});
    } else if AllLocal(t, {tab}) {
      PermutedLocal(t, r, {tab});
    }
    forall e ensures HoldsAll(r, e) <==> HoldsAll(cs, e) {
      HoldsAllMultiset(r, t, e);
      TurnAllHolds(cs, tab, e);
    }
  }

  /** The scan of one table, with its conditions in the order of the index that fits best. */
  method MakeScan(tab: string, conds: seq<Condition>, indexes: Indexes) returns (scan: Plan)
    requires IndexesOk(indexes)
    ensures ScanOf(scan, tab) && (ScansOwn(scan) <==> AllLocal(conds, {tab}))
    ensures forall e :: TreeHolds(scan, e) <==> HoldsAll(conds, e)
  {
    var ixs := if tab in indexes then indexes[tab] else [];
    var found, r, cols; ghost var len;
    found, r, cols, len := GetIndexCols(tab, conds, ixs);
    ReorderedLocal(conds, r, tab);
    scan := Scan(tab, r, if found then cols else []);
  }

  lemma ScansSnoc(scans: seq<Plan>, scan: Plan, e: Row)
    ensures ScansHold(scans + [scan], e) <==> ScansHold(scans, e) && TreeHolds(scan, e)
  {
    if ScansHold(scans + [scan], e) {
      forall i | 0 <= i < |scans| ensures TreeHolds(scans[i], e) {
        assert (scans + [scan])[i] == scans[i];
      }
      assert (scans + [scan])[|scans|] == scan;
    }
  }

  /** After the scans of the first `i` tables: the scans and the conditions that are left say what the query says. */
  ghost predicate Scanned(tables: seq<string>, conds: seq<Condition>, scans: seq<Plan>, rest: seq<Condition>, i: nat)
  {
    && i <= |tables| && |scans| == i && (forall k | 0 <= k < i :: ScanOf(scans[k], tables[k]))
    && Crossing(rest) == Crossing(conds) && (forall c | c in rest :: Waiting(c, tables, i))
    && (i == 0 ==> rest == conds)
    && (forall k | 0 <= k < i :: ScansOwn(scans[k]) <==> (k == 0 ==> WithinFirst(tables, conds)))
    && forall e :: LocalHold(conds, e) <==> ScansHold(scans, e) && LocalHold(rest, e)
  }

  lemma ScannedNext(tables: seq<string>, conds: seq<Condition>, scans: seq<Plan>, rest: seq<Condition>, i: nat,
                    scan: Plan)
    requires QueryOk(tables, conds) && Scanned(tables, conds, scans, rest, i) && i < |tables| && ScanOf(scan, tables[i])
    requires ScansOwn(scan) <==> AllLocal(Kept(rest, tables[i], true), {tables[i]})
    requires forall e :: TreeHolds(scan, e) <==> HoldsAll(Kept(rest, tables[i], true), e)
    ensures Scanned(tables, conds, scans + [scan], Kept(rest, tables[i], false), i + 1)
  {
    var scans', rest' := scans + [scan], Kept(rest, tables[i], false);
    WaitingNext(rest, tables, i);
    CrossingKept(rest, tables[i]);
    forall e ensures LocalHold(conds, e) <==> ScansHold(scans', e) && LocalHold(rest', e) {
      KeptLocal(rest, tables[i], e);
      ScansSnoc(scans, scan, e);
    }
  }

  /**
    A scan for every table. The scans take exactly the conditions that are not join conditions; each has conditions on
    its own table only if and only if comparisons within one table are within the first one.
   */
  method MakeScans(tables: seq<string>, conds: seq<Condition>, indexes: Indexes)
    returns (scans: seq<Plan>, rest: seq<Condition>)
    requires QueryOk(tables, conds) && IndexesOk(indexes)
    ensures |scans| == |tables| && forall i | 0 <= i < |tables| :: ScanOf(scans[i], tables[i])
    ensures rest == Crossing(conds) && forall c | c in rest :: Crosses(c) && CondOk(c, tables)
    ensures (forall i | 0 <= i < |scans| :: ScansOwn(scans[i])) <==> WithinFirst(tables, conds)
    ensures forall e :: LocalHold(conds, e) <==> ScansHold(scans, e)
  {
    scans, rest := [], conds;
    var i := 0;
    assert tables[0..] == tables;
    while i < |tables|
      invariant 0 <= i <= |tables| && Scanned(tables, conds, scans, rest, i)
    {
      var curr, left := PopConds(rest, tables[i]);
      var scan := MakeScan(tables[i], curr, indexes);
      ScannedNext(tables, conds, scans, rest, i, scan);
      scans, rest := scans + [scan], left;
      i := i + 1;
    }
    CrossingAll(rest);
  }

  // ---------------------------------------------------------------- the state of the join tree

  /** The leaves of the tree are scans of the list. */
  ghost predicate FromScans(p: Plan, scans: seq<Plan>)
  {
    if p.Scan? then p in scans else FromScans(p.left, scans) && FromScans(p.right, scans)
  }

  lemma {:induction false} AttachedFrom(p: Plan, q: Plan, c: Condition, scans: seq<Plan>)
    requires Attached(p, q, c) && FromScans(p, scans)
    ensures FromScans(q, scans)
  {
    if q.left == p.left && q.right == p.right && AttachedHere(p, q, c) {
    } else if q.right == p.right && q.conds == p.conds && Attached(p.left, q.left, c) {
      AttachedFrom(p.left, q.left, c, scans);
    } else {
      AttachedFrom(p.right, q.right, c, scans);
    }
  }

  /** `flags[i] == 1` and `names` both tell which tables the tree has taken in. */
  ghost predicate Joined(tables: seq<string>, scans: seq<Plan>, flags: seq<int>, names: seq<string>, p: Plan)
  {
    && |scans| == |flags| == |tables|
    && (forall i | 0 <= i < |tables| :: ScanOf(scans[i], tables[i]))
    && TreeOk(p) && FromScans(p, scans) && (forall t | t in TabSet(p) :: t in tables)
    && (forall i | 0 <= i < |tables| :: flags[i] == if tables[i] in TabSet(p) then 1 else -1)
    && (forall t | t in tables :: t in names <==> t in TabSet(p))
  }

  /** The conditions of the scans that have not been taken in hold. */
  ghost predicate WaitingHold(scans: seq<Plan>, flags: seq<int>, e: Row)
  {
    forall i | 0 <= i < |scans| && i < |flags| && flags[i] == -1 :: TreeHolds(scans[i], e)
  }

  lemma WaitingLess(scans: seq<Plan>, flags: seq<int>, i: nat, e: Row)
    requires i < |scans| == |flags| && flags[i] == -1
    ensures WaitingHold(scans, flags, e) <==> WaitingHold(scans, flags[i := 1], e) && TreeHolds(scans[i], e)
  {
    if WaitingHold(scans, flags[i := 1], e) && TreeHolds(scans[i], e) {
      forall k | 0 <= k < |scans| && flags[k] == -1 ensures TreeHolds(scans[k], e) {
        assert k == i || flags[i := 1][k] == -1;
      }
    }
  }

  /** Finds the scan of a table and marks it as taken in. */
  method PopScan(tab: string, scans: seq<Plan>, flags: seq<int>, names: seq<string>) returns (at: int, fs: seq<int>,
                 ns: seq<string>)
    requires |flags| == |scans| && forall i | 0 <= i < |scans| :: scans[i].Scan?
    ensures -1 <= at < |scans|
    ensures if at == -1 then (forall i | 0 <= i < |scans| :: scans[i].tab != tab) && fs == flags && ns == names
            else scans[at].tab == tab && fs == flags[at := 1] && ns == names + [tab]
  {
    at := 0;
    while at < |scans|
      invariant 0 <= at <= |scans| && forall i | 0 <= i < at :: scans[i].tab != tab
    {
      if scans[at].tab == tab {
        return at, flags[at := 1], names + [tab];
      }
      at := at + 1;
    }
    return -1, flags, names;
  }

  /** A tree over new tables joined in front of the tree so far. */
  lemma JoinedFront(tables: seq<string>, scans: seq<Plan>, flags: seq<int>, names: seq<string>, p: Plan, x: Plan,
                    fs: seq<int>, ns: seq<string>, cs: seq<Condition>)
    requires Joined(tables, scans, flags, names, p) && TreeOk(x) && FromScans(x, scans)
    requires TabSet(x) !! TabSet(p) && |fs| == |flags|
    requires forall t | t in TabSet(x) :: t in tables
    requires forall i | 0 <= i < |tables| :: fs[i] == if tables[i] in TabSet(x) then 1 else flags[i]
    requires forall t | t in tables :: t in ns <==> t in names || t in TabSet(x)
    requires Sided(cs, TabSet(x), TabSet(p))
    ensures Joined(tables, scans, fs, ns, Join(x, p, cs))
  {
  }

  /** One table joined in front. */
  lemma JoinedOne(tables: seq<string>, scans: seq<Plan>, flags: seq<int>, names: seq<string>, p: Plan, i: nat,
    d: Condition)
    requires Joined(tables, scans, flags, names, p) && NoDup(tables) && i < |tables| && tables[i] !in TabSet(p)
    requires !d.isVal && d.lhs.tab == tables[i] && d.rhs.tab in TabSet(p)
    ensures flags[i] == -1
    ensures Joined(tables, scans, flags[i := 1], names + [tables[i]], Join(scans[i], p, [d]))
    ensures forall e :: TreeHolds(Join(scans[i], p, [d]), e) && WaitingHold(scans, flags[i := 1], e)
                        <==> TreeHolds(p, e) && WaitingHold(scans, flags, e) && Holds(d, e)
  {
    JoinedFront(tables, scans, flags, names, p, scans[i], flags[i := 1], names + [tables[i]], [d]);
    forall e ensures TreeHolds(Join(scans[i], p, [d]), e) && WaitingHold(scans, flags[i := 1], e)
                     <==> TreeHolds(p, e) && WaitingHold(scans, flags, e) && Holds(d, e)
    {
      WaitingLess(scans, flags, i, e);
      assert HoldsAll([d], e) <==> Holds([d][0], e);
    }
  }

  /** Two tables joined with each other and then in front. */
  lemma JoinedTwo(tables: seq<string>, scans: seq<Plan>, flags: seq<int>, names: seq<string>, p: Plan, i: nat, j: nat,
                  c: Condition)
    requires Joined(tables, scans, flags, names, p) && NoDup(tables) && i < |tables| && j < |tables| && i != j
    requires tables[i] !in TabSet(p) && tables[j] !in TabSet(p)
    requires !c.isVal && c.lhs.tab == tables[i] && c.rhs.tab == tables[j]
    ensures var q := Join(Join(scans[i], scans[j], [c]), p, []); var fs := flags[i := 1][j := 1];
            && Joined(tables, scans, fs, names + [tables[i]] + [tables[j]], q)
            && forall e :: TreeHolds(q, e) && WaitingHold(scans, fs, e)
                           <==> TreeHolds(p, e) && WaitingHold(scans, flags, e) && Holds(c, e)
  {
    var x := Join(scans[i], scans[j], [c]);
    var q := Join(x, p, []);
    assert ScanOf(scans[i], tables[i]) && ScanOf(scans[j], tables[j]) && tables[i] != tables[j];
    assert TabSet(scans[i]) == {tables[i]} && TabSet(scans[j]) == {tables[j]};
    assert Sided(x.conds, TabSet(x.left), TabSet(x.right));
    assert TreeOk(x.left) && TreeOk(x.right) && TabSet(x.left) !! TabSet(x.right);
    JoinedFront(tables, scans, flags, names, p, x, flags[i := 1][j := 1], names + [tables[i]] + [tables[j]], []);
    forall e ensures TreeHolds(q, e) && WaitingHold(scans, flags[i := 1][j := 1], e)
                     <==> TreeHolds(p, e) && WaitingHold(scans, flags, e) && Holds(c, e)
    {
      WaitingLess(scans, flags, i, e);
      WaitingLess(scans, flags[i := 1], j, e);
      assert HoldsAll([c], e) <==> Holds([c][0], e);
    }
  }

  /** Takes in one more join condition, with the tables it names that are not in the tree yet. */
  method JoinNext(ghost tables: seq<string>, scans: seq<Plan>, flags: seq<int>, names: seq<string>, p: Plan,
    c: Condition)
    returns (fs: seq<int>, ns: seq<string>, q: Plan)
    requires Joined(tables, scans, flags, names, p) && NoDup(tables) && Crosses(c) && c.lhs.tab in tables
      && c.rhs.tab in tables
    ensures Joined(tables, scans, fs, ns, q)
    ensures forall e :: TreeHolds(q, e) && WaitingHold(scans, fs, e)
                        <==> TreeHolds(p, e) && WaitingHold(scans, flags, e) && Holds(c, e)
  {
    var left, right, reverse := -1, -1, false;
    fs, ns := flags, names;
    if c.lhs.tab !in ns {
      left, fs, ns := PopScan(c.lhs.tab, scans, fs, ns);
      ScanFound(tables, scans, c.lhs.tab);
    }
    if c.rhs.tab !in ns {
      right, fs, ns := PopScan(c.rhs.tab, scans, fs, ns);
      ScanFound(tables, scans, c.rhs.tab);
      reverse := true;
    }
    if left != -1 && right != -1 {
      JoinedTwo(tables, scans, flags, names, p, left, right, c);
      q := Join(Join(scans[left], scans[right], [c]), p, []);
    } else if left != -1 || right != -1 {
      var d := c;
      if reverse {
        d := Flip(c);
        left := right;
      }
      JoinedOne(tables, scans, flags, names, p, left, d);
      forall e ensures Holds(d, e) <==> Holds(c, e) {
        FlipHolds(c, e);
      }
      q := Join(scans[left], p, [d]);
    } else {
      PushOk(c, p);
      q := PushConds(c, p).1;
      AttachedFrom(p, q, c, scans);
    }
  }

  lemma ScanFound(tables: seq<string>, scans: seq<Plan>, tab: string)
    requires |scans| == |tables| && (forall i | 0 <= i < |tables| :: ScanOf(scans[i], tables[i])) && tab in tables
    ensures exists i | 0 <= i < |scans| :: scans[i].Scan? && scans[i].tab == tab
  {
    var i :| 0 <= i < |tables| && tables[i] == tab;
    assert ScanOf(scans[i], tables[i]);
  }
}
