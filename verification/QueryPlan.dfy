/** The plan of a whole query, against the cross product of its tables filtered by its conditions. */
module QueryPlan {
  import opened Sequences
  import opened Plans
  import opened PlanMeaning
  import opened JoinPlanner

  // ---------------------------------------------------------------- the first join condition

  /** Where the first join condition is, or the number of conditions. */
  function FirstCross(cs: seq<Condition>): (k: nat)
    ensures k <= |cs| && (forall i | 0 <= i < k :: !Crosses(cs[i])) && (k < |cs| ==> Crosses(cs[k]))
  {
    if cs == [] then 0
    else
      var k := FirstCross(cs[..|cs| - 1]);
      if k < |cs| - 1 then k else if Crosses(cs[|cs| - 1]) then |cs| - 1 else |cs|
  }

  /** The first join condition leads from the second table of the query back to the first one. */
  predicate Backwards(tables: seq<string>, c: Condition)
  {
    |tables| > 1 && c.lhs.tab == tables[1] && c.rhs.tab == tables[0]
  }

  /** As the first join condition is planned: if it leads backwards its sides are exchanged and its operator is not. */
  function FirstAs(tables: seq<string>, c: Condition): Condition
  {
    if Backwards(tables, c) then SwapSides(c) else c
  }

  /** The conditions as they are planned. */
  function Planned(tables: seq<string>, cs: seq<Condition>): seq<Condition>
  {
    var k := FirstCross(cs);
    if k < |cs| then cs[k := FirstAs(tables, cs[k])] else cs
  }

  /**
    The planned conditions are those of the query, except that a first join condition from the second table to the
    first one has its two columns exchanged, and nothing else.
   */
  lemma PlannedIs(tables: seq<string>, cs: seq<Condition>, i: nat)
    requires i < |cs|
    ensures |Planned(tables, cs)| == |cs|
    ensures var c, d := cs[i], Planned(tables, cs)[i];
            if i == FirstCross(cs) && |tables| > 1 && c.lhs.tab == tables[1] && c.rhs.tab == tables[0]
            then d.lhs == c.rhs && d.rhs == c.lhs && d.op == c.op && d.isVal == c.isVal && d.val == c.val
            else d == c
  {
  }

  /** The query whose plan means something else: the first join condition leads backwards and is not symmetric. */
  predicate Misread(tables: seq<string>, cs: seq<Condition>)
  {
    var k := FirstCross(cs);
    k < |cs| && Backwards(tables, cs[k]) && cs[k].op != EQ && cs[k].op != NE
  }

  lemma {:induction false} CrossingFirst(cs: seq<Condition>, d: Condition)
    requires Crosses(d)
    ensures var k := FirstCross(cs);
            && (Crossing(cs) == [] <==> k == |cs|)
            && (k < |cs| ==> Crossing(cs)[0] == cs[k] && Crossing(cs[k := d]) == [d] + Crossing(cs)[1..])
  {
    if cs != [] {
      var n, k := |cs| - 1, FirstCross(cs);
      CrossingFirst(cs[..n], d);
      assert k < n ==> k == FirstCross(cs[..n]) && cs[k := d][..n] == cs[..n][k := d];
      if k == n {
        assert cs[k := d][..n] == cs[..n];
      }
    }
  }

  lemma {:induction false} CrossingNone(cs: seq<Condition>, t: string)
    requires forall c | c in cs :: c.lhs.tab == t && (c.isVal || c.rhs.tab == t)
    ensures Crossing(cs) == []
  {
    if cs != [] {
      var n := |cs| - 1;
      assert cs == cs[..n] + [cs[n]] && cs[n] in cs;
      CrossingNone(cs[..n], t);
    }
  }

  /** The plan asks for the conditions as planned. */
  lemma PlannedHolds(tables: seq<string>, cs: seq<Condition>, e: Row)
    ensures Crossing(cs) == [] ==> Planned(tables, cs) == cs && (HoldsAll(cs, e) <==> LocalHold(cs, e))
    ensures Crossing(cs) != [] ==>
      (HoldsAll(Planned(tables, cs), e) <==>
         LocalHold(cs, e) && Holds(FirstAs(tables, Crossing(cs)[0]), e) && HoldsAll(Crossing(cs)[1..], e))
  {
    var k := FirstCross(cs);
    LocalAndCrossing(cs, e);
    if k < |cs| {
      var d := FirstAs(tables, cs[k]);
      CrossingFirst(cs, d);
      LocalAndCrossing(cs[k := d], e);
      HoldsAllConcat([d], Crossing(cs)[1..], e);
      assert HoldsAll([d], e) <==> Holds([d][0], e);
      assert LocalHold(cs[k := d], e) <==> LocalHold(cs, e) by {
        SameLocal(cs, k, d, e);
      }
    } else {
      CrossingFirst(cs, Condition(TabCol("a", ""), EQ, false, TabCol("b", ""), 0));
    }
  }

  lemma SameLocal(cs: seq<Condition>, k: nat, d: Condition, e: Row)
    requires k < |cs| && Crosses(cs[k]) && Crosses(d)
    ensures LocalHold(cs[k := d], e) <==> LocalHold(cs, e)
  {
    if LocalHold(cs[k := d], e) {
      forall i | 0 <= i < |cs| && !Crosses(cs[i]) ensures Holds(cs[i], e) {
        assert cs[k := d][i] == cs[i];
      }
    }
  }

  // ---------------------------------------------------------------- the join tree

  lemma AllWaiting(scans: seq<Plan>, flags: seq<int>, e: Row)
    requires |flags| == |scans| && forall i | 0 <= i < |flags| :: flags[i] == -1
    ensures WaitingHold(scans, flags, e) <==> ScansHold(scans, e)
  {
  }

  /** The join of the first join condition. */
  lemma FirstJoined(tables: seq<string>, scans: seq<Plan>, flags: seq<int>, names: seq<string>, i: nat, j: nat,
    d: Condition)
    requires NoDup(tables) && |scans| == |flags| == |tables|
      && (forall k | 0 <= k < |tables| :: ScanOf(scans[k], tables[k]) && flags[k] == -1)
    requires i < |tables| && j < |tables| && i != j && (forall t | t in tables :: t !in names)
    requires !d.isVal && d.lhs.tab == tables[i] && d.rhs.tab == tables[j]
    ensures var p := Join(scans[i], scans[j], [d]);
            && Joined(tables, scans, flags[i := 1][j := 1], names + [tables[i]] + [tables[j]], p)
            && Joined(tables, scans, flags[i := 1][j := 1], names + [tables[j]] + [tables[i]], p)
            && forall e ::
              TreeHolds(p, e) && WaitingHold(scans, flags[i := 1][j := 1], e) <==> ScansHold(scans, e) && Holds(d, e)
  {
    var p := Join(scans[i], scans[j], [d]);
    assert ScanOf(scans[i], tables[i]) && ScanOf(scans[j], tables[j]);
    assert tables[i] != tables[j];
    assert TabSet(p.left) == {tables[i]} && TabSet(p.right) == {tables[j]};
    assert Sided(p.conds, TabSet(p.left), TabSet(p.right));
    assert TreeOk(p.left) && TreeOk(p.right) && FromScans(p.left, scans) && FromScans(p.right, scans);
    forall e ensures TreeHolds(p, e) && WaitingHold(scans, flags[i := 1][j := 1], e)
      <==> ScansHold(scans, e) && Holds(d, e) {
      AllWaiting(scans, flags, e);
      WaitingLess(scans, flags, i, e);
      WaitingLess(scans, flags[i := 1], j, e);
      assert HoldsAll([d], e) <==> Holds([d][0], e);
    }
  }

  method JoinFirst(ghost tables: seq<string>, scans: seq<Plan>, flags: seq<int>, names: seq<string>, c: Condition)
    returns (fs: seq<int>, ns: seq<string>, p: Plan)
    requires NoDup(tables) && |scans| == |flags| == |tables|
      && (forall k | 0 <= k < |tables| :: ScanOf(scans[k], tables[k]) && flags[k] == -1)
    requires (forall t | t in tables :: t !in names) && Crosses(c) && c.lhs.tab in tables && c.rhs.tab in tables
    ensures Joined(tables, scans, fs, ns, p)
    ensures forall e ::
      TreeHolds(p, e) && WaitingHold(scans, fs, e) <==> ScansHold(scans, e) && Holds(FirstAs(tables, c), e)
  {
    var left, right;
    ScanFound(tables, scans, c.lhs.tab);
    ScanFound(tables, scans, c.rhs.tab);
    left, fs, ns := PopScan(c.lhs.tab, scans, flags, names);
    right, fs, ns := PopScan(c.rhs.tab, scans, fs, ns);
    var d := c;
    assert flags[left := 1][right := 1] == flags[right := 1][left := 1];
    if left == 1 && right == 0 {
      left, right := right, left;
      d := SwapSides(c);
    }
    FirstJoined(tables, scans, flags, names, left, right, d);
    p := Join(scans[left], scans[right], [d]);
  }

  /** The tables that no condition has brought in are joined in front, in FROM order. */
  method JoinOthers(ghost tables: seq<string>, scans: seq<Plan>, flags: seq<int>, ghost names: seq<string>,
                    p: Plan) returns (q: Plan)
    requires Joined(tables, scans, flags, names, p) && NoDup(tables)
    ensures TreeOk(q) && FromScans(q, scans) && (forall t :: t in TabSet(q) <==> t in tables)
    ensures forall e :: TreeHolds(q, e) <==> TreeHolds(p, e) && WaitingHold(scans, flags, e)
  {
    q := p;
    ghost var fs, ns := flags, names;
    var i := 0;
    while i < |scans|
      invariant 0 <= i <= |scans| && Joined(tables, scans, fs, ns, q)
      invariant forall k | 0 <= k < |scans| :: fs[k] == if k < i then 1 else flags[k]
      invariant forall e ::
        TreeHolds(q, e) && WaitingHold(scans, fs, e) <==> TreeHolds(p, e) && WaitingHold(scans, flags, e)
    {
      if flags[i] == -1 {
        JoinedFront(tables, scans, fs, ns, q, scans[i], fs[i := 1], ns + [tables[i]], []);
        forall e ensures TreeHolds(Join(scans[i], q, []), e) && WaitingHold(scans, fs[i := 1], e)
                         <==> TreeHolds(q, e) && WaitingHold(scans, fs, e)
        {
          WaitingLess(scans, fs, i, e);
        }
        q := Join(scans[i], q, []);
        fs, ns := fs[i := 1], ns + [tables[i]];
      }
      i := i + 1;
    }
  }

  lemma {:induction false} TabsNoDup(p: Plan)
    requires TreeOk(p)
    ensures NoDup(Tabs(p))
  {
    if p.Join? {
      TabsNoDup(p.left);
      TabsNoDup(p.right);
      TabSetIs(p.left);
      TabSetIs(p.right);
      var a, b := Tabs(p.left), Tabs(p.right);
      forall i, j | 0 <= i < j < |a + b| ensures (a + b)[i] != (a + b)[j] {
        if i < |a| <= j {
          assert a[i] in a && b[j - |a|] in b;
        }
      }
    }
  }

  /** Without repetitions a sequence is determined by its elements, up to order. */
  lemma SameElements(a: seq<string>, b: seq<string>)
    requires NoDup(a) && NoDup(b) && forall t :: t in a <==> t in b
    ensures multiset(a) == multiset(b)
  {
    forall t ensures multiset(a)[t] == multiset(b)[t] {
      CountNoDup(a, t);
      CountNoDup(b, t);
    }
  }

  lemma {:induction false} CountNoDup(a: seq<string>, t: string)
    requires NoDup(a)
    ensures multiset(a)[t] == if t in a then 1 else 0
  {
    if a != [] {
      CountNoDup(a[1..], t);
      assert a == [a[0]] + a[1..];
    }
  }

  /** Joins the tables of the first join condition and then, one condition after the other, those of the others. */
  method JoinAlong(ghost tables: seq<string>, scans: seq<Plan>, flags: seq<int>, names: seq<string>,
                   conds: seq<Condition>)
    returns (fs: seq<int>, ns: seq<string>, p: Plan)
    requires NoDup(tables) && |scans| == |flags| == |tables|
      && (forall k | 0 <= k < |tables| :: ScanOf(scans[k], tables[k]) && flags[k] == -1)
    requires conds != [] && (forall t | t in tables :: t !in names)
    requires forall c | c in conds :: Crosses(c) && c.lhs.tab in tables && c.rhs.tab in tables
    ensures Joined(tables, scans, fs, ns, p)
    ensures forall e ::
      TreeHolds(p, e) && WaitingHold(scans, fs, e) <==>
        ScansHold(scans, e) && Holds(FirstAs(tables, conds[0]), e) && HoldsAll(conds[1..], e)
  {
    fs, ns, p := JoinFirst(tables, scans, flags, names, conds[0]);
    var it := 1;
    while it < |conds|
      invariant 1 <= it <= |conds| && Joined(tables, scans, fs, ns, p)
      invariant forall e ::
        TreeHolds(p, e) && WaitingHold(scans, fs, e) <==>
          ScansHold(scans, e) && Holds(FirstAs(tables, conds[0]), e) && HoldsAll(conds[1..it], e)
    {
      fs, ns, p := JoinNext(tables, scans, fs, ns, p, conds[it]);
      assert conds[1..it + 1] == conds[1..it] + [conds[it]];
      forall e ensures HoldsAll(conds[1..it + 1], e) <==> HoldsAll(conds[1..it], e) && Holds(conds[it], e) {
        HoldsSnoc(conds[1..it], conds[it], e);
      }
      it := it + 1;
    }
    assert conds[1..it] == conds[1..];
  }

  /** Builds the join tree along the join conditions. */
  method JoinAll(tables: seq<string>, scans: seq<Plan>, conds: seq<Condition>) returns (plan: Plan)
    requires tables != [] && NoDup(tables) && "" !in tables
    requires |scans| == |tables| && forall i | 0 <= i < |tables| :: ScanOf(scans[i], tables[i])
    requires forall c | c in conds :: Crosses(c) && c.lhs.tab in tables && c.rhs.tab in tables
    ensures TreeOk(plan) && FromScans(plan, scans) && forall t :: t in TabSet(plan) <==> t in tables
    ensures forall e ::
      TreeHolds(plan, e) <==>
        ScansHold(scans, e) && (conds == [] || (Holds(FirstAs(tables, conds[0]), e) && HoldsAll(conds[1..], e)))
  {
    var flags := seq(|tables|, _ => -1);
    var names := seq(|tables|, _ => "");
    var p;
    if conds != [] {
      flags, names, p := JoinAlong(tables, scans, flags, names, conds);
    } else {
      forall e ensures TreeHolds(scans[0], e) && WaitingHold(scans, flags[0 := 1], e) <==> ScansHold(scans, e) {
        AllWaiting(scans, flags, e);
        WaitingLess(scans, flags, 0, e);
      }
      p := scans[0];
      flags := flags[0 := 1];
      names := [tables[0]];
    }
    plan := JoinOthers(tables, scans, flags, names, p);
  }

  lemma ReadRight(tables: seq<string>, conds: seq<Condition>, e: Row)
    requires !Misread(tables, conds)
    ensures HoldsAll(Planned(tables, conds), e) <==> HoldsAll(conds, e)
  {
    var k := FirstCross(conds);
    if k < |conds| && Backwards(tables, conds[k]) {
      SwapHolds(conds[k]);
      var d := SwapSides(conds[k]);
      assert Holds(d, e) <==> Holds(conds[k], e);
      SameUpdate(conds, k, d, e);
    } else {
      assert Planned(tables, conds) == conds;
    }
  }

  lemma SameUpdate(cs: seq<Condition>, k: nat, d: Condition, e: Row)
    requires k < |cs| && (Holds(d, e) <==> Holds(cs[k], e))
    ensures HoldsAll(cs[k := d], e) <==> HoldsAll(cs, e)
  {
    if HoldsAll(cs[k := d], e) {
      forall i | 0 <= i < |cs| ensures Holds(cs[i], e) {
        assert Holds(cs[k := d][i], e);
      }
    }
  }

  // ---------------------------------------------------------------- the queries that are misread

  /** All conditions but the first join condition hold. */
  ghost predicate OthersHold(cs: seq<Condition>, e: Row)
  {
    forall i | 0 <= i < |cs| && i != FirstCross(cs) :: Holds(cs[i], e)
  }

  /** Rows that meet all other conditions have the same value in both columns of the first join condition. */
  ghost predicate ColumnsAgree(tables: seq<string>, cs: seq<Condition>)
  {
    var k := FirstCross(cs);
    k < |cs| ==> forall e: Row | e.Keys == Named(tables) && OthersHold(cs, e) ::
                   ValueOf(e, cs[k].lhs) == ValueOf(e, cs[k].rhs)
  }

  /** What one condition changes among others. */
  lemma OneOfMany(cs: seq<Condition>, d: Condition, e: Row)
    requires FirstCross(cs) < |cs|
    ensures HoldsAll(cs[FirstCross(cs) := d], e) <==> OthersHold(cs, e) && Holds(d, e)
  {
    var k := FirstCross(cs);
    var ds := cs[k := d];
    if HoldsAll(ds, e) {
      assert Holds(ds[k], e);
      forall i | 0 <= i < |cs| && i != k ensures Holds(cs[i], e) {
        assert Holds(ds[i], e);
      }
    }
  }

  /** A misread condition and its planned form agree in a row exactly when its two columns have the same value. */
  lemma MisreadRow(tables: seq<string>, cs: seq<Condition>, e: Row)
    requires Misread(tables, cs)
    ensures var k := FirstCross(cs);
            (HoldsAll(Planned(tables, cs), e) <==> HoldsAll(cs, e))
            <==> (OthersHold(cs, e) ==> ValueOf(e, cs[k].lhs) == ValueOf(e, cs[k].rhs))
  {
    var k := FirstCross(cs);
    OneOfMany(cs, SwapSides(cs[k]), e);
    OneOfMany(cs, cs[k], e);
    assert cs[k := cs[k]] == cs;
  }

  /** The database with just the records of one row. */
  ghost function OnlyRow(e: Row): Database
  {
    map t | t in e :: [e[t]]
  }

  lemma {:induction false} OnlyRowProduct(tables: seq<string>, e: Row)
    requires forall t | t in tables :: t in e
    ensures Product(OnlyRow(e), tables, e) == 1
  {
    if tables != [] {
      var n := |tables| - 1;
      assert tables[n] in tables;
      OnlyRowProduct(tables[..n], e);
      assert Occurs(OnlyRow(e), tables[n], e) == 1;
    }
  }

  /** In that database the row is in the answer exactly when the conditions hold in it. */
  lemma OnlyRowAsked(tables: seq<string>, cs: seq<Condition>, e: Row)
    requires NoDup(tables) && e.Keys == Named(tables)
    ensures Times(Asked(OnlyRow(e), tables, cs), e) == if HoldsAll(cs, e) then 1 else 0
  {
    var db := OnlyRow(e);
    TimesFilter(CrossRows(db, tables), cs, e);
    CrossMeaning(db, tables, e);
    OnlyRowProduct(tables, e);
  }

  /** Conditions that say the same about every row of the tables ask for the same rows. */
  lemma SameAsked(db: Database, tables: seq<string>, cs: seq<Condition>, ds: seq<Condition>)
    requires NoDup(tables) && forall e: Row | e.Keys == Named(tables) :: HoldsAll(cs, e) <==> HoldsAll(ds, e)
    ensures multiset(Asked(db, tables, cs)) == multiset(Asked(db, tables, ds))
  {
    forall e ensures Times(Asked(db, tables, cs), e) == Times(Asked(db, tables, ds), e) {
      TimesFilter(CrossRows(db, tables), cs, e);
      TimesFilter(CrossRows(db, tables), ds, e);
      CrossMeaning(db, tables, e);
    }
    SameRows(Asked(db, tables, cs), Asked(db, tables, ds));
  }

  /** The plan's answer differs from the query's in the database with just the records of such a row. */
  lemma MisreadShows(tables: seq<string>, cs: seq<Condition>, e: Row)
    requires NoDup(tables) && Misread(tables, cs) && e.Keys == Named(tables) && OthersHold(cs, e)
    requires ValueOf(e, cs[FirstCross(cs)].lhs) != ValueOf(e, cs[FirstCross(cs)].rhs)
    ensures multiset(Asked(OnlyRow(e), tables, Planned(tables, cs))) != multiset(Asked(OnlyRow(e), tables, cs))
  {
    var db, ds := OnlyRow(e), Planned(tables, cs);
    MisreadRow(tables, cs, e);
    OnlyRowAsked(tables, cs, e);
    OnlyRowAsked(tables, ds, e);
    TimesIs(Asked(db, tables, cs), e);
    TimesIs(Asked(db, tables, ds), e);
  }

  /**
    For every query: its conditions as planned ask for the same on every database if and only if its first join
    condition is not misread, or the other conditions already make the two columns of that condition agree.
   */
  lemma PlannedMeansAsked(tables: seq<string>, cs: seq<Condition>)
    requires NoDup(tables)
    ensures (forall db: Database :: multiset(Asked(db, tables, Planned(tables, cs))) == multiset(Asked(db, tables, cs)))
            <==> !Misread(tables, cs) || ColumnsAgree(tables, cs)
  {
    if !Misread(tables, cs) || ColumnsAgree(tables, cs) {
      forall e: Row | e.Keys == Named(tables) ensures HoldsAll(Planned(tables, cs), e) <==> HoldsAll(cs, e) {
        if Misread(tables, cs) {
          MisreadRow(tables, cs, e);
        } else {
          ReadRight(tables, cs, e);
        }
      }
      forall db: Database
        ensures multiset(Asked(db, tables, Planned(tables, cs))) == multiset(Asked(db, tables, cs))
      {
        SameAsked(db, tables, Planned(tables, cs), cs);
      }
    } else {
      var k := FirstCross(cs);
      var e: Row :| e.Keys == Named(tables) && OthersHold(cs, e) && ValueOf(e, cs[k].lhs) != ValueOf(e, cs[k].rhs);
      MisreadShows(tables, cs, e);
    }
  }

  /**
    SELECT from a and b where b.x < a.x, with 0 in a and 1 in b: nothing is asked for, and the planned condition finds
    a row.
   */
  lemma MisreadExample()
    ensures var c := Condition(TabCol("b", "x"), LT, false, TabCol("a", "x"), 0);
            var e: Row := map["a" := map["x" := 0], "b" := map["x" := 1]];
            && Misread(["a", "b"], [c])
            && Times(Asked(OnlyRow(e), ["a", "b"], [c]), e) == 0
            && Times(Asked(OnlyRow(e), ["a", "b"], Planned(["a", "b"], [c])), e) == 1
  {
    var c := Condition(TabCol("b", "x"), LT, false, TabCol("a", "x"), 0);
    var e: Row := map["a" := map["x" := 0], "b" := map["x" := 1]];
    var d := SwapSides(c);
    assert FirstCross([c]) == 0;
    assert Planned(["a", "b"], [c]) == [d];
    assert e.Keys == Named(["a", "b"]);
    OnlyRowAsked(["a", "b"], [c], e);
    OnlyRowAsked(["a", "b"], [d], e);
    assert !Holds([c][0], e) && Holds([d][0], e);
  }

  // ---------------------------------------------------------------- the whole plan

  lemma {:induction false} OwnLeaves(p: Plan, scans: seq<Plan>)
    requires FromScans(p, scans) && forall i | 0 <= i < |scans| :: ScansOwn(scans[i])
    ensures ScansOwn(p)
  {
    if p.Join? {
      OwnLeaves(p.left, scans);
      OwnLeaves(p.right, scans);
    }
  }

  /** The scan of a table that the tree has is the one of the list. */
  lemma {:induction false} LeafOf(tables: seq<string>, scans: seq<Plan>, p: Plan, i: nat)
    requires NoDup(tables) && |scans| == |tables| && (forall k | 0 <= k < |tables| :: ScanOf(scans[k], tables[k]))
    requires FromScans(p, scans) && i < |tables| && tables[i] in TabSet(p) && ScansOwn(p)
    ensures ScansOwn(scans[i])
  {
    if p.Scan? {
      var k :| 0 <= k < |scans| && scans[k] == p;
      assert ScanOf(scans[k], tables[k]);
    } else if tables[i] in TabSet(p.left) {
      LeafOf(tables, scans, p.left, i);
    } else {
      LeafOf(tables, scans, p.right, i);
    }
  }

  lemma AllScansOwn(tables: seq<string>, scans: seq<Plan>, p: Plan)
    requires NoDup(tables) && |scans| == |tables| && (forall k | 0 <= k < |tables| :: ScanOf(scans[k], tables[k]))
    requires FromScans(p, scans) && forall t | t in tables :: t in TabSet(p)
    ensures ScansOwn(p) <==> forall i | 0 <= i < |scans| :: ScansOwn(scans[i])
  {
    if ScansOwn(p) {
      forall i | 0 <= i < |scans| ensures ScansOwn(scans[i]) {
        LeafOf(tables, scans, p, i);
      }
    } else if forall i | 0 <= i < |scans| :: ScansOwn(scans[i]) {
      OwnLeaves(p, scans);
    }
  }

  /**
    The conditions of the plan can be evaluated where they stand if and only if comparisons within one table are within
    the first one. Then the plan denotes the cross product of the tables filtered by the conditions as planned, and the
    query itself, on every database, if and only if the first join condition is not misread or the other conditions
    already make its two columns agree.
   */
  method MakeOneRel(tables: seq<string>, conds: seq<Condition>, indexes: Indexes) returns (plan: Plan)
    requires QueryOk(tables, conds) && IndexesOk(indexes)
    ensures TreeOk(plan) && multiset(Tabs(plan)) == multiset(tables)
    ensures PlanOk(plan) <==> WithinFirst(tables, conds)
    ensures forall e :: TreeHolds(plan, e) <==> HoldsAll(Planned(tables, conds), e)
    ensures PlanOk(plan) ==> forall db: Database ::
              multiset(Rows(db, plan)) == multiset(Asked(db, tables, Planned(tables, conds)))
    ensures PlanOk(plan) ==> ((forall db: Database :: multiset(Rows(db, plan)) == multiset(Asked(db, tables, conds)))
                              <==> !Misread(tables, conds) || ColumnsAgree(tables, conds))
  {
    var scans, rest := MakeScans(tables, conds, indexes);
    if |tables| == 1 {
      plan := scans[0];
      CrossingNone(conds, tables[0]);
    } else {
      plan := JoinAll(tables, scans, rest);
    }
    forall e ensures TreeHolds(plan, e) <==> HoldsAll(Planned(tables, conds), e) {
      PlannedHolds(tables, conds, e);
    }
    TabSetIs(plan);
    TabsNoDup(plan);
    SameElements(Tabs(plan), tables);
    AllScansOwn(tables, scans, plan);
    if PlanOk(plan) {
      forall db: Database ensures multiset(Rows(db, plan)) == multiset(Asked(db, tables, Planned(tables, conds))) {
        SameMeaning(db, plan, tables, Planned(tables, conds));
      }
      PlannedMeansAsked(tables, conds);
    }
  }
}
