/** The rows of a join tree, counted: the cross product of its tables, filtered by every condition in the tree. */
module PlanMeaning {
  import opened Sequences
  import opened Plans

  function Tabs(p: Plan): seq<string>
  {
    match p
    case Scan(tab, _, _) => [tab]
    case Join(left, right, _) => Tabs(left) + Tabs(right)
  }

  ghost function TabSet(p: Plan): set<string>
  {
    match p
    case Scan(tab, _, _) => {tab}
    case Join(left, right, _) => TabSet(left) + TabSet(right)
  }

  lemma {:induction false} TabSetIs(p: Plan)
    ensures forall t :: t in TabSet(p) <==> t in Tabs(p)
  {
    if p.Join? {
      TabSetIs(p.left);
      TabSetIs(p.right);
    }
  }

  /** The condition speaks of these tables only. */
  ghost predicate Local(c: Condition, tabs: set<string>)
  {
    c.lhs.tab in tabs && (c.isVal || c.rhs.tab in tabs)
  }

  ghost predicate AllLocal(cs: seq<Condition>, tabs: set<string>)
  {
    forall i | 0 <= i < |cs| :: Local(cs[i], tabs)
  }

  /** Join conditions have their left column on the left side and their right column on the right side. */
  ghost predicate Sided(cs: seq<Condition>, left: set<string>, right: set<string>)
  {
    forall i | 0 <= i < |cs| :: !cs[i].isVal && cs[i].lhs.tab in left && cs[i].rhs.tab in right
  }

  /** Every join condition can be evaluated where it stands, and no table occurs twice. */
  ghost predicate TreeOk(p: Plan)
  {
    match p
    case Scan(_, _, _) => true
    case Join(left, right, conds) =>
      TreeOk(left) && TreeOk(right) && TabSet(left) !! TabSet(right) && Sided(conds, TabSet(left), TabSet(right))
  }

  /** Every scan has conditions on its own table only. */
  ghost predicate ScansOwn(p: Plan)
  {
    match p
    case Scan(tab, conds, _) => AllLocal(conds, {tab})
    case Join(left, right, _) => ScansOwn(left) && ScansOwn(right)
  }

  /** Every condition of the tree can be evaluated where it stands. */
  ghost predicate PlanOk(p: Plan)
  {
    TreeOk(p) && ScansOwn(p)
  }

  /** All conditions of the tree hold. */
  ghost predicate TreeHolds(p: Plan, e: Row)
  {
    match p
    case Scan(_, conds, _) => HoldsAll(conds, e)
    case Join(left, right, conds) => TreeHolds(left, e) && TreeHolds(right, e) && HoldsAll(conds, e)
  }

  // ---------------------------------------------------------------- the part of a row that a subtree sees

  lemma PartHolds(cs: seq<Condition>, e: Row, tabs: set<string>)
    requires AllLocal(cs, tabs)
    ensures HoldsAll(cs, Part(e, tabs)) <==> HoldsAll(cs, e)
  {
    forall i | 0 <= i < |cs| ensures Holds(cs[i], Part(e, tabs)) <==> Holds(cs[i], e) {
      assert Local(cs[i], tabs);
    }
  }

  lemma PartOfPart(e: Row, inner: set<string>, outer: set<string>)
    requires inner <= outer
    ensures Part(Part(e, outer), inner) == Part(e, inner)
  {
  }

  lemma {:induction false} PartTreeHolds(p: Plan, e: Row, tabs: set<string>)
    requires PlanOk(p) && TabSet(p) <= tabs
    ensures TreeHolds(p, Part(e, tabs)) <==> TreeHolds(p, e)
  {
    match p
    case Scan(tab, conds, _) =>
      PartHolds(conds, Part(e, tabs), {tab});
      PartHolds(conds, e, {tab});
      PartOfPart(e, {tab}, tabs);
    case Join(left, right, conds) =>
      PartTreeHolds(left, e, tabs);
      PartTreeHolds(right, e, tabs);
      PartHolds(conds, Part(e, tabs), TabSet(p));
      PartHolds(conds, e, TabSet(p));
      PartOfPart(e, TabSet(p), tabs);
  }

  // ---------------------------------------------------------------- products

  ghost function Occurs(db: Database, t: string, e: Row): nat
  {
    if t in e then multiset(RecordsOf(db, t))[e[t]] else 0
  }

  /** How often a row occurs in the cross product of the tables. */
  ghost function Product(db: Database, tabs: seq<string>, e: Row): nat
  {
    if tabs == [] then 1 else Product(db, tabs[..|tabs| - 1], e) * Occurs(db, tabs[|tabs| - 1], e)
  }

  lemma {:induction false} ProductConcat(db: Database, a: seq<string>, b: seq<string>, e: Row)
    ensures Product(db, a + b, e) == Product(db, a, e) * Product(db, b, e)
  {
    if b == [] {
      assert a + b == a;
    } else {
      var n := |b| - 1;
      assert (a + b)[..|a| + n] == a + b[..n];
      ProductConcat(db, a, b[..n], e);
      Assoc(Product(db, a, e), Product(db, b[..n], e), Occurs(db, b[n], e));
    }
  }

  lemma Assoc(x: nat, y: nat, z: nat)
    ensures (x * y) * z == x * (y * z)
  {
  }

  lemma {:induction false} ProductPart(db: Database, tabs: seq<string>, e: Row, s: set<string>)
    requires forall t | t in tabs :: t in s
    ensures Product(db, tabs, Part(e, s)) == Product(db, tabs, e)
  {
    if tabs != [] {
      ProductPart(db, tabs[..|tabs| - 1], e, s);
      assert tabs[|tabs| - 1] in tabs;
    }
  }

  lemma DropOne(a: seq<string>, l: seq<string>, x: string, r: seq<string>)
    requires multiset(a + [x]) == multiset(l + [x] + r)
    ensures multiset(a) == multiset(l + r)
  {
    assert multiset(a + [x]) == multiset(a) + multiset{x};
    assert multiset(l + [x] + r) == multiset(l) + multiset{x} + multiset(r);
    assert multiset(l + r) == multiset(l) + multiset(r);
    assert multiset(a) == multiset(a + [x]) - multiset{x};
  }

  /** The order of the tables does not matter. */
  lemma {:induction false} ProductPermutes(db: Database, a: seq<string>, b: seq<string>, e: Row)
    requires multiset(a) == multiset(b)
    ensures Product(db, a, e) == Product(db, b, e)
    decreases |a|
  {
    if a == [] {
      assert |b| == |multiset(b)| == 0;
    } else {
      var n := |a| - 1;
      var x := a[n];
      assert a == a[..n] + [x];
      assert x in multiset(b);
      var k :| 0 <= k < |b| && b[k] == x;
      var l, r := b[..k], b[k + 1..];
      assert b == l + [x] + r;
      DropOne(a[..n], l, x, r);
      ProductPermutes(db, a[..n], l + r, e);
      MoveOut(db, l, x, r, e);
    }
  }

  lemma MoveOut(db: Database, l: seq<string>, x: string, r: seq<string>, e: Row)
    ensures Product(db, l + [x] + r, e) == Product(db, l + r, e) * Occurs(db, x, e)
  {
    ProductConcat(db, l + [x], r, e);
    ProductConcat(db, l, r, e);
    assert (l + [x])[..|l|] == l;
    var p, q, o := Product(db, l, e), Product(db, r, e), Occurs(db, x, e);
    assert (p * o) * q == (p * q) * o by {
      Assoc(p, o, q);
      Assoc(p, q, o);
    }
  }

  // ---------------------------------------------------------------- the rows of a plan and of a query

  lemma {:induction false} RowsOver(db: Database, p: Plan)
    ensures Over(Rows(db, p), TabSet(p))
  {
    match p
    case Scan(tab, conds, _) =>
      TableOver(tab, RecordsOf(db, tab));
      FilterOver(TableRows(tab, RecordsOf(db, tab)), conds, {tab});
    case Join(left, right, conds) =>
      RowsOver(db, left);
      RowsOver(db, right);
      PairsOver(Rows(db, left), Rows(db, right), TabSet(left), TabSet(right));
      FilterOver(Pairs(Rows(db, left), Rows(db, right)), conds, TabSet(p));
  }

  /** A tree denotes the cross product of its tables filtered by all its conditions. */
  lemma {:induction false} TreeMeaning(db: Database, p: Plan, e: Row)
    requires PlanOk(p)
    ensures Times(Rows(db, p), e) == if e.Keys == TabSet(p) && TreeHolds(p, e) then Product(db, Tabs(p), e) else 0
    decreases p, 1
  {
    match p
    case Scan(tab, conds, _) =>
      TimesFilter(TableRows(tab, RecordsOf(db, tab)), conds, e);
      TimesTable(tab, RecordsOf(db, tab), e);
      assert Product(db, [tab], e) == Product(db, [], e) * Occurs(db, tab, e);
    case Join(left, right, conds) =>
      JoinMeaning(db, p, e);
  }

  lemma {:induction false} JoinMeaning(db: Database, p: Plan, e: Row)
    requires PlanOk(p) && p.Join?
    ensures Times(Rows(db, p), e) == if e.Keys == TabSet(p) && TreeHolds(p, e) then Product(db, Tabs(p), e) else 0
    decreases p, 0
  {
    var a, b := TabSet(p.left), TabSet(p.right);
    var x, y := Times(Rows(db, p.left), Part(e, a)), Times(Rows(db, p.right), Part(e, b));
    JoinTimes(db, p, e);
    if e.Keys == a + b {
      SideMeaning(db, p.left, e);
      SideMeaning(db, p.right, e);
      ProductConcat(db, Tabs(p.left), Tabs(p.right), e);
      BothSides(TreeHolds(p.left, e), TreeHolds(p.right, e), Product(db, Tabs(p.left), e),
        Product(db, Tabs(p.right), e), x, y);
    }
  }

  lemma JoinTimes(db: Database, p: Plan, e: Row)
    requires PlanOk(p) && p.Join?
    ensures Times(Rows(db, p), e)
            == if e.Keys == TabSet(p.left) + TabSet(p.right) && HoldsAll(p.conds, e)
               then Times(Rows(db, p.left), Part(e, TabSet(p.left)))
                     * Times(Rows(db, p.right), Part(e, TabSet(p.right)))
               else 0
  {
    var ls, rs := Rows(db, p.left), Rows(db, p.right);
    TimesFilter(Pairs(ls, rs), p.conds, e);
    RowsOver(db, p.left);
    RowsOver(db, p.right);
    TimesPairs(ls, rs, TabSet(p.left), TabSet(p.right), e);
  }

  lemma BothSides(l: bool, r: bool, a: nat, b: nat, x: nat, y: nat)
    requires x == (if l then a else 0) && y == (if r then b else 0)
    ensures x * y == if l && r then a * b else 0
  {
  }

  lemma {:induction false} SideMeaning(db: Database, p: Plan, e: Row)
    requires PlanOk(p) && TabSet(p) <= e.Keys
    ensures Times(Rows(db, p), Part(e, TabSet(p))) == if TreeHolds(p, e) then Product(db, Tabs(p), e) else 0
    decreases p, 2
  {
    var a := TabSet(p);
    assert Part(e, a).Keys == a;
    TreeMeaning(db, p, Part(e, a));
    PartTreeHolds(p, e, a);
    TabSetIs(p);
    ProductPart(db, Tabs(p), e, a);
  }

  ghost function Named(tables: seq<string>): set<string>
  {
    set t | t in tables
  }

  lemma {:induction false} CrossOver(db: Database, tables: seq<string>)
    ensures Over(CrossRows(db, tables), Named(tables))
  {
    if tables != [] {
      var n := |tables| - 1;
      var last := tables[n];
      CrossOver(db, tables[..n]);
      TableOver(last, RecordsOf(db, last));
      PairsOver(CrossRows(db, tables[..n]), TableRows(last, RecordsOf(db, last)), Named(tables[..n]), {last});
      LastTable(tables);
    }
  }

  lemma LastTable(tables: seq<string>)
    requires tables != []
    ensures Named(tables) == Named(tables[..|tables| - 1]) + {tables[|tables| - 1]}
    ensures NoDup(tables) ==> tables[|tables| - 1] !in tables[..|tables| - 1]
  {
    assert tables == tables[..|tables| - 1] + [tables[|tables| - 1]];
  }

  /** How often a row occurs in the cross product. */
  lemma {:induction false} CrossMeaning(db: Database, tables: seq<string>, e: Row)
    requires NoDup(tables)
    ensures Times(CrossRows(db, tables), e) == if e.Keys == Named(tables) then Product(db, tables, e) else 0
  {
    if tables == [] {
      assert e.Keys == {} ==> e == map[];
    } else {
      var n := |tables| - 1;
      var last := tables[n];
      var a := Named(tables[..n]);
      CrossOver(db, tables[..n]);
      TableOver(last, RecordsOf(db, last));
      LastTable(tables);
      TimesPairs(CrossRows(db, tables[..n]), TableRows(last, RecordsOf(db, last)), a, {last}, e);
      if e.Keys == a + {last} {
        assert Part(e, a).Keys == a && Part(e, {last}).Keys == {last};
        CrossMeaning(db, tables[..n], Part(e, a));
        ProductPart(db, tables[..n], e, a);
        TimesTable(last, RecordsOf(db, last), Part(e, {last}));
      }
    }
  }

  /**
    A tree over exactly the tables of the query, whose conditions say together what the query's conditions say,
    denotes the query.
   */
  lemma SameMeaning(db: Database, p: Plan, tables: seq<string>, cs: seq<Condition>)
    requires PlanOk(p) && NoDup(tables) && multiset(Tabs(p)) == multiset(tables)
    requires forall e :: TreeHolds(p, e) <==> HoldsAll(cs, e)
    ensures multiset(Rows(db, p)) == multiset(Asked(db, tables, cs))
  {
    TabSetIs(p);
    assert TabSet(p) == Named(tables) by {
      forall t ensures t in Tabs(p) <==> t in tables {
        assert t in Tabs(p) <==> t in multiset(Tabs(p));
        assert t in tables <==> t in multiset(tables);
      }
    }
    forall e ensures Times(Rows(db, p), e) == Times(Asked(db, tables, cs), e) {
      TreeMeaning(db, p, e);
      TimesFilter(CrossRows(db, tables), cs, e);
      CrossMeaning(db, tables, e);
      ProductPermutes(db, Tabs(p), tables, e);
    }
    SameRows(Rows(db, p), Asked(db, tables, cs));
  }
}
