/**
  The planner's rewrites: conditions popped out to the scans, the join tree built from the join conditions, and
  conditions pushed down to the join that first brings their two tables together.
 */
module Planner {
  import opened Plans
  import opened PlanMeaning

  // ---------------------------------------------------------------- popping conditions

  /** The scan of `tab` takes the condition. The second half does not ask which table the two columns belong to. */
  predicate Popped(c: Condition, tab: string)
  {
    (c.lhs.tab == tab && c.isVal) || c.lhs.tab == c.rhs.tab
  }

  function Kept(cs: seq<Condition>, tab: string, popped: bool): seq<Condition>
  {
    if cs == [] then []
    else Kept(cs[..|cs| - 1], tab, popped) + if Popped(cs[|cs| - 1], tab) == popped then [cs[|cs| - 1]] else []
  }

  lemma KeptNext(cs: seq<Condition>, tab: string, n: nat)
    requires n < |cs|
    ensures Kept(cs[..n + 1], tab, true) == Kept(cs[..n], tab, true) + if Popped(cs[n], tab) then [cs[n]] else []
    ensures Kept(cs[..n + 1], tab, false) == Kept(cs[..n], tab, false) + if Popped(cs[n], tab) then [] else [cs[n]]
  {
    assert cs[..n + 1][..n] == cs[..n];
  }

  /** The condition at the place of the iterator, and what is left when it is erased or passed. */
  lemma EraseAt(a: seq<Condition>, cs: seq<Condition>, n: nat)
    requires n < |cs|
    ensures var rest := a + cs[n..];
            && rest[|a|] == cs[n] && rest[..|a|] + rest[|a| + 1..] == a + cs[n + 1..]
            && (a + [cs[n]]) + cs[n + 1..] == rest
  {
  }

  lemma {:induction false} KeptHolds(cs: seq<Condition>, tab: string, e: Row)
    ensures HoldsAll(cs, e) <==> HoldsAll(Kept(cs, tab, true), e) && HoldsAll(Kept(cs, tab, false), e)
  {
    if cs != [] {
      var n := |cs| - 1;
      var one := [cs[n]];
      KeptHolds(cs[..n], tab, e);
      assert cs == cs[..n] + one;
      HoldsAllConcat(cs[..n], one, e);
      HoldsAllConcat(Kept(cs[..n], tab, true), if Popped(cs[n], tab) then one else [], e);
      HoldsAllConcat(Kept(cs[..n], tab, false), if Popped(cs[n], tab) then [] else one, e);
    }
  }

  /** The conditions a scan takes: those of its table with a literal, and those between two columns of one table. */
  lemma {:induction false} KeptHas(cs: seq<Condition>, tab: string, popped: bool, c: Condition)
    ensures c in Kept(cs, tab, popped)
      <==> c in cs && ((c.lhs.tab == tab && c.isVal) || c.lhs.tab == c.rhs.tab) == popped
  {
    if cs != [] {
      KeptHas(cs[..|cs| - 1], tab, popped, c);
      assert cs == cs[..|cs| - 1] + [cs[|cs| - 1]];
    }
  }

  method PopConds(conds: seq<Condition>, tab: string) returns (solved: seq<Condition>, rest: seq<Condition>)
    ensures solved == Kept(conds, tab, true) && rest == Kept(conds, tab, false)
  {
    solved, rest := [], conds;
    ghost var seen, passed := 0, [];
    var it := 0;
    while it < |rest|
      invariant 0 <= seen <= |conds| && it == |passed| && rest == passed + conds[seen..]
      invariant solved == Kept(conds[..seen], tab, true) && passed == Kept(conds[..seen], tab, false)
      decreases |rest| - it
    {
      KeptNext(conds, tab, seen);
      EraseAt(passed, conds, seen);
      if Popped(rest[it], tab) {
        solved := solved + [rest[it]];
        rest := rest[..it] + rest[it + 1..];
      } else {
        passed := passed + [rest[it]];
        it := it + 1;
      }
      seen := seen + 1;
    }
    assert conds[..seen] == conds;
  }

  /**
    The scan of a table gets conditions on that table only, exactly when no condition compares two columns of another
    table.
   */
  lemma PopsOwn(cs: seq<Condition>, tab: string)
    requires forall c | c in cs && c.isVal :: c.lhs.tab != c.rhs.tab
    ensures AllLocal(Kept(cs, tab, true), {tab})
      <==> forall c | c in cs && !c.isVal && c.lhs.tab == c.rhs.tab :: c.lhs.tab == tab
  {
    var k := Kept(cs, tab, true);
    if AllLocal(k, {tab}) {
      forall c | c in cs && !c.isVal && c.lhs.tab == c.rhs.tab ensures c.lhs.tab == tab {
        KeptHas(cs, tab, true, c);
        var i :| 0 <= i < |k| && k[i] == c;
        assert Local(k[i], {tab});
      }
    }
    if forall c | c in cs && !c.isVal && c.lhs.tab == c.rhs.tab :: c.lhs.tab == tab {
      forall i | 0 <= i < |k| ensures Local(k[i], {tab}) {
        KeptHas(cs, tab, true, k[i]);
      }
    }
  }

  /** A comparison within table b goes to the scan of table a. */
  lemma PopsForeign()
    ensures var c := Condition(TabCol("b", "x"), EQ, false, TabCol("b", "y"), 0);
            Kept([c], "a", true) == [c] && !AllLocal([c], {"a"})
  {
    var c := Condition(TabCol("b", "x"), EQ, false, TabCol("b", "y"), 0);
    assert [c][..0] == [];
    assert !Local([c][0], {"a"});
  }

  // ---------------------------------------------------------------- pushing a condition down

  /**
    0: neither table of the condition is below; 1: the left one; 2: the right one; 3: the condition has been attached.
   */
  function PushConds(c: Condition, p: Plan): (nat, Plan)
  {
    match p
    case Scan(tab, _, _) => (if tab == c.lhs.tab then 1 else if tab == c.rhs.tab then 2 else 0, p)
    case Join(left, right, conds) =>
      var (leftRes, left') := PushConds(c, left);
      if leftRes == 3 then (3, Join(left', right, conds))
      else
        var (rightRes, right') := PushConds(c, right);
        if rightRes == 3 then (3, Join(left, right', conds))
        else if leftRes == 0 || rightRes == 0 then (leftRes + rightRes, p)
        else (3, Join(left, right, conds + [if leftRes == 2 then Flip(c) else c]))
  }

  /** `q` is `p` with the condition added at one join, written with its left column on the left side of that join. */
  ghost predicate Attached(p: Plan, q: Plan, c: Condition)
  {
    && p.Join? && q.Join?
    && ( || (q.left == p.left && q.right == p.right && AttachedHere(p, q, c))
         || (q.right == p.right && q.conds == p.conds && Attached(p.left, q.left, c))
         || (q.left == p.left && q.conds == p.conds && Attached(p.right, q.right, c)))
  }

  ghost predicate AttachedHere(p: Plan, q: Plan, c: Condition)
    requires p.Join? && q.Join?
  {
    || (q.conds == p.conds + [c] && c.lhs.tab in TabSet(p.left) && c.rhs.tab in TabSet(p.right))
    || (q.conds == p.conds + [Flip(c)] && c.rhs.tab in TabSet(p.left) && c.lhs.tab in TabSet(p.right))
  }

  lemma {:induction false} PushResult(c: Condition, p: Plan)
    requires TreeOk(p) && c.lhs.tab != c.rhs.tab
    ensures PushConds(c, p).0 == (if c.lhs.tab in TabSet(p) then 1 else 0) + (if c.rhs.tab in TabSet(p) then 2 else 0)
    ensures if PushConds(c, p).0 == 3 then Attached(p, PushConds(c, p).1, c) else PushConds(c, p).1 == p
  {
    if p.Join? {
      PushResult(c, p.left);
      PushResult(c, p.right);
    }
  }

  /** Attaching a condition anywhere in the tree adds it to what the tree asks for. */
  lemma {:induction false} AttachedHolds(p: Plan, q: Plan, c: Condition, e: Row)
    requires Attached(p, q, c) && TreeOk(p) && !c.isVal
    ensures TreeOk(q) && (ScansOwn(q) <==> ScansOwn(p)) && Tabs(q) == Tabs(p) && TabSet(q) == TabSet(p)
    ensures TreeHolds(q, e) <==> TreeHolds(p, e) && Holds(c, e)
  {
    if q.left == p.left && q.right == p.right && AttachedHere(p, q, c) {
      var d := q.conds[|p.conds|];
      FlipHolds(c, e);
      assert q.conds == p.conds + [d] && (d == c || d == Flip(c));
      HoldsAllConcat(p.conds, [d], e);
      assert HoldsAll([d], e) <==> Holds([d][0], e);
      assert Sided(q.conds, TabSet(q.left), TabSet(q.right));
    } else if q.right == p.right && q.conds == p.conds && Attached(p.left, q.left, c) {
      AttachedHolds(p.left, q.left, c, e);
    } else {
      AttachedHolds(p.right, q.right, c, e);
    }
  }

  /** A tree that asks for one condition more denotes the rows that meet it. */
  lemma FilteredRows(db: Database, p: Plan, q: Plan, c: Condition)
    requires PlanOk(p) && PlanOk(q) && Tabs(q) == Tabs(p) && TabSet(q) == TabSet(p)
    requires forall e :: TreeHolds(q, e) <==> TreeHolds(p, e) && Holds(c, e)
    ensures multiset(Rows(db, q)) == multiset(Filter(Rows(db, p), [c]))
  {
    forall e ensures Times(Rows(db, q), e) == Times(Filter(Rows(db, p), [c]), e) {
      TreeMeaning(db, q, e);
      TreeMeaning(db, p, e);
      TimesFilter(Rows(db, p), [c], e);
      assert HoldsAll([c], e) <==> Holds([c][0], e);
    }
    SameRows(Rows(db, q), Filter(Rows(db, p), [c]));
  }

  /**
    Pushing a join condition attaches it once, and the new tree asks for what the old one does and for the condition.
   */
  lemma PushOk(c: Condition, p: Plan)
    requires TreeOk(p) && !c.isVal && c.lhs.tab != c.rhs.tab && c.lhs.tab in TabSet(p) && c.rhs.tab in TabSet(p)
    ensures PushConds(c, p).0 == 3
    ensures var q := PushConds(c, p).1;
            && Attached(p, q, c) && TreeOk(q) && (ScansOwn(q) <==> ScansOwn(p)) && Tabs(q) == Tabs(p)
              && TabSet(q) == TabSet(p)
            && forall e :: TreeHolds(q, e) <==> TreeHolds(p, e) && Holds(c, e)
  {
    var q := PushConds(c, p).1;
    PushResult(c, p);
    AttachedHolds(p, q, c, map[]);
    forall e ensures TreeHolds(q, e) <==> TreeHolds(p, e) && Holds(c, e) {
      AttachedHolds(p, q, c, e);
    }
  }

  /** The pushed tree denotes the old tree's rows, filtered by the condition. */
  lemma PushMeaning(db: Database, c: Condition, p: Plan)
    requires PlanOk(p) && !c.isVal && c.lhs.tab != c.rhs.tab && c.lhs.tab in TabSet(p) && c.rhs.tab in TabSet(p)
    ensures multiset(Rows(db, PushConds(c, p).1)) == multiset(Filter(Rows(db, p), [c]))
  {
    PushOk(c, p);
    FilteredRows(db, p, PushConds(c, p).1, c);
  }
}
