/** The nested-loop join cursor, and the execution of whole plans with it. */
module NestedLoopJoin {
  import opened Common
  import KeyOrder
  import opened Plans
  import opened PlanMeaning
  import opened JoinPlanner
  import opened QueryPlan

  /** The join conditions on a pair: the left column is read from the left row, the right one from the right row. */
  predicate Meets(cs: seq<Condition>, l: Row, r: Row)
  {
    forall i | 0 <= i < |cs| :: Compare(ValueOf(l, cs[i].lhs), cs[i].op, ValueOf(r, cs[i].rhs))
  }

  /** The joined row of a pair that meets the conditions. */
  function RowOf(cs: seq<Condition>, l: Row, r: Row): seq<Row>
  {
    if Meets(cs, l, r) then [l + r] else []
  }

  function Meeting(l: Row, rs: seq<Row>, cs: seq<Condition>): seq<Row>
  {
    if rs == [] then [] else RowOf(cs, l, rs[0]) + Meeting(l, rs[1..], cs)
  }

  /** The pairs that meet the conditions, left rows first. */
  function AllMeeting(ls: seq<Row>, rs: seq<Row>, cs: seq<Condition>): seq<Row>
  {
    if ls == [] then [] else Meeting(ls[0], rs, cs) + AllMeeting(ls[1..], rs, cs)
  }

  // ---------------------------------------------------------------- the cursor

  /** What the cursor has to deliver from position (i, j) on: the rest of its left row, and all later left rows. */
  ghost function From(ls: seq<Row>, rs: seq<Row>, cs: seq<Condition>, i: nat, j: nat): seq<Row>
    requires i < |ls| && j < |rs|
  {
    Meeting(ls[i], rs[j..], cs) + AllMeeting(ls[i + 1..], rs, cs)
  }

  /** What is left from the position after (i, j) on. */
  ghost function After(ls: seq<Row>, rs: seq<Row>, cs: seq<Condition>, i: nat, j: nat): seq<Row>
    requires i < |ls| && j < |rs|
  {
    if j + 1 < |rs| then From(ls, rs, cs, i, j + 1)
    else if i + 1 < |ls| then From(ls, rs, cs, i + 1, 0)
    else []
  }

  lemma MeetingStep(l: Row, rs: seq<Row>, cs: seq<Condition>, j: nat)
    requires j < |rs|
    ensures Meeting(l, rs[j..], cs) == RowOf(cs, l, rs[j]) + Meeting(l, rs[j + 1..], cs)
  {
    assert rs[j..][1..] == rs[j + 1..];
  }

  /** All later left rows, from the end of a left row on. */
  lemma RowEnds(ls: seq<Row>, rs: seq<Row>, cs: seq<Condition>, i: nat)
    requires i < |ls| && rs != []
    ensures AllMeeting(ls[i + 1..], rs, cs) == After(ls, rs, cs, i, |rs| - 1)
  {
    if i + 1 < |ls| {
      assert ls[i + 1..][1..] == ls[i + 2..] && rs[0..] == rs;
    }
  }

  lemma Regroup(a: seq<Row>, b: seq<Row>, c: seq<Row>)
    ensures (a + b) + c == a + (b + c)
  {
  }

  /** What is left from a pair on is the pair, if it meets the conditions, and what is left from the next one on. */
  lemma FromStep(ls: seq<Row>, rs: seq<Row>, cs: seq<Condition>, i: nat, j: nat)
    requires i < |ls| && j < |rs|
    ensures From(ls, rs, cs, i, j) == RowOf(cs, ls[i], rs[j]) + After(ls, rs, cs, i, j)
  {
    MeetingStep(ls[i], rs, cs, j);
    Regroup(RowOf(cs, ls[i], rs[j]), Meeting(ls[i], rs[j + 1..], cs), AllMeeting(ls[i + 1..], rs, cs));
    if j + 1 == |rs| {
      RowEnds(ls, rs, cs, i);
    }
  }

  lemma {:induction false} NothingMeets(ls: seq<Row>, cs: seq<Condition>)
    ensures AllMeeting(ls, [], cs) == []
  {
    if ls != [] {
      NothingMeets(ls[1..], cs);
    }
  }

  lemma FromAll(ls: seq<Row>, rs: seq<Row>, cs: seq<Condition>)
    ensures (if ls == [] || rs == [] then [] else From(ls, rs, cs, 0, 0)) == AllMeeting(ls, rs, cs)
  {
    if ls != [] && rs != [] {
      assert rs[0..] == rs;
    } else {
      NothingMeets(ls, cs);
    }
  }

  ghost predicate Standing(ls: seq<Row>, rs: seq<Row>, cs: seq<Condition>, i: nat, j: nat, ahead: seq<Row>)
  {
    i < |ls| && j < |rs| && ahead == From(ls, rs, cs, i, j)
  }

  class Cursor {
    const conds: seq<Condition>
    var left: seq<Row>
    var right: seq<Row>
    var lit: nat
    var rit: nat
    var isEnd: bool
    var result: Option<Row>

    /** The rows from the cursor's pair on, that pair included. */
    ghost var ahead: seq<Row>

    /** The cursor stands on a pair, unless it has ended. */
    ghost predicate Placed()
      reads this
    {
      if isEnd then ahead == [] else Standing(left, right, conds, lit, rit, ahead)
    }

    /** The cursor stands on a pair that meets the conditions, or has ended. */
    ghost predicate Ready()
      reads this
    {
      Placed() && (!isEnd ==> Meets(conds, left[lit], right[rit]))
    }

    constructor (conds: seq<Condition>)
      ensures this.conds == conds
    {
      this.conds := conds;
      left, right, lit, rit, isEnd, result := [], [], 0, 0, false, None;
    }

    method EvalConditions() returns (ok: bool)
      requires Placed() && !isEnd
      ensures ok <==> Meets(conds, left[lit], right[rit])
    {
      var i := 0;
      while i < |conds|
        invariant 0 <= i <= |conds|
        invariant forall k | 0 <= k < i ::
          Compare(ValueOf(left[lit], conds[k].lhs), conds[k].op, ValueOf(right[rit], conds[k].rhs))
      {
        var v, w := ValueOf(left[lit], conds[i].lhs), ValueOf(right[rit], conds[i].rhs);
        CompareIsValue(v, w);
        if !Eval(KeyOrder.IntVal(v), conds[i].op, KeyOrder.IntVal(w)) {
          return false;
        }
        i := i + 1;
      }
      return true;
    }

    /** One pair further, or the end. */
    method Step()
      requires Placed() && !isEnd
      modifies `lit, `rit, `isEnd, `ahead
      ensures Placed()
      ensures old(ahead) == RowOf(conds, left[old(lit)], right[old(rit)]) + ahead
      ensures isEnd || lit > old(lit) || (lit == old(lit) && rit > old(rit))
    {
      ghost var i, j := lit, rit;
      FromStep(left, right, conds, i, j);
      rit := rit + 1;
      if rit == |right| {
        lit := lit + 1;
        rit := 0;
        if lit == |left| {
          isEnd := true;
        }
      }
      ahead := After(left, right, conds, i, j);
    }

    /** Slides over the pairs that do not meet the conditions. */
    method Slide()
      requires Placed()
      modifies `lit, `rit, `isEnd, `ahead
      ensures Ready() && ahead == old(ahead)
    {
      var ok := true;
      if !isEnd {
        ok := EvalConditions();
      }
      while !isEnd && !ok
        invariant Placed() && ahead == old(ahead)
        invariant !isEnd ==> (ok <==> Meets(conds, left[lit], right[rit]))
        decreases !isEnd, |left| - lit, |right| - rit
      {
        Step();
        if !isEnd {
          ok := EvalConditions();
        }
      }
    }

    /** Collects both inputs and goes to the first pair that meets the conditions. */
    method BeginTuple(ls: seq<Row>, rs: seq<Row>)
      modifies this
      ensures Ready() && left == ls && right == rs
      ensures ahead == AllMeeting(ls, rs, conds)
      ensures result == if isEnd then old(result) else Some(left[lit] + right[rit])
    {
      left, right, lit, rit := ls, rs, 0, 0;
      isEnd := lit == |left| || rit == |right|;
      ahead := AllMeeting(ls, rs, conds);
      FromAll(ls, rs, conds);
      Slide();
      if isEnd {
        return;
      }
      result := Some(left[lit] + right[rit]);
    }

    /** Goes to the next pair that meets the conditions. */
    method NextTuple()
      requires Ready() && !isEnd
      modifies this
      ensures Ready() && left == old(left) && right == old(right)
      ensures old(ahead) == [old(left[lit] + right[rit])] + ahead
      ensures result == if isEnd then old(result) else Some(left[lit] + right[rit])
    {
      ghost var row := left[lit] + right[rit];
      Step();
      assert old(ahead) == [row] + ahead;
      Slide();
      if isEnd {
        return;
      }
      result := Some(left[lit] + right[rit]);
    }

    /** Hands out the current row. */
    method Next() returns (r: Option<Row>)
      modifies `result
      ensures r == old(result) && result == None
    {
      r, result := result, None;
    }
  }

  // ---------------------------------------------------------------- a whole join

  /** Takes every row from the cursor. */
  method Drain(cursor: Cursor) returns (out: seq<Row>)
    requires cursor.Ready()
      && (!cursor.isEnd ==> cursor.result == Some(cursor.left[cursor.lit] + cursor.right[cursor.rit]))
    modifies cursor
    ensures out == old(cursor.ahead)
  {
    out := [];
    ghost var all := cursor.ahead;
    while !cursor.isEnd
      invariant cursor.Ready() && all == out + cursor.ahead
      invariant !cursor.isEnd ==> cursor.result == Some(cursor.left[cursor.lit] + cursor.right[cursor.rit])
      decreases |cursor.ahead|, !cursor.isEnd
    {
      var r := cursor.Next();
      cursor.NextTuple();
      Regroup(out, [r.value], cursor.ahead);
      out := out + [r.value];
    }
  }

  /**
    Driven from begin to end, the cursor delivers exactly the pairs that meet the conditions, once each, left rows
    first.
   */
  method RunJoin(ls: seq<Row>, rs: seq<Row>, conds: seq<Condition>) returns (out: seq<Row>)
    ensures out == AllMeeting(ls, rs, conds)
  {
    var cursor := new Cursor(conds);
    cursor.BeginTuple(ls, rs);
    out := Drain(cursor);
  }

  /**
    With every condition on its side, reading the two columns from the two rows is reading them from the merged row.
   */
  lemma MeetsIsHolds(cs: seq<Condition>, l: Row, r: Row, a: set<string>, b: set<string>)
    requires a !! b && l.Keys == a && r.Keys == b && Sided(cs, a, b)
    ensures Meets(cs, l, r) <==> HoldsAll(cs, l + r)
  {
    forall i | 0 <= i < |cs|
      ensures Compare(ValueOf(l, cs[i].lhs), cs[i].op, ValueOf(r, cs[i].rhs)) <==> Holds(cs[i], l + r)
    {
      assert ValueOf(l + r, cs[i].lhs) == ValueOf(l, cs[i].lhs) && ValueOf(l + r, cs[i].rhs) == ValueOf(r, cs[i].rhs);
    }
  }

  lemma {:induction false} MeetingIsFilter(l: Row, rs: seq<Row>, cs: seq<Condition>, a: set<string>, b: set<string>)
    requires a !! b && l.Keys == a && Over(rs, b) && Sided(cs, a, b)
    ensures Meeting(l, rs, cs) == Filter(PairWith(l, rs), cs)
  {
    if rs != [] {
      MeetsIsHolds(cs, l, rs[0], a, b);
      MeetingIsFilter(l, rs[1..], cs, a, b);
      assert PairWith(l, rs)[1..] == PairWith(l, rs[1..]);
    }
  }

  lemma {:induction false} FilterConcat(x: seq<Row>, y: seq<Row>, cs: seq<Condition>)
    ensures Filter(x + y, cs) == Filter(x, cs) + Filter(y, cs)
  {
    if x == [] {
      assert x + y == y;
    } else {
      FilterConcat(x[1..], y, cs);
      assert (x + y)[1..] == x[1..] + y && (x + y)[0] == x[0];
      Regroup(if HoldsAll(cs, x[0]) then [x[0]] else [], Filter(x[1..], cs), Filter(y, cs));
    }
  }

  lemma {:induction false} AllMeetingIsFilter(ls: seq<Row>, rs: seq<Row>, cs: seq<Condition>, a: set<string>,
    b: set<string>)
    requires a !! b && Over(ls, a) && Over(rs, b) && Sided(cs, a, b)
    ensures AllMeeting(ls, rs, cs) == Filter(Pairs(ls, rs), cs)
  {
    if ls != [] {
      MeetingIsFilter(ls[0], rs, cs, a, b);
      AllMeetingIsFilter(ls[1..], rs, cs, a, b);
      FilterConcat(PairWith(ls[0], rs), Pairs(ls[1..], rs), cs);
    }
  }

  // ---------------------------------------------------------------- executing a plan

  /** Whether a record meets all conditions of its scan. */
  method EvalRecord(conds: seq<Condition>, e: Row) returns (ok: bool)
    ensures ok <==> HoldsAll(conds, e)
  {
    var i := 0;
    while i < |conds|
      invariant 0 <= i <= |conds| && forall k | 0 <= k < i :: Holds(conds[k], e)
    {
      var v := ValueOf(e, conds[i].lhs);
      var w := if conds[i].isVal then conds[i].val else ValueOf(e, conds[i].rhs);
      CompareIsValue(v, w);
      if !Eval(KeyOrder.IntVal(v), conds[i].op, KeyOrder.IntVal(w)) {
        return false;
      }
      i := i + 1;
    }
    return true;
  }

  lemma ScanStep(tab: string, records: seq<Record>, conds: seq<Condition>, i: nat)
    requires i < |records|
    ensures var e := map[tab := records[i]];
            Filter(TableRows(tab, records[i..]), conds)
            == (if HoldsAll(conds, e) then [e] else []) + Filter(TableRows(tab, records[i + 1..]), conds)
  {
    assert records[i..][1..] == records[i + 1..];
    var rows := TableRows(tab, records[i..]);
    assert rows[0] == map[tab := records[i]] && rows[1..] == TableRows(tab, records[i + 1..]);
  }

  /** A sequential scan: the records that meet the conditions, in their order. */
  method SeqScan(tab: string, records: seq<Record>, conds: seq<Condition>) returns (rows: seq<Row>)
    ensures rows == Filter(TableRows(tab, records), conds)
  {
    rows := [];
    var i := 0;
    ghost var all := Filter(TableRows(tab, records), conds);
    assert records[0..] == records;
    while i < |records|
      invariant 0 <= i <= |records| && all == rows + Filter(TableRows(tab, records[i..]), conds)
    {
      var e := map[tab := records[i]];
      var ok := EvalRecord(conds, e);
      ScanStep(tab, records, conds, i);
      Regroup(rows, if ok then [e] else [], Filter(TableRows(tab, records[i + 1..]), conds));
      if ok {
        rows := rows + [e];
      }
      i := i + 1;
    }
  }

  /** Runs a plan: sequential scans at the leaves and nested-loop joins above them. */
  method Execute(db: Database, p: Plan) returns (rows: seq<Row>)
    requires PlanOk(p)
    ensures rows == Rows(db, p)
    decreases p
  {
    match p
    case Scan(tab, conds, _) =>
      rows := SeqScan(tab, RecordsOf(db, tab), conds);
    case Join(left, right, conds) =>
      var ls := Execute(db, left);
      var rs := Execute(db, right);
      rows := RunJoin(ls, rs, conds);
      RowsOver(db, left);
      RowsOver(db, right);
      AllMeetingIsFilter(ls, rs, conds, TabSet(left), TabSet(right));
  }

  /** A query, planned and executed: its answer, unless the first join condition is misread. */
  method Answer(db: Database, tables: seq<string>, conds: seq<Condition>, indexes: Indexes) returns (rows: seq<Row>)
    requires QueryOk(tables, conds) && WithinFirst(tables, conds) && IndexesOk(indexes)
    ensures multiset(rows) == multiset(Asked(db, tables, Planned(tables, conds)))
    ensures !Misread(tables, conds) || ColumnsAgree(tables, conds) ==>
      multiset(rows) == multiset(Asked(db, tables, conds))
  {
    var plan := MakeOneRel(tables, conds, indexes);
    rows := Execute(db, plan);
  }
}
