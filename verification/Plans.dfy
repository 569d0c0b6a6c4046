/**
  Query plans and what they denote: the rows of a plan are assignments of records to tables, and a plan is judged by
  the multiset of its rows.
 */
module Plans {
  import KeyOrder

  datatype CompOp = EQ | NE | LT | GT | LE | GE

  datatype TabCol = TabCol(tab: string, col: string)

  /** A comparison of a column with a literal or with another column; a literal has no right column. */
  datatype Condition = Condition(lhs: TabCol, op: CompOp, isVal: bool, rhs: TabCol, val: int)

  datatype Plan =
    | Scan(tab: string, conds: seq<Condition>, indexCols: seq<string>)
    | Join(left: Plan, right: Plan, conds: seq<Condition>)

  type Record = map<string, int>
  type Database = map<string, seq<Record>>

  /** A row: a record for every table. */
  type Row = map<string, Record>

  // ---------------------------------------------------------------- conditions

  function Mirror(op: CompOp): CompOp
  {
    match op
    case EQ => EQ
    case NE => NE
    case LT => GT
    case GT => LT
    case LE => GE
    case GE => LE
  }

  predicate Compare(a: int, op: CompOp, b: int)
  {
    match op
    case EQ => a == b
    case NE => a != b
    case LT => a < b
    case GT => a > b
    case LE => a <= b
    case GE => a >= b
  }

  /** How a condition is evaluated: through the operators of the two values. */
  predicate Eval(v: KeyOrder.Value, op: CompOp, w: KeyOrder.Value)
    requires KeyOrder.SameKind(v, w)
  {
    match op
    case EQ => KeyOrder.Eq(v, w)
    case NE => KeyOrder.Ne(v, w)
    case LT => KeyOrder.Lt(v, w)
    case GT => KeyOrder.Gt(v, w)
    case LE => KeyOrder.Le(v, w)
    case GE => KeyOrder.Ge(v, w)
  }

  /** Each comparison is that of the value operators. */
  lemma CompareIsValue(a: int, b: int)
    ensures var v, w := KeyOrder.IntVal(a), KeyOrder.IntVal(b);
            && (Compare(a, EQ, b) <==> KeyOrder.Eq(v, w)) && (Compare(a, NE, b) <==> KeyOrder.Ne(v, w))
            && (Compare(a, LT, b) <==> KeyOrder.Lt(v, w)) && (Compare(a, GT, b) <==> KeyOrder.Gt(v, w))
            && (Compare(a, LE, b) <==> KeyOrder.Le(v, w)) && (Compare(a, GE, b) <==> KeyOrder.Ge(v, w))
    ensures forall op :: Compare(a, op, b) <==> Eval(KeyOrder.IntVal(a), op, KeyOrder.IntVal(b))
  {
    forall op ensures Compare(a, op, b) <==> Eval(KeyOrder.IntVal(a), op, KeyOrder.IntVal(b)) {
      match op
      case EQ => case NE => case LT => case GT => case LE => case GE =>
    }
  }

  function ValueOf(e: Row, c: TabCol): int
  {
    if c.tab in e && c.col in e[c.tab] then e[c.tab][c.col] else 0
  }

  predicate Holds(c: Condition, e: Row)
  {
    Compare(ValueOf(e, c.lhs), c.op, if c.isVal then c.val else ValueOf(e, c.rhs))
  }

  /** A row has the column. */
  predicate Has(e: Row, c: TabCol)
  {
    c.tab in e && c.col in e[c.tab]
  }

  /**
    A condition holds in a row exactly when the value operator holds between the value of its left column and its
    literal, or the value of its right column.
   */
  lemma HoldsMeans(c: Condition, e: Row)
    requires Has(e, c.lhs) && (!c.isVal ==> Has(e, c.rhs))
    ensures var v := KeyOrder.IntVal(e[c.lhs.tab][c.lhs.col]);
            var w := KeyOrder.IntVal(if c.isVal then c.val else e[c.rhs.tab][c.rhs.col]);
            && (c.op == EQ ==> (Holds(c, e) <==> KeyOrder.Eq(v, w)))
            && (c.op == NE ==> (Holds(c, e) <==> KeyOrder.Ne(v, w)))
            && (c.op == LT ==> (Holds(c, e) <==> KeyOrder.Lt(v, w)))
            && (c.op == GT ==> (Holds(c, e) <==> KeyOrder.Gt(v, w)))
            && (c.op == LE ==> (Holds(c, e) <==> KeyOrder.Le(v, w)))
            && (c.op == GE ==> (Holds(c, e) <==> KeyOrder.Ge(v, w)))
  {
    CompareIsValue(e[c.lhs.tab][c.lhs.col], if c.isVal then c.val else e[c.rhs.tab][c.rhs.col]);
  }

  predicate HoldsAll(cs: seq<Condition>, e: Row)
  {
    forall i | 0 <= i < |cs| :: Holds(cs[i], e)
  }

  function SwapSides(c: Condition): Condition
  {
    c.(lhs := c.rhs, rhs := c.lhs)
  }

  /** Exchanging the sides and mirroring the operator. */
  function Flip(c: Condition): Condition
  {
    SwapSides(c).(op := Mirror(c.op))
  }

  lemma FlipHolds(c: Condition, e: Row)
    requires !c.isVal
    ensures Holds(Flip(c), e) <==> Holds(c, e)
  {
  }

  /** Exchanging the sides alone keeps the meaning of exactly the symmetric operators. */
  lemma SwapHolds(c: Condition)
    requires !c.isVal && c.lhs != c.rhs
    ensures (forall e :: Holds(SwapSides(c), e) <==> Holds(c, e)) <==> c.op == EQ || c.op == NE
  {
    if c.op != EQ && c.op != NE {
      var e: Row := if c.lhs.tab == c.rhs.tab then map[c.lhs.tab := map[c.lhs.col := 1, c.rhs.col := 0]]
                    else map[c.lhs.tab := map[c.lhs.col := 1], c.rhs.tab := map[c.rhs.col := 0]];
      assert ValueOf(e, c.lhs) == 1 && ValueOf(e, c.rhs) == 0;
      assert Holds(SwapSides(c), e) != Holds(c, e);
    }
  }

  lemma HoldsAllConcat(a: seq<Condition>, b: seq<Condition>, e: Row)
    ensures HoldsAll(a + b, e) <==> HoldsAll(a, e) && HoldsAll(b, e)
  {
    if HoldsAll(a + b, e) {
      forall i | 0 <= i < |a| ensures Holds(a[i], e) {
        assert (a + b)[i] == a[i];
      }
      forall i | 0 <= i < |b| ensures Holds(b[i], e) {
        assert (a + b)[|a| + i] == b[i];
      }
    }
  }

  // ---------------------------------------------------------------- rows

  function Filter(rows: seq<Row>, cs: seq<Condition>): seq<Row>
  {
    if rows == [] then []
    else (if HoldsAll(cs, rows[0]) then [rows[0]] else []) + Filter(rows[1..], cs)
  }

  function PairWith(l: Row, rs: seq<Row>): seq<Row>
  {
    if rs == [] then [] else [l + rs[0]] + PairWith(l, rs[1..])
  }

  /** Every left row with every right row, left rows first. */
  function Pairs(ls: seq<Row>, rs: seq<Row>): seq<Row>
  {
    if ls == [] then [] else PairWith(ls[0], rs) + Pairs(ls[1..], rs)
  }

  function TableRows(tab: string, records: seq<Record>): seq<Row>
  {
    if records == [] then [] else [map[tab := records[0]]] + TableRows(tab, records[1..])
  }

  function RecordsOf(db: Database, tab: string): seq<Record>
  {
    if tab in db then db[tab] else []
  }

  /** The rows of a plan. */
  function Rows(db: Database, p: Plan): seq<Row>
  {
    match p
    case Scan(tab, conds, _) => Filter(TableRows(tab, RecordsOf(db, tab)), conds)
    case Join(left, right, conds) => Filter(Pairs(Rows(db, left), Rows(db, right)), conds)
  }

  /** The full cross product of the tables, in FROM order. */
  function CrossRows(db: Database, tables: seq<string>): seq<Row>
  {
    if tables == [] then [map[]]
    else Pairs(CrossRows(db, tables[..|tables| - 1]),
      TableRows(tables[|tables| - 1], RecordsOf(db, tables[|tables| - 1])))
  }

  /** What a query asks for. */
  function Asked(db: Database, tables: seq<string>, cs: seq<Condition>): seq<Row>
  {
    Filter(CrossRows(db, tables), cs)
  }

  // ---------------------------------------------------------------- how often a row occurs

  ghost function Times(rows: seq<Row>, e: Row): nat
  {
    if rows == [] then 0 else (if rows[0] == e then 1 else 0) + Times(rows[1..], e)
  }

  lemma {:induction false} TimesConcat(a: seq<Row>, b: seq<Row>, e: Row)
    ensures Times(a + b, e) == Times(a, e) + Times(b, e)
  {
    if a == [] {
      assert a + b == b;
    } else {
      TimesConcat(a[1..], b, e);
      assert (a + b)[1..] == a[1..] + b;
    }
  }

  /** Counting rows is what a multiset does. */
  lemma {:induction false} TimesIs(rows: seq<Row>, e: Row)
    ensures Times(rows, e) == multiset(rows)[e]
  {
    if rows != [] {
      TimesIs(rows[1..], e);
      assert rows == [rows[0]] + rows[1..];
    }
  }

  lemma SameRows(a: seq<Row>, b: seq<Row>)
    requires forall e :: Times(a, e) == Times(b, e)
    ensures multiset(a) == multiset(b)
  {
    forall e ensures multiset(a)[e] == multiset(b)[e] {
      TimesIs(a, e);
      TimesIs(b, e);
    }
  }

  lemma {:induction false} TimesFilter(rows: seq<Row>, cs: seq<Condition>, e: Row)
    ensures Times(Filter(rows, cs), e) == if HoldsAll(cs, e) then Times(rows, e) else 0
  {
    if rows != [] {
      TimesFilter(rows[1..], cs, e);
      TimesConcat(if HoldsAll(cs, rows[0]) then [rows[0]] else [], Filter(rows[1..], cs), e);
    }
  }

  lemma {:induction false} TimesTable(tab: string, records: seq<Record>, e: Row)
    ensures Times(TableRows(tab, records), e) == if e.Keys == {tab} then multiset(records)[e[tab]] else 0
  {
    if records != [] {
      TimesTable(tab, records[1..], e);
      assert records == [records[0]] + records[1..];
      assert TableRows(tab, records)[1..] == TableRows(tab, records[1..]);
      OneTable(tab, records[0], e);
    }
  }

  lemma OneTable(tab: string, r: Record, e: Row)
    ensures map[tab := r] == e <==> e.Keys == {tab} && e[tab] == r
  {
    if e.Keys == {tab} && e[tab] == r {
      assert e == map[tab := r];
    }
    assert tab in map[tab := r];
  }

  /** The part of a row that belongs to some tables. */
  ghost function Part(e: Row, tabs: set<string>): Row
  {
    map t | t in e && t in tabs :: e[t]
  }

  ghost predicate Over(rows: seq<Row>, tabs: set<string>)
  {
    forall i | 0 <= i < |rows| :: rows[i].Keys == tabs
  }

  /** A merged row determines its two parts. */
  lemma MergeParts(l: Row, r: Row, a: set<string>, b: set<string>, e: Row)
    requires a !! b && l.Keys == a && r.Keys == b
    ensures l + r == e <==> e.Keys == a + b && l == Part(e, a) && r == Part(e, b)
  {
    if l + r == e {
      assert e.Keys == a + b;
      assert l == Part(e, a);
      assert r == Part(e, b);
    }
    if e.Keys == a + b && l == Part(e, a) && r == Part(e, b) {
      assert e == l + r;
    }
  }

  lemma {:induction false} PairWithOver(l: Row, rs: seq<Row>, a: set<string>, b: set<string>)
    requires l.Keys == a && Over(rs, b)
    ensures Over(PairWith(l, rs), a + b)
  {
    if rs != [] {
      PairWithOver(l, rs[1..], a, b);
    }
  }

  lemma {:induction false} PairsOver(ls: seq<Row>, rs: seq<Row>, a: set<string>, b: set<string>)
    requires Over(ls, a) && Over(rs, b)
    ensures Over(Pairs(ls, rs), a + b)
  {
    if ls != [] {
      PairsOver(ls[1..], rs, a, b);
      PairWithOver(ls[0], rs, a, b);
    }
  }

  lemma {:induction false} TimesPairWith(l: Row, rs: seq<Row>, a: set<string>, b: set<string>, e: Row)
    requires a !! b && l.Keys == a && Over(rs, b)
    ensures Times(PairWith(l, rs), e) == if e.Keys == a + b && l == Part(e, a) then Times(rs, Part(e, b)) else 0
  {
    if rs != [] {
      TimesPairWith(l, rs[1..], a, b, e);
      MergeParts(l, rs[0], a, b, e);
      assert PairWith(l, rs)[1..] == PairWith(l, rs[1..]);
    }
  }

  lemma {:induction false} TimesPairs(ls: seq<Row>, rs: seq<Row>, a: set<string>, b: set<string>, e: Row)
    requires a !! b && Over(ls, a) && Over(rs, b)
    ensures Times(Pairs(ls, rs), e) == if e.Keys == a + b then Times(ls, Part(e, a)) * Times(rs, Part(e, b)) else 0
  {
    if ls != [] {
      TimesPairs(ls[1..], rs, a, b, e);
      TimesPairWith(ls[0], rs, a, b, e);
      TimesConcat(PairWith(ls[0], rs), Pairs(ls[1..], rs), e);
      OneMore(ls[0] == Part(e, a), Times(ls[1..], Part(e, a)), Times(rs, Part(e, b)));
    }
  }

  lemma OneMore(here: bool, x: nat, y: nat)
    ensures ((if here then 1 else 0) + x) * y == (if here then y else 0) + x * y
  {
  }

  lemma {:induction false} FilterOver(rows: seq<Row>, cs: seq<Condition>, tabs: set<string>)
    requires Over(rows, tabs)
    ensures Over(Filter(rows, cs), tabs)
  {
    if rows != [] {
      FilterOver(rows[1..], cs, tabs);
    }
  }

  lemma {:induction false} TableOver(tab: string, records: seq<Record>)
    ensures Over(TableRows(tab, records), {tab})
  {
    if records != [] {
      TableOver(tab, records[1..]);
    }
  }
}
