/**
  Rolling a transaction back: the three row operations, what they log, and the reverse replay of the log over the
  table and all its unique indexes. An index is a finite map from keys to rids; inserting a key that is present
  changes nothing.
 */
module Rollback {
  import opened Common
  import opened Sequences
  import RawCodec

  datatype Column = Column(offset: nat, len: nat)

  datatype Index = Index(cols: seq<Column>, entries: map<Bytes, Rid>)

  datatype Table = Table(records: map<Rid, Bytes>, indexes: seq<Index>)

  datatype WriteRecord =
    | InsertTuple(tab: string, rid: Rid)
    | DeleteTuple(tab: string, rid: Rid, record: Bytes)
    | UpdateTuple(tab: string, rid: Rid, record: Bytes, before: Bytes)

  // ---------------------------------------------------------------- keys

  function Slice(record: Bytes, c: Column): Bytes
  {
    if c.offset + c.len <= |record| then record[c.offset..c.offset + c.len] else []
  }

  /** The key of a record in an index: its columns, one after the other. */
  function Key(cols: seq<Column>, record: Bytes): Bytes
  {
    if cols == [] then [] else Key(cols[..|cols| - 1], record) + Slice(record, cols[|cols| - 1])
  }

  method BuildKey(cols: seq<Column>, record: Bytes) returns (key: Bytes)
    ensures key == Key(cols, record)
  {
    key := [];
    var i := 0;
    while i < |cols|
      invariant 0 <= i <= |cols| && key == Key(cols[..i], record)
    {
      assert cols[..i + 1][..i] == cols[..i];
      key := key + Slice(record, cols[i]);
      i := i + 1;
    }
    assert cols[..i] == cols;
  }

  /** Every column lies inside the record. */
  ghost predicate Covers(cols: seq<Column>, record: Bytes)
  {
    forall i | 0 <= i < |cols| :: cols[i].offset + cols[i].len <= |record|
  }

  /** How long a key of these columns is. */
  function KeySize(cols: seq<Column>): nat
  {
    if cols == [] then 0 else KeySize(cols[..|cols| - 1]) + cols[|cols| - 1].len
  }

  lemma {:induction false} KeyLength(cols: seq<Column>, record: Bytes)
    requires Covers(cols, record)
    ensures |Key(cols, record)| == KeySize(cols)
  {
    if cols != [] {
      KeyLength(cols[..|cols| - 1], record);
    }
  }

  /** `parts` are the key columns of the record. */
  ghost predicate PartsOf(cols: seq<Column>, record: Bytes, parts: seq<Bytes>)
  {
    |parts| == |cols| && forall i | 0 <= i < |cols| :: parts[i] == Slice(record, cols[i])
  }

  lemma {:induction false} KeyIsFront(cols: seq<Column>, record: Bytes, parts: seq<Bytes>, n: nat)
    requires PartsOf(cols, record, parts) && n <= |cols|
    ensures Key(cols[..n], record) == RawCodec.Front(parts, n)
  {
    if n > 0 {
      KeyIsFront(cols, record, parts, n - 1);
      assert cols[..n][..n - 1] == cols[..n - 1];
    }
  }

  lemma ColumnAt(cols: seq<Column>, record: Bytes, parts: seq<Bytes>, i: nat)
    requires PartsOf(cols, record, parts) && i < |cols|
    ensures Key(cols[..i], record) + parts[i] <= Key(cols, record)
  {
    KeyIsFront(cols, record, parts, i);
    KeyIsFront(cols, record, parts, |cols|);
    assert cols[..|cols|] == cols;
    RawCodec.FrontBelow(parts, i + 1, |cols|);
  }

  lemma SliceBytes(record: Bytes, c: Column)
    requires c.offset + c.len <= |record|
    ensures |Slice(record, c)| == c.len && forall b | 0 <= b < c.len :: Slice(record, c)[b] == record[c.offset + b]
  {
  }

  /** The bytes of column `i`, and where they stand. */
  lemma ColumnPart(cols: seq<Column>, record: Bytes, i: nat) returns (front: Bytes, part: Bytes)
    requires Covers(cols, record) && i < |cols|
    ensures |front| == KeySize(cols[..i]) && |Key(cols, record)| == KeySize(cols)
    ensures |part| == cols[i].len && forall k | 0 <= k < |part| :: part[k] == record[cols[i].offset + k]
    ensures front + part <= Key(cols, record)
  {
    KeyLength(cols, record);
    KeyLength(cols[..i], record);
    var parts := seq(|cols|, k requires 0 <= k < |cols| => Slice(record, cols[k]));
    ColumnAt(cols, record, parts, i);
    SliceBytes(record, cols[i]);
    front, part := Key(cols[..i], record), parts[i];
  }

  lemma PartBytes(front: Bytes, part: Bytes, key: Bytes, record: Bytes, o: nat, b: nat)
    requires front + part <= key && b < |part| && o + |part| <= |record|
    requires forall k | 0 <= k < |part| :: part[k] == record[o + k]
    ensures |front| + b < |key| && key[|front| + b] == record[o + b]
  {
    assert (front + part)[|front| + b] == part[b];
  }

  /** The key holds the bytes of its columns, each column behind the columns before it. */
  lemma KeyBytes(cols: seq<Column>, record: Bytes, i: nat, b: nat)
    requires Covers(cols, record) && i < |cols| && b < cols[i].len
    ensures |Key(cols, record)| == KeySize(cols) && KeySize(cols[..i]) + b < |Key(cols, record)|
    ensures Key(cols, record)[KeySize(cols[..i]) + b] == record[cols[i].offset + b]
  {
    var front, part := ColumnPart(cols, record, i);
    PartBytes(front, part, Key(cols, record), record, cols[i].offset, b);
  }

  /** The records have the same bytes in the column. */
  ghost predicate SameColumn(c: Column, r: Bytes, s: Bytes)
    requires c.offset + c.len <= |r| && c.offset + c.len <= |s|
  {
    r[c.offset..c.offset + c.len] == s[c.offset..c.offset + c.len]
  }

  lemma {:induction false} SameColumns(cols: seq<Column>, r: Bytes, s: Bytes)
    requires Covers(cols, r) && Covers(cols, s) && forall i | 0 <= i < |cols| :: SameColumn(cols[i], r, s)
    ensures Key(cols, r) == Key(cols, s)
  {
    if cols != [] {
      SameColumns(cols[..|cols| - 1], r, s);
      assert SameColumn(cols[|cols| - 1], r, s);
    }
  }

  lemma SameBytes(cols: seq<Column>, r: Bytes, s: Bytes, i: nat)
    requires Covers(cols, r) && Covers(cols, s) && i < |cols| && Key(cols, r) == Key(cols, s)
    ensures SameColumn(cols[i], r, s)
  {
    forall b | 0 <= b < cols[i].len ensures SameByte(r, s, cols[i].offset, b) {
      KeyBytes(cols, r, i, b);
      KeyBytes(cols, s, i, b);
    }
    SameSlices(r, s, cols[i].offset, cols[i].len);
  }

  ghost predicate SameByte(r: Bytes, s: Bytes, o: nat, b: nat)
  {
    o + b < |r| && o + b < |s| && r[o + b] == s[o + b]
  }

  lemma SameSlices(r: Bytes, s: Bytes, o: nat, n: nat)
    requires o + n <= |r| && o + n <= |s| && forall b | 0 <= b < n :: SameByte(r, s, o, b)
    ensures r[o..o + n] == s[o..o + n]
  {
    var x, y := r[o..o + n], s[o..o + n];
    forall b | 0 <= b < n ensures x[b] == y[b] {
      assert SameByte(r, s, o, b);
    }
  }

  /** Two records have the same key exactly when they have the same bytes in every column. */
  lemma SameKeyMeans(cols: seq<Column>, r: Bytes, s: Bytes)
    requires Covers(cols, r) && Covers(cols, s)
    ensures Key(cols, r) == Key(cols, s) <==> forall i | 0 <= i < |cols| :: SameColumn(cols[i], r, s)
  {
    if Key(cols, r) == Key(cols, s) {
      forall i | 0 <= i < |cols| ensures SameColumn(cols[i], r, s) {
        SameBytes(cols, r, s, i);
      }
    }
    if forall i | 0 <= i < |cols| :: SameColumn(cols[i], r, s) {
      SameColumns(cols, r, s);
    }
  }

  // ---------------------------------------------------------------- the index maps

  function InsertEntry(ix: Index, key: Bytes, rid: Rid): Index
  {
    if key in ix.entries then ix else ix.(entries := ix.entries[key := rid])
  }

  function DeleteEntry(ix: Index, key: Bytes): Index
  {
    ix.(entries := ix.entries - {key})
  }

  /** The index holds exactly the keys of the records, each with its rid. */
  ghost predicate Agrees(ix: Index, records: map<Rid, Bytes>)
  {
    && (forall r | r in records :: Key(ix.cols, records[r]) in ix.entries && ix.entries[Key(ix.cols, records[r])] == r)
    && (forall k | k in ix.entries :: ix.entries[k] in records && Key(ix.cols, records[ix.entries[k]]) == k)
  }

  ghost predicate TableOk(t: Table)
  {
    forall i | 0 <= i < |t.indexes| :: Agrees(t.indexes[i], t.records)
  }

  // -------------------------------------------------------------- the row operations and their undoing, index by index

  function AddTo(ix: Index, rid: Rid, record: Bytes): Index
  {
    InsertEntry(ix, Key(ix.cols, record), rid)
  }

  function RemoveFrom(ix: Index, record: Bytes): Index
  {
    DeleteEntry(ix, Key(ix.cols, record))
  }

  /** Nothing happens to an index whose key stays the same. */
  function MoveIn(ix: Index, rid: Rid, before: Bytes, after: Bytes): Index
  {
    if Key(ix.cols, before) == Key(ix.cols, after) then ix
    else InsertEntry(DeleteEntry(ix, Key(ix.cols, before)), Key(ix.cols, after), rid)
  }

  lemma AddThenRemove(ix: Index, records: map<Rid, Bytes>, rid: Rid, record: Bytes)
    requires Agrees(ix, records) && rid !in records && Key(ix.cols, record) !in ix.entries
    ensures Agrees(AddTo(ix, rid, record), records[rid := record])
    ensures RemoveFrom(AddTo(ix, rid, record), record) == ix
  {
    var k := Key(ix.cols, record);
    assert AddTo(ix, rid, record).entries == ix.entries[k := rid];
    assert ix.entries[k := rid] - {k} == ix.entries;
  }

  lemma RemoveThenAdd(ix: Index, records: map<Rid, Bytes>, rid: Rid)
    requires Agrees(ix, records) && rid in records
    ensures Agrees(RemoveFrom(ix, records[rid]), records - {rid})
    ensures AddTo(RemoveFrom(ix, records[rid]), rid, records[rid]) == ix
  {
    var k := Key(ix.cols, records[rid]);
    assert ix.entries == (ix.entries - {k})[k := rid];
  }

  lemma SameKey(ix: Index, records: map<Rid, Bytes>, rid: Rid, record: Bytes)
    requires Agrees(ix, records) && rid in records && Key(ix.cols, record) == Key(ix.cols, records[rid])
    ensures Agrees(ix, records[rid := record])
  {
  }

  lemma ChangeKey(ix: Index, records: map<Rid, Bytes>, rid: Rid, record: Bytes)
    requires Agrees(ix, records) && rid in records && Key(ix.cols, record) !in ix.entries
    ensures Agrees(AddTo(RemoveFrom(ix, records[rid]), rid, record), records[rid := record])
    ensures AddTo(RemoveFrom(AddTo(RemoveFrom(ix, records[rid]), rid, record), record), rid, records[rid]) == ix
  {
    RemoveThenAdd(ix, records, rid);
    AddThenRemove(RemoveFrom(ix, records[rid]), records - {rid}, rid, record);
    assert (records - {rid})[rid := record] == records[rid := record];
  }

  lemma MoveThenBack(ix: Index, records: map<Rid, Bytes>, rid: Rid, record: Bytes)
    requires Agrees(ix, records) && rid in records
    requires Key(ix.cols, record) == Key(ix.cols, records[rid]) || Key(ix.cols, record) !in ix.entries
    ensures Agrees(MoveIn(ix, rid, records[rid], record), records[rid := record])
    ensures MoveIn(MoveIn(ix, rid, records[rid], record), rid, record, records[rid]) == ix
  {
    if Key(ix.cols, record) == Key(ix.cols, records[rid]) {
      SameKey(ix, records, rid, record);
    } else {
      ChangeKey(ix, records, rid, record);
    }
  }

  // ---------------------------------------------------------------- the row operations and their undoing, on the table

  function AddAll(ixs: seq<Index>, rid: Rid, record: Bytes): seq<Index>
  {
    seq(|ixs|, i requires 0 <= i < |ixs| => AddTo(ixs[i], rid, record))
  }

  function RemoveAll(ixs: seq<Index>, record: Bytes): seq<Index>
  {
    seq(|ixs|, i requires 0 <= i < |ixs| => RemoveFrom(ixs[i], record))
  }

  function MoveAll(ixs: seq<Index>, rid: Rid, before: Bytes, after: Bytes): seq<Index>
  {
    seq(|ixs|, i requires 0 <= i < |ixs| => MoveIn(ixs[i], rid, before, after))
  }

  /** No unique index holds the key of the record already. */
  ghost predicate NoDuplicate(ixs: seq<Index>, record: Bytes)
  {
    forall i | 0 <= i < |ixs| :: Key(ixs[i].cols, record) !in ixs[i].entries
  }

  /** No unique index whose key changes holds the new key already. */
  ghost predicate NoClash(ixs: seq<Index>, before: Bytes, after: Bytes)
  {
    forall i | 0 <= i < |ixs| ::
      Key(ixs[i].cols, before) == Key(ixs[i].cols, after) || Key(ixs[i].cols, after) !in ixs[i].entries
  }

  /** The table with a record more. */
  function WithRecord(t: Table, rid: Rid, record: Bytes): Table
  {
    Table(t.records[rid := record], AddAll(t.indexes, rid, record))
  }

  /** The table without the record at `rid`. */
  function WithoutRecord(t: Table, rid: Rid): Table
    requires rid in t.records
  {
    Table(t.records - {rid}, RemoveAll(t.indexes, t.records[rid]))
  }

  /** The table with another record at `rid`. */
  function Replaced(t: Table, rid: Rid, record: Bytes): Table
    requires rid in t.records
  {
    Table(t.records[rid := record], MoveAll(t.indexes, rid, t.records[rid], record))
  }

  lemma UndoInsert(t: Table, rid: Rid, record: Bytes)
    requires TableOk(t) && rid !in t.records && NoDuplicate(t.indexes, record)
    ensures TableOk(Table(t.records[rid := record], AddAll(t.indexes, rid, record)))
    ensures RemoveAll(AddAll(t.indexes, rid, record), record) == t.indexes
      && t.records[rid := record] - {rid} == t.records
  {
    forall i | 0 <= i < |t.indexes|
      ensures Agrees(AddAll(t.indexes, rid, record)[i], t.records[rid := record])
      ensures RemoveAll(AddAll(t.indexes, rid, record), record)[i] == t.indexes[i]
    {
      AddThenRemove(t.indexes[i], t.records, rid, record);
    }
  }

  lemma UndoDelete(t: Table, rid: Rid)
    requires TableOk(t) && rid in t.records
    ensures TableOk(Table(t.records - {rid}, RemoveAll(t.indexes, t.records[rid])))
    ensures AddAll(RemoveAll(t.indexes, t.records[rid]), rid, t.records[rid]) == t.indexes
    ensures (t.records - {rid})[rid := t.records[rid]] == t.records
  {
    var record := t.records[rid];
    forall i | 0 <= i < |t.indexes|
      ensures Agrees(RemoveAll(t.indexes, record)[i], t.records - {rid})
      ensures AddAll(RemoveAll(t.indexes, record), rid, record)[i] == t.indexes[i]
    {
      RemoveThenAdd(t.indexes[i], t.records, rid);
    }
  }

  lemma UndoUpdate(t: Table, rid: Rid, record: Bytes)
    requires TableOk(t) && rid in t.records && NoClash(t.indexes, t.records[rid], record)
    ensures TableOk(Table(t.records[rid := record], MoveAll(t.indexes, rid, t.records[rid], record)))
    ensures MoveAll(MoveAll(t.indexes, rid, t.records[rid], record), rid, record, t.records[rid]) == t.indexes
    ensures t.records[rid := record][rid := t.records[rid]] == t.records
  {
    var before := t.records[rid];
    forall i | 0 <= i < |t.indexes|
      ensures Agrees(MoveAll(t.indexes, rid, before, record)[i], t.records[rid := record])
      ensures MoveAll(MoveAll(t.indexes, rid, before, record), rid, record, before)[i] == t.indexes[i]
    {
      MoveThenBack(t.indexes[i], t.records, rid, record);
    }
  }

  // ---------------------------------------------------------------- undoing a log

  type Tables = map<string, Table>

  /** The table and the rid that a log record speaks of are there. */
  ghost predicate Undoable(db: Tables, w: WriteRecord)
  {
    w.tab in db && (w.DeleteTuple? || w.rid in db[w.tab].records)
  }

  ghost function UndoOne(db: Tables, w: WriteRecord): Tables
    requires Undoable(db, w)
  {
    var t := db[w.tab];
    match w
    case InsertTuple(tab, rid) => db[tab := WithoutRecord(t, rid)]
    case DeleteTuple(tab, rid, record) => db[tab := WithRecord(t, rid, record)]
    case UpdateTuple(tab, rid, record, before) =>
      db[tab := Table(t.records[rid := before], MoveAll(t.indexes, rid, record, before))]
  }

  /** Undoing the log from its end leads back to `origin`. */
  ghost predicate LeadsBack(db: Tables, log: seq<WriteRecord>, origin: Tables)
  {
    if log == [] then db == origin
    else Undoable(db, log[|log| - 1]) && LeadsBack(UndoOne(db, log[|log| - 1]), log[..|log| - 1], origin)
  }

  /** A step whose log record undoes it may be logged behind anything. */
  lemma LogStep(db: Tables, db': Tables, log: seq<WriteRecord>, w: WriteRecord, origin: Tables)
    requires LeadsBack(db, log, origin) && Undoable(db', w) && UndoOne(db', w) == db
    ensures LeadsBack(db', log + [w], origin)
  {
    assert (log + [w])[..|log|] == log;
  }

  ghost predicate AllOk(db: Tables)
  {
    forall tab | tab in db :: TableOk(db[tab])
  }

  datatype TxnState = Growing | Committed | Aborted

  /** A change of some bytes of a record. */
  datatype SetClause = SetClause(offset: nat, raw: Bytes)

  function Applied(clauses: seq<SetClause>, record: Bytes): (r: Bytes)
    ensures |r| == |record|
  {
    if clauses == [] then record
    else
      var r := Applied(clauses[..|clauses| - 1], record);
      var c := clauses[|clauses| - 1];
      if c.offset + |c.raw| <= |r| then r[..c.offset] + c.raw + r[c.offset + |c.raw|..] else r
  }

  /** The clause fits a record of `n` bytes and writes byte `b` of it. */
  predicate Writes(c: SetClause, n: nat, b: nat)
  {
    c.offset + |c.raw| <= n && c.offset <= b < c.offset + |c.raw|
  }

  /** A byte that no clause writes keeps its value. */
  lemma {:induction false} AppliedKeeps(clauses: seq<SetClause>, record: Bytes, b: nat)
    requires b < |record| && forall i | 0 <= i < |clauses| :: !Writes(clauses[i], |record|, b)
    ensures Applied(clauses, record)[b] == record[b]
  {
    if clauses != [] {
      AppliedKeeps(clauses[..|clauses| - 1], record, b);
      assert !Writes(clauses[|clauses| - 1], |record|, b);
    }
  }

  /** Any other byte is the one that the last clause to write it puts there. */
  lemma {:induction false} AppliedWrites(clauses: seq<SetClause>, record: Bytes, i: nat, b: nat)
    requires b < |record| && i < |clauses| && Writes(clauses[i], |record|, b)
    requires forall j | i < j < |clauses| :: !Writes(clauses[j], |record|, b)
    ensures Applied(clauses, record)[b] == clauses[i].raw[b - clauses[i].offset]
  {
    var n := |clauses| - 1;
    if i < n {
      AppliedWrites(clauses[..n], record, i, b);
      assert !Writes(clauses[n], |record|, b);
    }
  }

  /** The update of the record at `rid`. */
  function Rewritten(t: Table, rid: Rid, clauses: seq<SetClause>): Table
    requires rid in t.records
  {
    Replaced(t, rid, Applied(clauses, t.records[rid]))
  }

  function RewriteLog(t: Table, tab: string, rid: Rid, clauses: seq<SetClause>): WriteRecord
    requires rid in t.records
  {
    UpdateTuple(tab, rid, Applied(clauses, t.records[rid]), t.records[rid])
  }

  /** The update of the record at `rid` would give a unique index a key twice. */
  ghost predicate Clashes(t: Table, rid: Rid, clauses: seq<SetClause>)
  {
    rid in t.records && !NoClash(t.indexes, t.records[rid], Applied(clauses, t.records[rid]))
  }

  // ---------------------------------------------------------------- statements over several rows

  ghost predicate AllIn(rids: seq<Rid>, t: Table)
  {
    forall i | 0 <= i < |rids| :: rids[i] in t.records
  }

  /** The table after each of the first `n` rids has been updated in turn. */
  ghost function RewrittenAll(t: Table, rids: seq<Rid>, clauses: seq<SetClause>, n: nat): (u: Table)
    requires AllIn(rids, t) && n <= |rids|
    ensures u.records.Keys == t.records.Keys
  {
    if n == 0 then t else Rewritten(RewrittenAll(t, rids, clauses, n - 1), rids[n - 1], clauses)
  }

  /** The records after each of the first `n` distinct rids has been updated: those have the clauses applied, once. */
  lemma {:induction false} RewrittenAllIs(t: Table, rids: seq<Rid>, clauses: seq<SetClause>, n: nat, r: Rid)
    requires AllIn(rids, t) && NoDup(rids) && n <= |rids| && r in t.records
    ensures RewrittenAll(t, rids, clauses, n).records[r]
            == if exists k | 0 <= k < n :: rids[k] == r then Applied(clauses, t.records[r]) else t.records[r]
  {
    if n > 0 {
      RewrittenAllIs(t, rids, clauses, n - 1, r);
    }
  }

  /** One log record for each of the first `n` rids, with the record it had at that time. */
  ghost function RewriteLogs(t: Table, tab: string, rids: seq<Rid>, clauses: seq<SetClause>, n: nat): seq<WriteRecord>
    requires AllIn(rids, t) && n <= |rids|
  {
    if n == 0 then []
    else
      RewriteLogs(t, tab, rids, clauses, n - 1)
      + [RewriteLog(RewrittenAll(t, rids, clauses, n - 1), tab, rids[n - 1], clauses)]
  }

  /** The table after each of the first `n` rids has been deleted in turn. */
  ghost function WithoutRecords(t: Table, rids: seq<Rid>, n: nat): (u: Table)
    requires AllIn(rids, t) && NoDup(rids) && n <= |rids|
    ensures u.records == t.records - set i | 0 <= i < n :: rids[i]
  {
    if n == 0 then t else WithoutRecord(WithoutRecords(t, rids, n - 1), rids[n - 1])
  }

  ghost function DeleteLogs(t: Table, tab: string, rids: seq<Rid>, n: nat): seq<WriteRecord>
    requires AllIn(rids, t) && n <= |rids|
  {
    seq(n, i requires 0 <= i < n => DeleteTuple(tab, rids[i], t.records[rids[i]]))
  }

  /** One more change of a table, and one more log record. */
  lemma OneMore(db: Tables, tab: string, t: Table, u: Table, log: seq<WriteRecord>, done: seq<WriteRecord>,
                w: WriteRecord)
    ensures db[tab := t][tab := u] == db[tab := u] && (log + done) + [w] == log + (done + [w])
  {
  }

  class Database {
    var tables: Tables
    var writeSet: seq<WriteRecord>
    var state: TxnState
    /** The tables when the transaction began. */
    ghost var origin: Tables

    ghost predicate Valid()
      reads this
    {
      AllOk(tables) && LeadsBack(tables, writeSet, origin)
    }

    /** A transaction begins. */
    constructor (tables: Tables)
      requires AllOk(tables)
      ensures Valid() && this.tables == tables == origin && writeSet == [] && state == Growing
    {
      this.tables, writeSet, state, origin := tables, [], Growing, tables;
    }

    /** Whether a unique index already holds the key of the record. */
    method HasDuplicate(tab: string, record: Bytes) returns (dup: bool)
      requires tab in tables
      ensures dup <==> !NoDuplicate(tables[tab].indexes, record)
    {
      var ixs := tables[tab].indexes;
      var i := 0;
      while i < |ixs|
        invariant 0 <= i <= |ixs|
        invariant forall j | 0 <= j < i :: Key(ixs[j].cols, record) !in ixs[j].entries
      {
        var key := BuildKey(ixs[i].cols, record);
        if key in ixs[i].entries {
          return true;
        }
        i := i + 1;
      }
      return false;
    }

    method AddToIndexes(ixs: seq<Index>, rid: Rid, record: Bytes) returns (r: seq<Index>)
      ensures r == AddAll(ixs, rid, record)
    {
      r := ixs;
      var i := 0;
      while i < |ixs|
        invariant 0 <= i <= |ixs| == |r|
        invariant forall j | 0 <= j < i :: r[j] == AddTo(ixs[j], rid, record)
        invariant forall j | i <= j < |ixs| :: r[j] == ixs[j]
      {
        var key := BuildKey(r[i].cols, record);
        r := r[i := InsertEntry(r[i], key, rid)];
        i := i + 1;
      }
    }

    method RemoveFromIndexes(ixs: seq<Index>, record: Bytes) returns (r: seq<Index>)
      ensures r == RemoveAll(ixs, record)
    {
      r := ixs;
      var i := 0;
      while i < |ixs|
        invariant 0 <= i <= |ixs| == |r|
        invariant forall j | 0 <= j < i :: r[j] == RemoveFrom(ixs[j], record)
        invariant forall j | i <= j < |ixs| :: r[j] == ixs[j]
      {
        var key := BuildKey(r[i].cols, record);
        r := r[i := DeleteEntry(r[i], key)];
        i := i + 1;
      }
    }

    method MoveInIndexes(ixs: seq<Index>, rid: Rid, before: Bytes, after: Bytes) returns (r: seq<Index>)
      ensures r == MoveAll(ixs, rid, before, after)
    {
      r := ixs;
      var i := 0;
      while i < |ixs|
        invariant 0 <= i <= |ixs| == |r|
        invariant forall j | 0 <= j < i :: r[j] == MoveIn(ixs[j], rid, before, after)
        invariant forall j | i <= j < |ixs| :: r[j] == ixs[j]
      {
        var keyOld := BuildKey(r[i].cols, before);
        var keyNew := BuildKey(r[i].cols, after);
        if keyOld != keyNew {
          r := r[i := DeleteEntry(r[i], keyOld)];
          r := r[i := InsertEntry(r[i], keyNew, rid)];
        }
        i := i + 1;
      }
    }

    /** Inserts a record at the unused rid the record file has picked, unless a unique index holds its key. */
    method Insert(tab: string, record: Bytes, rid: Rid) returns (ok: bool)
      requires Valid() && tab in tables && rid !in tables[tab].records
      modifies this
      ensures Valid() && origin == old(origin) && state == old(state)
      ensures ok <==> NoDuplicate(old(tables)[tab].indexes, record)
      ensures !ok ==> tables == old(tables) && writeSet == old(writeSet)
      ensures ok ==> tables == old(tables)[tab := WithRecord(old(tables)[tab], rid, record)]
      ensures ok ==> tables[tab].records == old(tables)[tab].records[rid := record]
      ensures ok ==> writeSet == old(writeSet) + [InsertTuple(tab, rid)]
    {
      var dup := HasDuplicate(tab, record);
      if dup {
        return false;
      }
      var t := tables[tab];
      UndoInsert(t, rid, record);
      var ixs := AddToIndexes(t.indexes, rid, record);
      ghost var db := tables;
      tables := tables[tab := Table(t.records[rid := record], ixs)];
      assert UndoOne(tables, InsertTuple(tab, rid)) == db;
      LogStep(db, tables, writeSet, InsertTuple(tab, rid), origin);
      writeSet := writeSet + [InsertTuple(tab, rid)];
      return true;
    }

    /** Deletes the record at a live rid. */
    method Delete(tab: string, rid: Rid)
      requires Valid() && tab in tables && rid in tables[tab].records
      modifies this
      ensures Valid() && origin == old(origin) && state == old(state)
      ensures tables == old(tables)[tab := WithoutRecord(old(tables)[tab], rid)]
      ensures tables[tab].records == old(tables)[tab].records - {rid}
      ensures writeSet == old(writeSet) + [DeleteTuple(tab, rid, old(tables)[tab].records[rid])]
    {
      var t := tables[tab];
      var w := DeleteTuple(tab, rid, t.records[rid]);
      UndoDelete(t, rid);
      var ixs := RemoveFromIndexes(t.indexes, t.records[rid]);
      ghost var db := tables;
      writeSet := writeSet + [w];
      tables := tables[tab := Table(t.records - {rid}, ixs)];
      assert UndoOne(tables, w) == db;
      LogStep(db, tables, old(writeSet), w, origin);
    }

    /** Whether a unique index whose key changes already holds the new key. */
    method HasClash(tab: string, before: Bytes, after: Bytes) returns (dup: bool)
      requires tab in tables
      ensures dup <==> !NoClash(tables[tab].indexes, before, after)
    {
      var ixs := tables[tab].indexes;
      var i := 0;
      while i < |ixs|
        invariant 0 <= i <= |ixs|
        invariant forall j | 0 <= j < i ::
          Key(ixs[j].cols, before) == Key(ixs[j].cols, after) || Key(ixs[j].cols, after) !in ixs[j].entries
      {
        var keyOld := BuildKey(ixs[i].cols, before);
        var keyNew := BuildKey(ixs[i].cols, after);
        if keyOld != keyNew && keyNew in ixs[i].entries {
          return true;
        }
        i := i + 1;
      }
      return false;
    }

    /** Copies the record and writes the new column values over it. */
    method Apply(clauses: seq<SetClause>, record: Bytes) returns (buf: Bytes)
      ensures buf == Applied(clauses, record)
    {
      buf := record;
      var i := 0;
      while i < |clauses|
        invariant 0 <= i <= |clauses| && buf == Applied(clauses[..i], record)
      {
        assert clauses[..i + 1][..i] == clauses[..i];
        var c := clauses[i];
        if c.offset + |c.raw| <= |buf| {
          buf := buf[..c.offset] + c.raw + buf[c.offset + |c.raw|..];
        }
        i := i + 1;
      }
      assert clauses[..i] == clauses;
    }

    /** Updates the record at a live rid, unless that would give a unique index a key twice; then nothing changes. */
    method Update(tab: string, rid: Rid, clauses: seq<SetClause>) returns (ok: bool)
      requires Valid() && tab in tables && rid in tables[tab].records
      modifies this
      ensures Valid() && origin == old(origin) && state == old(state)
      ensures ok <==> !Clashes(old(tables)[tab], rid, clauses)
      ensures !ok ==> tables == old(tables) && writeSet == old(writeSet)
      ensures ok ==> tables == old(tables)[tab := Rewritten(old(tables)[tab], rid, clauses)]
      ensures ok ==>
        tables[tab].records == old(tables)[tab].records[rid := Applied(clauses, old(tables)[tab].records[rid])]
      ensures ok ==> writeSet == old(writeSet) + [RewriteLog(old(tables)[tab], tab, rid, clauses)]
    {
      var t := tables[tab];
      var before := t.records[rid];
      var buf := Apply(clauses, before);
      var dup := HasClash(tab, before, buf);
      if dup {
        return false;
      }
      UndoUpdate(t, rid, buf);
      var ixs := MoveInIndexes(t.indexes, rid, before, buf);
      var w := UpdateTuple(tab, rid, buf, before);
      ghost var db := tables;
      writeSet := writeSet + [w];
      tables := tables[tab := Table(t.records[rid := buf], ixs)];
      assert UndoOne(tables, w) == db;
      LogStep(db, tables, old(writeSet), w, origin);
      return true;
    }

    /**
      An update statement over several rids. It stops at the first one whose update would give a unique index a key
      twice and leaves the rows before it updated and logged; `done` says how many.
     */
    method UpdateRows(tab: string, rids: seq<Rid>, clauses: seq<SetClause>) returns (ok: bool, ghost done: nat)
      requires Valid() && tab in tables && AllIn(rids, tables[tab])
      modifies this
      ensures Valid() && origin == old(origin) && state == old(state)
      ensures done <= |rids| && (ok <==> done == |rids|)
      ensures tables == old(tables)[tab := RewrittenAll(old(tables)[tab], rids, clauses, done)]
      ensures writeSet == old(writeSet) + RewriteLogs(old(tables)[tab], tab, rids, clauses, done)
      ensures !ok ==> Clashes(tables[tab], rids[done], clauses)
    {
      ghost var t := tables[tab];
      var i := 0;
      while i < |rids|
        invariant 0 <= i <= |rids| && Valid() && origin == old(origin) && state == old(state)
        invariant tables == old(tables)[tab := RewrittenAll(t, rids, clauses, i)]
        invariant writeSet == old(writeSet) + RewriteLogs(t, tab, rids, clauses, i)
      {
        ghost var u := RewrittenAll(t, rids, clauses, i);
        OneMore(old(tables), tab, u, Rewritten(u, rids[i], clauses),
          old(writeSet), RewriteLogs(t, tab, rids, clauses, i), RewriteLog(u, tab, rids[i], clauses));
        ok := Update(tab, rids[i], clauses);
        if !ok {
          return false, i;
        }
        i := i + 1;
      }
      return true, i;
    }

    /** A delete statement over several distinct rids. */
    method DeleteRows(tab: string, rids: seq<Rid>)
      requires Valid() && tab in tables && AllIn(rids, tables[tab]) && NoDup(rids)
      modifies this
      ensures Valid() && origin == old(origin) && state == old(state)
      ensures tables == old(tables)[tab := WithoutRecords(old(tables)[tab], rids, |rids|)]
      ensures writeSet == old(writeSet) + DeleteLogs(old(tables)[tab], tab, rids, |rids|)
    {
      ghost var t := tables[tab];
      var i := 0;
      while i < |rids|
        invariant 0 <= i <= |rids| && Valid() && origin == old(origin) && state == old(state)
        invariant tables == old(tables)[tab := WithoutRecords(t, rids, i)]
        invariant writeSet == old(writeSet) + DeleteLogs(t, tab, rids, i)
      {
        ghost var u := WithoutRecords(t, rids, i);
        OneMore(old(tables), tab, u, WithoutRecord(u, rids[i]),
          old(writeSet), DeleteLogs(t, tab, rids, i), DeleteTuple(tab, rids[i], t.records[rids[i]]));
        Delete(tab, rids[i]);
        i := i + 1;
      }
    }

    /** Undoes one log record. */
    method Undo(w: WriteRecord)
      requires Undoable(tables, w)
      modifies `tables
      ensures tables == UndoOne(old(tables), w)
    {
      var t := tables[w.tab];
      match w
      case InsertTuple(tab, rid) =>
        var ixs := RemoveFromIndexes(t.indexes, t.records[rid]);
        tables := tables[tab := Table(t.records - {rid}, ixs)];
      case DeleteTuple(tab, rid, record) =>
        var ixs := AddToIndexes(t.indexes, rid, record);
        tables := tables[tab := Table(t.records[rid := record], ixs)];
      case UpdateTuple(tab, rid, record, before) =>
        var ixs := MoveInIndexes(t.indexes, rid, record, before);
        tables := tables[tab := Table(t.records[rid := before], ixs)];
    }

    /** Aborting restores every table and every index exactly as they were when the transaction began. */
    method Abort()
      requires Valid()
      modifies this
      ensures tables == origin == old(origin) && writeSet == [] && state == Aborted
    {
      var i := |writeSet|;
      assert writeSet[..i] == writeSet;
      while i > 0
        invariant 0 <= i <= |writeSet| && origin == old(origin) && LeadsBack(tables, writeSet[..i], origin)
      {
        i := i - 1;
        assert writeSet[..i + 1][..i] == writeSet[..i];
        Undo(writeSet[i]);
      }
      writeSet := [];
      state := Aborted;
    }
  }
}
