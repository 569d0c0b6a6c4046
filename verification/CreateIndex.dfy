/** Creating an index over the records of a table: scan, build each key, insert it. */
module CreateIndex {
  import opened Common
  import opened KeyOrder
  import opened RecordFile
  import opened RecordFileHandle
  import opened Rollback
  import IndexNode
  import IndexTree
  import IndexSearch
  import IndexHandle
  import IndexFirst
  import IndexLow
  import IndexBuild
  import IndexHeader

  type Entry = IndexNode.Entry

  datatype Outcome = Created(ih: IndexHandle.Handle) | KeyTooLong | DuplicateKey

  // ---------------------------------------------------------------- keys

  /** Each column has the length of its type. */
  ghost predicate ColsMatch(cols: seq<Column>, types: seq<ColType>)
  {
    |cols| == |types| && forall i | 0 <= i < |cols| :: cols[i].len == Len(types[i])
  }

  lemma {:induction false} KeyLenLast(types: seq<ColType>)
    requires types != []
    ensures KeyLen(types) == KeyLen(types[..|types| - 1]) + Len(types[|types| - 1])
  {
    if |types| > 1 {
      KeyLenLast(types[1..]);
      assert types[1..][..|types| - 2] == types[..|types| - 1][1..];
    }
  }

  lemma {:induction false} SizeIsLen(cols: seq<Column>, types: seq<ColType>)
    requires ColsMatch(cols, types)
    ensures KeySize(cols) == KeyLen(types)
  {
    if cols != [] {
      SizeIsLen(cols[..|cols| - 1], types[..|cols| - 1]);
      KeyLenLast(types);
    }
  }

  lemma KeyHasLen(cols: seq<Column>, types: seq<ColType>, record: Bytes)
    requires ColsMatch(cols, types) && Covers(cols, record)
    ensures |Key(cols, record)| == KeyLen(types)
  {
    KeyLength(cols, record);
    SizeIsLen(cols, types);
  }

  /** A table whose records hold all columns of the index. */
  ghost predicate AllCover(cols: seq<Column>, v: map<Rid, Bytes>)
  {
    forall r | r in v :: Covers(cols, v[r])
  }

  /** The raw key of the record at `r`. */
  ghost function KeyAt(cols: seq<Column>, v: map<Rid, Bytes>, r: Rid): Bytes
    requires r in v
  {
    Key(cols, v[r])
  }

  /** No two records of the table have the same key. */
  ghost predicate Unique(cols: seq<Column>, v: map<Rid, Bytes>)
  {
    forall r, s | r in v && s in v && r != s :: KeyAt(cols, v, r) != KeyAt(cols, v, s)
  }

  // ---------------------------------------------------------------- what the scan inserts

  /** `e` is the entry of a record: the rank of its key, and its rid. */
  ghost predicate EntryOf(cols: seq<Column>, types: seq<ColType>, v: map<Rid, Bytes>, e: Entry)
  {
    && e.rid in v && |KeyAt(cols, v, e.rid)| == KeyLen(types)
    && e.key == Rank(KeyAt(cols, v, e.rid), types)
  }

  /** The entries of all records, in the order of the scan. */
  ghost predicate EntriesOf(cols: seq<Column>, types: seq<ColType>, v: map<Rid, Bytes>, es: seq<Entry>)
  {
    && (forall i {:trigger es[i]} | 0 <= i < |es| :: EntryOf(cols, types, v, es[i]))
    && (forall i, j | 0 <= i < j < |es| :: Before(es[i].rid, es[j].rid))
    && (forall r | r in v :: exists i | 0 <= i < |es| :: es[i].rid == r)
  }

  /** Two entries have one rank exactly when their records have one key. */
  lemma SameRank(cols: seq<Column>, types: seq<ColType>, v: map<Rid, Bytes>, d: Entry, e: Entry)
    requires EntryOf(cols, types, v, d) && EntryOf(cols, types, v, e)
    ensures d.key == e.key <==> KeyAt(cols, v, d.rid) == KeyAt(cols, v, e.rid)
  {
    KeyOrderIsRank(KeyAt(cols, v, d.rid), KeyAt(cols, v, e.rid), types);
  }

  lemma TwinsAreShared(cols: seq<Column>, types: seq<ColType>, v: map<Rid, Bytes>, es: seq<Entry>)
    requires EntriesOf(cols, types, v, es)
    ensures IndexLow.DistinctKeys(es) <==> Unique(cols, v)
  {
    if !IndexLow.DistinctKeys(es) {
      var i, j :| 0 <= i < j < |es| && es[i].key == es[j].key;
      SameRank(cols, types, v, es[i], es[j]);
      assert Before(es[i].rid, es[j].rid);
    }
    if !Unique(cols, v) {
      var r, s :| r in v && s in v && r != s && KeyAt(cols, v, r) == KeyAt(cols, v, s);
      var i :| 0 <= i < |es| && es[i].rid == r;
      var j :| 0 <= j < |es| && es[j].rid == s;
      SameRank(cols, types, v, es[i], es[j]);
      if i < j {
        assert es[i].key == es[j].key;
      } else {
        assert es[j].key == es[i].key;
      }
    }
  }

  /** The index answers `key` with `r` exactly when the record at `r` has the key. */
  ghost predicate AnswersKey(t: IndexTree.Tree, cols: seq<Column>, types: seq<ColType>, v: map<Rid, Bytes>, key: Bytes,
                             r: Rid)
    requires IndexSearch.Whole(t)
  {
    |key| == KeyLen(types) ==>
      (IndexSearch.Lookup(t, Rank(key, types)) == Some(r) <==> r in v && KeyAt(cols, v, r) == key)
  }

  /** The index answers like the table. */
  ghost predicate Answers(t: IndexTree.Tree, cols: seq<Column>, types: seq<ColType>, v: map<Rid, Bytes>)
    requires IndexSearch.Whole(t)
  {
    forall key, r :: AnswersKey(t, cols, types, v, key, r)
  }

  /** Without repeated keys, the first entry with the rank of a key belongs to the record that has the key. */
  lemma FirstIsRecord(cols: seq<Column>, types: seq<ColType>, v: map<Rid, Bytes>, es: seq<Entry>, key: Bytes, r: Rid)
    requires EntriesOf(cols, types, v, es) && Unique(cols, v) && |key| == KeyLen(types)
    ensures IndexBuild.FirstRid(es, Rank(key, types)) == Some(r) <==> r in v && KeyAt(cols, v, r) == key
  {
    var k := Rank(key, types);
    var found := IndexBuild.FirstRid(es, k);
    IndexBuild.FirstRidIn(es, k);
    if found.Some? {
      var i :| 0 <= i < |es| && es[i] == IndexNode.Entry(k, found.value);
      assert EntryOf(cols, types, v, es[i]);
      KeyOrderIsRank(KeyAt(cols, v, found.value), key, types);
    }
    if r in v && KeyAt(cols, v, r) == key {
      var j :| 0 <= j < |es| && es[j].rid == r;
      assert EntryOf(cols, types, v, es[j]);
    }
  }

  /** An index that answers like the entries answers like the table. */
  lemma AnswersTable(t: IndexTree.Tree, cols: seq<Column>, types: seq<ColType>, v: map<Rid, Bytes>, es: seq<Entry>)
    requires IndexSearch.Whole(t) && EntriesOf(cols, types, v, es) && Unique(cols, v) && IndexBuild.AnswersAs(t, es)
    ensures Answers(t, cols, types, v)
  {
    forall key, r ensures AnswersKey(t, cols, types, v, key, r) {
      if |key| == KeyLen(types) {
        FirstIsRecord(cols, types, v, es, key, r);
        assert IndexSearch.Lookup(t, Rank(key, types)) == IndexBuild.FirstRid(es, Rank(key, types));
      }
    }
  }

  /** An index that answers like the table finds every entry. */
  lemma TableFound(t: IndexTree.Tree, cols: seq<Column>, types: seq<ColType>, v: map<Rid, Bytes>, es: seq<Entry>)
    requires IndexSearch.Whole(t) && EntriesOf(cols, types, v, es) && Answers(t, cols, types, v)
    ensures IndexBuild.FindsEach(t, es)
  {
    forall i | 0 <= i < |es| ensures IndexSearch.Lookup(t, es[i].key) == Some(es[i].rid) {
      assert EntryOf(cols, types, v, es[i]);
      assert AnswersKey(t, cols, types, v, KeyAt(cols, v, es[i].rid), es[i].rid);
    }
  }

  // ---------------------------------------------------------------- the operation

  /** The entry of the record at `rid`. */
  method ReadEntry(file: FileHandle, cols: seq<Column>, types: seq<ColType>, rid: Rid) returns (e: Entry)
    requires file.Valid() && ColsMatch(cols, types) && rid in View(file.State())
      && Covers(cols, View(file.State())[rid])
    ensures e.rid == rid && EntryOf(cols, types, View(file.State()), e)
  {
    ViewHas(file.State(), rid);
    var record := file.GetRecord(rid);
    KeyHasLen(cols, types, record.value);
    var key := BuildKey(cols, record.value);
    e := IndexNode.Entry(Rank(key, types), rid);
  }

  lemma ScanIsEntries(cols: seq<Column>, types: seq<ColType>, v: map<Rid, Bytes>, rs: seq<Rid>, es: seq<Entry>)
    requires Ascends(rs) && (forall r :: r in rs <==> r in v)
    requires |es| == |rs| && forall i | 0 <= i < |rs| :: es[i].rid == rs[i] && EntryOf(cols, types, v, es[i])
    ensures EntriesOf(cols, types, v, es)
  {
    forall r | r in v ensures exists i | 0 <= i < |es| :: es[i].rid == r {
      var i :| 0 <= i < |rs| && rs[i] == r;
      assert es[i].rid == r;
    }
  }

  /** Reads every record the scan comes to and builds its key. */
  method ScanEntries(file: FileHandle, cols: seq<Column>, types: seq<ColType>) returns (es: seq<Entry>)
    requires file.Valid() && ColsMatch(cols, types) && AllCover(cols, View(file.State()))
    ensures EntriesOf(cols, types, View(file.State()), es)
  {
    ghost var v := View(file.State());
    var rs := ScanAll(file);
    es := [];
    for i := 0 to |rs|
      invariant |es| == i && forall j | 0 <= j < i :: es[j].rid == rs[j] && EntryOf(cols, types, v, es[j])
    {
      assert rs[i] in v;
      var e := ReadEntry(file, cols, types, rs[i]);
      es := es + [e];
    }
    ScanIsEntries(cols, types, v, rs, es);
  }

  /** Without repeated keys the index answers like the table exactly when it is in order. */
  lemma CreatedAnswers(t: IndexTree.Tree, cols: seq<Column>, types: seq<ColType>, v: map<Rid, Bytes>, es: seq<Entry>)
    requires IndexSearch.Whole(t) && EntriesOf(cols, types, v, es)
    ensures Unique(cols, v) && IndexBuild.AnswersAs(t, es) ==> Answers(t, cols, types, v)
    ensures Answers(t, cols, types, v) ==> IndexBuild.FindsEach(t, es)
  {
    if Unique(cols, v) && IndexBuild.AnswersAs(t, es) {
      AnswersTable(t, cols, types, v, es);
    }
    if Answers(t, cols, types, v) {
      TableFound(t, cols, types, v, es);
    }
  }

  /** Inserted in this order, the records keep the second leaf from starting below the first separator. */
  predicate Kept(order: int, es: seq<Entry>)
  {
    order > 2 && IndexFirst.Holding(IndexFirst.LeafAfter(es, order + 1, |es|))
  }

  /** What building the index over the entries of a table comes to. */
  ghost predicate BuiltFor(t: IndexTree.Tree, dup: bool, order: int, cols: seq<Column>, types: seq<ColType>,
                           v: map<Rid, Bytes>, es: seq<Entry>)
    requires IndexSearch.Whole(t)
  {
    && (Unique(cols, v) ==> !dup && (Answers(t, cols, types, v) <==> Kept(order, es)))
    && (Kept(order, es) ==> (dup <==> !Unique(cols, v)))
  }

  lemma BuiltTable(t: IndexTree.Tree, dup: bool, order: int, cols: seq<Column>, types: seq<ColType>, v: map<Rid, Bytes>,
                   es: seq<Entry>)
    requires IndexSearch.Whole(t) && EntriesOf(cols, types, v, es)
    requires Kept(order, es) ==> IndexBuild.AnswersAs(t, es) && (dup <==> !IndexLow.DistinctKeys(es))
    requires IndexLow.DistinctKeys(es) ==> !dup && (IndexBuild.FindsEach(t, es) <==> Kept(order, es))
    ensures BuiltFor(t, dup, order, cols, types, v, es)
  {
    TwinsAreShared(cols, types, v, es);
    CreatedAnswers(t, cols, types, v, es);
  }

  /** Inserts the entries of the table into a new index. */
  method Build(order: nat, ghost cols: seq<Column>, ghost types: seq<ColType>, ghost v: map<Rid, Bytes>, es: seq<Entry>)
    returns (ih: IndexHandle.Handle, dup: bool)
    requires order > 2 && EntriesOf(cols, types, v, es)
    ensures fresh(ih) && ih.Valid() && BuiltFor(ih.tree, dup, order, cols, types, v, es)
  {
    ghost var trees;
    ih, dup, trees := IndexBuild.BuildIndex(order, es);
    BuiltTable(ih.tree, dup, order, cols, types, v, es);
  }

  /**
    Creates an index unless its key is too long. A repeated key that an insertion comes upon drops the index again. A
    table without repeated keys always gets its index; the index answers every key with the rid of its record, and all
    other keys with nothing, exactly when its keys, in scan order, keep the order of the index. In that case a repeated
    key is always noticed.
   */
  method Create(file: FileHandle, cols: seq<Column>, types: seq<ColType>) returns (out: Outcome, ghost es: seq<Entry>)
    requires file.Valid() && ColsMatch(cols, types) && AllCover(cols, View(file.State()))
    ensures out.KeyTooLong? <==> KeyLen(types) > IndexHeader.MAX_COL_LEN
    ensures !out.KeyTooLong? ==> EntriesOf(cols, types, View(file.State()), es)
    ensures out.Created? ==> fresh(out.ih) && out.ih.Valid()
    ensures !out.KeyTooLong? && Unique(cols, View(file.State())) ==> out.Created?
    ensures out.Created? && Unique(cols, View(file.State())) ==>
      (Answers(out.ih.tree, cols, types, View(file.State())) <==> Kept(IndexHeader.TreeOrder(KeyLen(types)), es))
    ensures !out.KeyTooLong? && Kept(IndexHeader.TreeOrder(KeyLen(types)), es) ==>
      (out.Created? <==> Unique(cols, View(file.State())))
  {
    if KeyLen(types) > IndexHeader.MAX_COL_LEN {
      return KeyTooLong, [];
    }
    IndexHeader.OrderAtLeast(KeyLen(types));
    ghost var v := View(file.State());
    var entries := ScanEntries(file, cols, types);
    es := entries;
    var ih, dup := Build(IndexHeader.TreeOrder(KeyLen(types)), cols, types, v, entries);
    out := if dup then DuplicateKey else Created(ih);
  }
}
