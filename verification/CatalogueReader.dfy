/** Reading the printed catalogue back. */
module CatalogueReader {
  import opened Catalogue
  import opened CatalogueText

  // ---------------------------------------------------------------- names that can be read back

  ghost predicate ColOk(c: ColMeta)
  {
    IsWord(c.tab) && IsWord(c.name)
  }

  ghost predicate ColsOk(cols: seq<ColMeta>)
  {
    forall i | 0 <= i < |cols| :: ColOk(cols[i])
  }

  ghost predicate IndexOk(ix: IndexMeta)
  {
    IsWord(ix.tab) && ix.colNum == |ix.cols| && ColsOk(ix.cols)
  }

  ghost predicate IndexesOk(ixs: seq<IndexMeta>)
  {
    forall i | 0 <= i < |ixs| :: IndexOk(ixs[i])
  }

  ghost predicate TabOk(t: TabMeta)
  {
    IsWord(t.name) && ColsOk(t.cols) && IndexesOk(t.indexes)
  }

  ghost predicate TabsOk(ts: seq<TabMeta>)
  {
    forall i | 0 <= i < |ts| :: TabOk(ts[i])
  }

  // ---------------------------------------------------------------- the items are well formed

  ghost predicate Follows(items: seq<Item>)
  {
    ItemsOk(items) && (items != [] ==> items[0].sep != "")
  }

  lemma FollowsConcat(a: seq<Item>, b: seq<Item>)
    requires ItemsOk(a) && Follows(b)
    ensures ItemsOk(a + b) && (Follows(a) ==> Follows(a + b))
  {
    forall i | 0 <= i < |a + b|
      ensures IsWord((a + b)[i].word) && IsBlank((a + b)[i].sep) && (i > 0 ==> (a + b)[i].sep != "") {
      if i >= |a| {
        assert (a + b)[i] == b[i - |a|];
      }
    }
  }

  lemma {:induction false} ColsFollow(cols: seq<ColMeta>)
    requires ColsOk(cols)
    ensures Follows(ColsItems(cols))
  {
    if cols != [] {
      assert ColOk(cols[0]);
      ColsFollow(cols[1..]);
      FollowsConcat(ColItems(cols[0], "\n"), ColsItems(cols[1..]));
    }
  }

  lemma {:induction false} IndexesFollow(ixs: seq<IndexMeta>)
    requires IndexesOk(ixs)
    ensures Follows(IndexesItems(ixs))
  {
    if ixs != [] {
      assert IndexOk(ixs[0]);
      IndexesFollow(ixs[1..]);
      ColsFollow(ixs[0].cols);
      FollowsConcat(IndexHead(ixs[0], "\n"), ColsItems(ixs[0].cols));
      FollowsConcat(IndexItems(ixs[0], "\n"), IndexesItems(ixs[1..]));
    }
  }

  lemma TabFollows(t: TabMeta, sep: string)
    requires TabOk(t) && IsBlank(sep) && sep != ""
    ensures Follows(TabItems(t, sep))
  {
    var head, mid := [Item(sep, t.name), Item("\n", Num(|t.cols|))], [Item("\n", Num(|t.indexes|))];
    ColsFollow(t.cols);
    IndexesFollow(t.indexes);
    FollowsConcat(mid, IndexesItems(t.indexes));
    FollowsConcat(ColsItems(t.cols), mid + IndexesItems(t.indexes));
    FollowsConcat(head, ColsItems(t.cols) + (mid + IndexesItems(t.indexes)));
  }

  lemma {:induction false} TabsFollow(ts: seq<TabMeta>, sep: string)
    requires TabsOk(ts) && IsBlank(sep) && sep != ""
    ensures Follows(TabsItems(ts, sep))
  {
    if ts != [] {
      assert TabOk(ts[0]);
      TabFollows(ts[0], sep);
      TabsFollow(ts[1..], "\n\n");
      FollowsConcat(TabItems(ts[0], sep), TabsItems(ts[1..], "\n\n"));
    }
  }

  lemma DbFollows(name: string, ts: seq<TabMeta>)
    requires IsWord(name) && TabsOk(ts)
    ensures ItemsOk(DbItems(name, ts))
  {
    TabsFollow(ts, "\n");
    FollowsConcat([Item("", name), Item("\n", Num(|ts|))], TabsItems(ts, "\n"));
  }

  // ---------------------------------------------------------------- reading

  method ReadCol(input: Reader, ghost c: ColMeta, ghost sep: string, ghost tail: seq<Item>) returns (r: ColMeta)
    requires input.Valid() && input.items == ColItems(c, sep) + tail
    modifies input
    ensures input.Valid() && input.items == tail && input.trail == old(input.trail) && r == c
  {
    var tab := input.Word();
    var name := input.Word();
    var kind := input.Number();
    var len := input.Number();
    var offset := input.Number();
    var flag := input.Number();
    NumRoundTrip(c.kind);
    NumRoundTrip(c.len);
    NumRoundTrip(c.offset);
    NumRoundTrip(Flag(c.index));
    r := ColMeta(tab, name, kind, len, offset, flag != 0);
  }

  lemma ColsSplit(cols: seq<ColMeta>, i: nat, tail: seq<Item>)
    requires i < |cols|
    ensures ColsItems(cols[i..]) + tail == ColItems(cols[i], "\n") + (ColsItems(cols[i + 1..]) + tail)
  {
    assert cols[i..][1..] == cols[i + 1..];
  }

  lemma IndexesSplit(ixs: seq<IndexMeta>, i: nat, tail: seq<Item>)
    requires i < |ixs|
    ensures IndexesItems(ixs[i..]) + tail == IndexItems(ixs[i], "\n") + (IndexesItems(ixs[i + 1..]) + tail)
  {
    assert ixs[i..][1..] == ixs[i + 1..];
  }

  method ReadCols(input: Reader, n: nat, ghost cols: seq<ColMeta>, ghost tail: seq<Item>) returns (r: seq<ColMeta>)
    requires input.Valid() && n == |cols| && input.items == ColsItems(cols) + tail
    modifies input
    ensures input.Valid() && input.items == tail && input.trail == old(input.trail) && r == cols
  {
    r := [];
    var i := 0;
    assert cols[0..] == cols;
    while i < n
      invariant 0 <= i <= n && input.Valid() && input.trail == old(input.trail)
      invariant input.items == ColsItems(cols[i..]) + tail && r == cols[..i]
    {
      ColsSplit(cols, i, tail);
      var c := ReadCol(input, cols[i], "\n", ColsItems(cols[i + 1..]) + tail);
      r := r + [c];
      i := i + 1;
    }
    assert cols[n..] == [];
  }

  method ReadIndex(input: Reader, ghost ix: IndexMeta, ghost tail: seq<Item>) returns (r: IndexMeta)
    requires input.Valid() && IndexOk(ix) && input.items == IndexItems(ix, "\n") + tail
    modifies input
    ensures input.Valid() && input.items == tail && input.trail == old(input.trail) && r == ix
  {
    NumRoundTrip(ix.totLen);
    NumRoundTrip(ix.colNum);
    Grouped(IndexHead(ix, "\n"), ColsItems(ix.cols), tail);
    var tab := input.Word();
    var totLen := input.Number();
    var colNum := input.Number();
    assert input.items == ColsItems(ix.cols) + tail;
    var cols := ReadCols(input, colNum, ix.cols, tail);
    r := IndexMeta(tab, totLen, colNum, cols);
  }

  method ReadIndexes(input: Reader, n: nat, ghost ixs: seq<IndexMeta>, ghost tail: seq<Item>)
    returns (r: seq<IndexMeta>)
    requires input.Valid() && n == |ixs| && IndexesOk(ixs) && input.items == IndexesItems(ixs) + tail
    modifies input
    ensures input.Valid() && input.items == tail && input.trail == old(input.trail) && r == ixs
  {
    r := [];
    var i := 0;
    assert ixs[0..] == ixs;
    while i < n
      invariant 0 <= i <= n && input.Valid() && input.trail == old(input.trail)
      invariant input.items == IndexesItems(ixs[i..]) + tail && r == ixs[..i]
    {
      IndexesSplit(ixs, i, tail);
      var ix := ReadIndex(input, ixs[i], IndexesItems(ixs[i + 1..]) + tail);
      r := r + [ix];
      i := i + 1;
    }
    assert ixs[n..] == [];
  }

  lemma TabSplit(t: TabMeta, sep: string, tail: seq<Item>)
    ensures TabItems(t, sep) + tail
            == [Item(sep, t.name)]
              + ([Item("\n", Num(|t.cols|))]
              + (ColsItems(t.cols) + ([Item("\n", Num(|t.indexes|))] + (IndexesItems(t.indexes) + tail))))
  {
    var name, n, cols := [Item(sep, t.name)], [Item("\n", Num(|t.cols|))], ColsItems(t.cols);
    var m, ixs := [Item("\n", Num(|t.indexes|))], IndexesItems(t.indexes);
    assert [Item(sep, t.name), Item("\n", Num(|t.cols|))] == name + n;
    Grouped(m, ixs, tail);
    Grouped(cols, m + ixs, tail);
    Grouped(name + n, cols + (m + ixs), tail);
    Grouped(name, n, cols + (m + (ixs + tail)));
  }

  lemma Grouped(a: seq<Item>, b: seq<Item>, c: seq<Item>)
    ensures (a + b) + c == a + (b + c)
  {
  }

  method ReadTab(input: Reader, ghost t: TabMeta, ghost sep: string, ghost tail: seq<Item>) returns (r: TabMeta)
    requires input.Valid() && TabOk(t) && input.items == TabItems(t, sep) + tail
    modifies input
    ensures input.Valid() && input.items == tail && input.trail == old(input.trail) && r == t
  {
    TabSplit(t, sep, tail);
    ghost var last := IndexesItems(t.indexes) + tail;
    ghost var mid := [Item("\n", Num(|t.indexes|))] + last;
    var name := input.Word();
    var n := ReadCount(input, |t.cols|, ColsItems(t.cols) + mid);
    var cols := ReadCols(input, n, t.cols, mid);
    n := ReadCount(input, |t.indexes|, last);
    var ixs := ReadIndexes(input, n, t.indexes, tail);
    r := TabMeta(name, cols, ixs);
  }

  /** How many entries follow. */
  method ReadCount(input: Reader, ghost count: nat, ghost tail: seq<Item>) returns (n: nat)
    requires input.Valid() && input.items == [Item("\n", Num(count))] + tail
    modifies input
    ensures input.Valid() && input.items == tail && input.trail == old(input.trail) && n == count
  {
    NumRoundTrip(count);
    var k := input.Number();
    n := k;
  }

  // ---------------------------------------------------------------- the database

  /** `ts` are the tables of the catalogue, in some order, each filed under its name. */
  ghost predicate Lists(db: DbMeta, ts: seq<TabMeta>)
  {
    && (forall i | 0 <= i < |ts| :: ts[i].name in db.tabs && db.tabs[ts[i].name] == ts[i])
    && (forall k | k in db.tabs :: db.tabs[k].name == k && db.tabs[k] in ts)
  }

  ghost function Filed(ts: seq<TabMeta>): map<string, TabMeta>
  {
    if ts == [] then map[] else Filed(ts[..|ts| - 1])[ts[|ts| - 1].name := ts[|ts| - 1]]
  }

  lemma {:induction false} FiledHas(db: DbMeta, ts: seq<TabMeta>)
    requires forall i | 0 <= i < |ts| :: ts[i].name in db.tabs && db.tabs[ts[i].name] == ts[i]
    ensures forall k :: k in Filed(ts) <==> exists i | 0 <= i < |ts| :: ts[i].name == k
    ensures forall k | k in Filed(ts) :: k in db.tabs && Filed(ts)[k] == db.tabs[k]
  {
    if ts != [] {
      var n := |ts| - 1;
      FiledHas(db, ts[..n]);
      forall k ensures k in Filed(ts) <==> exists i | 0 <= i < |ts| :: ts[i].name == k {
        if k in Filed(ts[..n]) {
          var i :| 0 <= i < n && ts[..n][i].name == k;
          assert ts[i].name == k;
        }
        if i :| 0 <= i < |ts| && ts[i].name == k {
          assert i < n ==> ts[..n][i].name == k;
        }
      }
    }
  }

  lemma FiledIs(db: DbMeta, ts: seq<TabMeta>)
    requires Lists(db, ts)
    ensures Filed(ts) == db.tabs
  {
    FiledHas(db, ts);
    forall k | k in db.tabs ensures k in Filed(ts) {
      var i :| 0 <= i < |ts| && ts[i] == db.tabs[k];
      assert ts[i].name == k;
    }
  }

  lemma TabsSplit(ts: seq<TabMeta>, i: nat, sep: string)
    requires i < |ts|
    ensures TabsItems(ts[i..], sep) == TabItems(ts[i], sep) + TabsItems(ts[i + 1..], "\n\n")
    ensures Filed(ts[..i + 1]) == Filed(ts[..i])[ts[i].name := ts[i]]
  {
    assert ts[i..][1..] == ts[i + 1..] && ts[i..][0] == ts[i];
    assert ts[..i + 1][..i] == ts[..i];
  }

  method ReadTabs(input: Reader, n: nat, ghost ts: seq<TabMeta>) returns (r: map<string, TabMeta>)
    requires input.Valid() && n == |ts| && TabsOk(ts) && input.items == TabsItems(ts, "\n")
    modifies input
    ensures r == Filed(ts)
  {
    r := map[];
    var i := 0;
    ghost var sep := "\n";
    assert ts[0..] == ts;
    while i < n
      invariant 0 <= i <= n && input.Valid() && input.items == TabsItems(ts[i..], sep) && r == Filed(ts[..i])
    {
      TabsSplit(ts, i, sep);
      var t := ReadTab(input, ts[i], sep, TabsItems(ts[i + 1..], "\n\n"));
      r := r[t.name := t];
      sep := "\n\n";
      i := i + 1;
    }
    assert ts[..n] == ts;
  }

  /** A printed catalogue reads back as the same catalogue. */
  method ReadDb(text: string, ghost db: DbMeta, ghost ts: seq<TabMeta>) returns (r: DbMeta)
    requires IsWord(db.name) && TabsOk(ts) && Lists(db, ts) && text == EmitDb(db.name, ts)
    ensures r == db
  {
    DbText(db.name, ts);
    DbFollows(db.name, ts);
    FiledIs(db, ts);
    NumRoundTrip(|ts|);
    var input := new Reader(text, DbItems(db.name, ts), if ts == [] then "\n" else "\n\n");
    var name := input.Word();
    var n := input.Number();
    assert input.items == TabsItems(ts, "\n");
    var tabs := ReadTabs(input, n, ts);
    r := DbMeta(name, tabs);
  }
}
