/** The range scan of the index: from the position of a lower bound to that of an upper bound along the leaf list. */
module IndexScan {
  import opened IndexNode
  import opened IndexTree
  import opened IndexSearch
  import opened IndexHandle

  /**
    `iid` is the place of entry `k` among all entries; `k` may be one past the end. A place at the end of a leaf is
    written as the start of the next leaf, except at the end of the last leaf.
   */
  ghost predicate PlaceOf(t: Tree, iid: Iid, k: nat, a: nat)
  {
    && |t.levels| >= 1 && At(t, 0, a) && a < |t.levels[0].offs|
    && iid.page == Nd(t, 0, a)
    && k == t.levels[0].offs[a] + iid.slot
    && (iid.slot < |Es(t, 0, a)| || (iid.slot == |Es(t, 0, a)| && a + 1 == |t.levels[0].nodes|))
  }

  ghost predicate IsPlace(t: Tree, iid: Iid, k: nat)
  {
    exists a :: PlaceOf(t, iid, k, a)
  }

  /** A position has one place and a place one position. */
  lemma PlaceUnique(t: Tree, iid: Iid, k: nat, a: nat, iid': Iid, k': nat, a': nat)
    requires Whole(t) && PlaceOf(t, iid, k, a) && PlaceOf(t, iid', k', a')
    ensures iid == iid' <==> k == k'
    ensures k == k' ==> a == a'
  {
    if iid == iid' {
      NodesApart(t, 0, a, 0, a');
    }
    if a < a' {
      OffMonotone(t, 0, a, a');
    } else if a' < a {
      OffMonotone(t, 0, a', a);
    }
  }

  lemma PlaceInRange(t: Tree, iid: Iid, k: nat, a: nat)
    requires Whole(t) && PlaceOf(t, iid, k, a)
    ensures k <= |Contents(t)| && (k == |Contents(t)| <==> iid.slot == |Es(t, 0, a)|)
    ensures k < |Contents(t)| ==> Contents(t)[k] == Es(t, 0, a)[iid.slot]
  {
    assert NodeOk(t, 0, a) && LevelOk(t, 0);
    OffMonotone(t, 0, a, |t.levels[0].nodes|);
  }

  /** The end of a leaf that is not the last one is the start of the next leaf in the list. */
  lemma NextLeaf(t: Tree, a: nat)
    requires Whole(t) && At(t, 0, a + 1)
    ensures Nd(t, 0, a) in t.pages && t.pages[Nd(t, 0, a)].next == Nd(t, 0, a + 1)
    ensures a + 1 < |t.levels[0].offs|
    ensures PlaceOf(t, Iid(Nd(t, 0, a + 1), 0), t.levels[0].offs[a] + |Es(t, 0, a)|, a + 1)
  {
    assert Linked(t.pages, t.levels[0].nodes, a);
    assert NodeOk(t, 0, a) && LevelOk(t, 0);
    ManyLeaves(t);
    NodeSize(t, 0, a + 1);
  }

  lemma LastLeaf(t: Tree, a: nat)
    requires Whole(t) && At(t, 0, a)
    ensures Nd(t, 0, a) == t.levels[0].nodes[|t.levels[0].nodes| - 1] <==> a + 1 == |t.levels[0].nodes|
  {
    assert Distinct(t, 0);
  }

  /** The place of the first entry not below `key`. */
  method LowerPlace(ih: Handle, key: Key) returns (iid: Iid, ghost a: nat)
    requires ih.Valid()
    ensures ih.InOrder() ==> PlaceOf(ih.tree, iid, LowerIdx(ih.Entries(), key), a)
    ensures ih.InOrder() ==> IsPlace(ih.tree, iid, LowerIdx(ih.Entries(), key))
  {
    var leaf;
    leaf, a := ih.FindLeafPage(key);
    var pos := LowerBound(ih.pages[leaf], key);
    LastLeaf(ih.tree, a);
    if ih.InOrder() {
      BoundsAgree(ih.tree, key);
    }
    if pos == |ih.pages[leaf].entries| && leaf != ih.last {
      NextLeaf(ih.tree, a);
      iid, a := Iid(ih.pages[leaf].next, 0), a + 1;
    } else {
      iid := Iid(leaf, pos);
    }
    if ih.InOrder() {
      assert PlaceOf(ih.tree, iid, LowerIdx(ih.Entries(), key), a);
    }
  }

  /** The place of the first entry above `key`. */
  method UpperPlace(ih: Handle, key: Key) returns (iid: Iid, ghost a: nat)
    requires ih.Valid()
    ensures ih.InOrder() ==> PlaceOf(ih.tree, iid, UpperIdx(ih.Entries(), key), a)
    ensures ih.InOrder() ==> IsPlace(ih.tree, iid, UpperIdx(ih.Entries(), key))
  {
    var leaf;
    leaf, a := ih.FindLeafPage(key);
    var pos := UpperBound(ih.pages[leaf], key);
    LastLeaf(ih.tree, a);
    if ih.InOrder() {
      BoundsAgree(ih.tree, key);
    }
    if pos == |ih.pages[leaf].entries| && leaf != ih.last {
      NextLeaf(ih.tree, a);
      iid, a := Iid(ih.pages[leaf].next, 0), a + 1;
    } else {
      iid := Iid(leaf, pos);
    }
    if ih.InOrder() {
      assert PlaceOf(ih.tree, iid, UpperIdx(ih.Entries(), key), a);
    }
  }

  /** A cursor over the leaf list. `k` and `a` say which entry it stands at and in which leaf; `e` is where it ends. */
  class IxScan {
    const ih: Handle
    var iid: Iid
    const end: Iid
    ghost var k: nat
    ghost var a: nat
    ghost const e: nat
    ghost const z: nat

    ghost predicate Valid()
      reads this, ih
    {
      && ih.Valid()
      && PlaceOf(ih.tree, iid, k, a)
      && PlaceOf(ih.tree, end, e, z)
      && k <= e
    }

    constructor (ih: Handle, lower: Iid, upper: Iid, ghost k: nat, ghost a: nat, ghost e: nat, ghost z: nat)
      requires ih.Valid() && PlaceOf(ih.tree, lower, k, a) && PlaceOf(ih.tree, upper, e, z) && k <= e
      ensures Valid() && this.ih == ih && this.k == k && this.e == e && iid == lower && end == upper
    {
      this.ih, iid, end := ih, lower, upper;
      this.k, this.a, this.e, this.z := k, a, e, z;
    }

    method IsEnd() returns (r: bool)
      requires Valid()
      ensures r <==> k == e
    {
      r := iid == end;
      PlaceUnique(ih.tree, iid, k, a, end, e, z);
    }

    /** The entry the cursor stands at. */
    method Current() returns (x: Entry)
      requires Valid() && k < e
      ensures k < |ih.Entries()| && x == ih.Entries()[k]
    {
      PlaceInRange(ih.tree, iid, k, a);
      PlaceInRange(ih.tree, end, e, z);
      NodeSize(ih.tree, 0, a);
      x := ih.pages[iid.page].entries[iid.slot];
    }

    /** One entry on, to the next leaf at the end of one. */
    method Next()
      requires Valid() && k < e
      modifies this
      ensures Valid() && k == old(k) + 1
    {
      PlaceInRange(ih.tree, iid, k, a);
      PlaceInRange(ih.tree, end, e, z);
      NodeSize(ih.tree, 0, a);
      LastLeaf(ih.tree, a);
      var node := ih.pages[iid.page];
      iid, k := Iid(iid.page, iid.slot + 1), k + 1;
      if iid.page != ih.last && iid.slot == |node.entries| {
        NextLeaf(ih.tree, a);
        iid, a := Iid(node.next, 0), a + 1;
      }
    }
  }

  /** The entries with keys from `lo` to `hi`. */
  ghost predicate Within(es: seq<Entry>, all: seq<Entry>, lo: Key, hi: Key)
  {
    && Ascending(es)
    && (forall x :: x in es <==> x in all && lo <= x.key <= hi)
  }

  lemma CutAscends(F: seq<Entry>, l: nat, u: nat)
    requires Ascending(F) && l <= u <= |F|
    ensures Ascending(F[l..u])
  {
  }

  lemma CutHas(F: seq<Entry>, lo: Key, hi: Key, x: Entry)
    requires Ascending(F) && LowerIdx(F, lo) <= UpperIdx(F, hi)
    ensures x in F[LowerIdx(F, lo)..UpperIdx(F, hi)] <==> x in F && lo <= x.key <= hi
  {
    var l, u := LowerIdx(F, lo), UpperIdx(F, hi);
    if x in F[l..u] {
      var i :| 0 <= i < u - l && F[l..u][i] == x;
      assert F[l + i] == x;
    }
    if x in F && lo <= x.key <= hi {
      var j :| 0 <= j < |F| && F[j] == x;
      assert l <= j < u;
      assert F[l..u][j - l] == x;
    }
  }

  /**
    In ascending entries the stretch between the two bounds is the range, and the bounds are in order for `lo <= hi`.
   */
  lemma BoundsCut(F: seq<Entry>, lo: Key, hi: Key)
    requires Ascending(F) && lo <= hi
    ensures LowerIdx(F, lo) <= UpperIdx(F, hi) && Within(F[LowerIdx(F, lo)..UpperIdx(F, hi)], F, lo, hi)
  {
    var l, u := LowerIdx(F, lo), UpperIdx(F, hi);
    assert l <= u;
    CutAscends(F, l, u);
    forall x ensures x in F[l..u] <==> x in F && lo <= x.key <= hi {
      CutHas(F, lo, hi, x);
    }
  }

  /** Reads the cursor to its end. */
  method Drain(scan: IxScan) returns (es: seq<Entry>)
    requires scan.Valid()
    modifies scan
    ensures scan.Valid() && scan.k == scan.e
    ensures old(scan.k) <= scan.e <= |scan.ih.Entries()| && es == scan.ih.Entries()[old(scan.k)..scan.e]
  {
    PlaceInRange(scan.ih.tree, scan.end, scan.e, scan.z);
    es := [];
    var done := scan.IsEnd();
    while !done
      invariant scan.Valid() && old(scan.k) <= scan.k && es == scan.ih.Entries()[old(scan.k)..scan.k]
      invariant done <==> scan.k == scan.e
      decreases scan.e - scan.k
    {
      var x := scan.Current();
      es := es + [x];
      scan.Next();
      done := scan.IsEnd();
    }
  }

  /** A whole range scan visits exactly the entries of the range, in ascending order and once each. */
  method RangeScan(ih: Handle, lo: Key, hi: Key) returns (es: seq<Entry>)
    requires ih.Valid() && ih.InOrder() && lo <= hi
    ensures Within(es, ih.Entries(), lo, hi)
  {
    BoundsCut(ih.Entries(), lo, hi);
    var lower, upper; ghost var a, z;
    lower, a := LowerPlace(ih, lo);
    upper, z := UpperPlace(ih, hi);
    var scan := new IxScan(ih, lower, upper, LowerIdx(ih.Entries(), lo), a, UpperIdx(ih.Entries(), hi), z);
    es := Drain(scan);
  }
}
