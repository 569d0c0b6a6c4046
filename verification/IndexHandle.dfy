/** The B+ tree index: an empty one, insertion with its splits, the two searches and the scan over the leaf list. */
module IndexHandle {
  import opened Common
  import opened Sequences
  import opened IndexNode
  import opened IndexTree
  import opened IndexSteps
  import opened IndexSearch
  import opened IndexInsert

  /** A position in the leaf list. */
  datatype Iid = Iid(page: int, slot: nat)

  class Handle {
    var pages: Pages
    var root: int
    var next: int   // number of the next page the file hands out
    var last: int   // last leaf
    const first: int
    const max: nat  // one more than the order of the tree
    ghost var tree: Tree

    /** The ghost tree is about these pages. */
    ghost predicate Synced()
      reads this
    {
      tree.pages == pages && tree.root == root && tree.next == next && tree.max == max
    }

    ghost predicate Valid()
      reads this
    {
      && Synced()
      && Whole(tree)
      && first == tree.levels[0].nodes[0]
      && last == tree.levels[0].nodes[|tree.levels[0].nodes| - 1]
    }

    ghost function Entries(): seq<Entry>
      reads this
      requires Valid()
    {
      Contents(tree)
    }

    ghost predicate InOrder()
      reads this
      requires Valid()
    {
      Ordered(tree)
    }

    ghost function Answer(k: Key): Option<Rid>
      reads this
      requires Valid()
    {
      Lookup(tree, k)
    }

    /** An index file as it is created: the leaf list header and one empty leaf that is the root. */
    constructor (order: nat)
      requires order > 2
      ensures Valid() && InOrder() && Entries() == [] && max == order + 1
    {
      pages := map[LEAF_HEADER := Node(NO_PAGE, true, FIRST_NODE, FIRST_NODE, []),
                   FIRST_NODE := Node(NO_PAGE, true, LEAF_HEADER, LEAF_HEADER, [])];
      root, last, first, next, max := FIRST_NODE, FIRST_NODE, FIRST_NODE, FIRST_NODE + 1, order + 1;
      tree := Tree(map[LEAF_HEADER := Node(NO_PAGE, true, FIRST_NODE, FIRST_NODE, []),
                       FIRST_NODE := Node(NO_PAGE, true, LEAF_HEADER, LEAF_HEADER, [])],
                   [Level([FIRST_NODE], [FIRST_NODE], [], [0, 0])], map[FIRST_NODE := 0], None, NO_PAGE,
                   FIRST_NODE, FIRST_NODE + 1, order + 1);
      new;
      assert NodeOk(tree, 0, 0);
    }

    // -------------------------------------------------------------- page updates

    method CreateNode() returns (q: int)
      modifies `pages, `next
      ensures q == old(next) && next == q + 1
      ensures pages == old(pages)[q := Node(0, false, 0, 0, [])]
    {
      q := next;
      next := next + 1;
      pages := pages[q := Node(0, false, 0, 0, [])];
    }

    /** Tells the children named by the entries of `q` who their parent is. */
    method MaintainChildren(q: int)
      requires q in pages
      requires forall s | 0 <= s < |pages[q].entries| :: pages[q].entries[s].rid.page in pages
      modifies `pages
      ensures pages == SetParents(old(pages), old(pages[q].entries), q)
    {
      ghost var was := pages;
      var es := pages[q].entries;
      var i := 0;
      while i < |es|
        invariant 0 <= i <= |es|
        invariant pages == SetParents(was, es[..i], q)
      {
        var c := es[i].rid.page;
        AmongNext(es, i);
        pages := pages[c := pages[c].(parent := q)];
        i := i + 1;
        assert pages == SetParents(was, es[..i], q);
      }
      assert es[..i] == es;
    }

    static lemma AmongNext(es: seq<Entry>, i: nat)
      requires i < |es|
      ensures forall c :: Among(es[..i + 1], c) <==> Among(es[..i], c) || c == es[i].rid.page
    {
      forall c ensures Among(es[..i + 1], c) <==> Among(es[..i], c) || c == es[i].rid.page {
        if Among(es[..i], c) {
          var u :| 0 <= u < i && es[..i][u].rid.page == c;
          assert es[..i + 1][u].rid.page == c;
        }
        if Among(es[..i + 1], c) && c != es[i].rid.page {
          var u :| 0 <= u < i + 1 && es[..i + 1][u].rid.page == c;
          assert es[..i][u].rid.page == c;
        }
        assert es[..i + 1][i] == es[i];
      }
    }

    /** A leaf and its new right neighbour; the leaf after them learns who precedes it now. */
    method LinkLeaf(p: int, q: int)
      requires p in pages && q in pages && p != q && pages[p].next in pages && pages[p].next != p && pages[p].next != q
      modifies `pages
      ensures pages == old(pages)[q := old(pages)[q].(prev := p, next := old(pages)[p].next)]
                       [old(pages)[p].next := old(pages)[old(pages)[p].next].(prev := q)]
                       [p := old(pages)[p].(next := q)]
    {
      var after := pages[p].next;
      pages := pages[q := pages[q].(prev := p, next := after)];
      pages := pages[after := pages[after].(prev := q)];
      pages := pages[p := pages[p].(next := q)];
    }

    /** The upper half of page `p` moves to a new page right of it. */
    method SplitPage(p: int) returns (q: int)
      requires p in pages && next !in pages
      requires pages[p].isLeaf ==> pages[p].next in pages && pages[p].next != p
      requires !pages[p].isLeaf ==> forall s | 0 <= s < |pages[p].entries| :: pages[p].entries[s].rid.page in pages
      modifies `pages, `next
      ensures q == old(next) && next == q + 1
      ensures pages == SplitPages(old(pages), p, q)
    {
      var node := pages[p];
      q := CreateNode();
      var mid := |node.entries| / 2;
      pages := pages[q := Node(node.parent, node.isLeaf, 0, 0, node.entries[mid..])];
      pages := pages[p := pages[p].(entries := node.entries[..mid])];
      assert pages == old(pages)[q := Node(node.parent, node.isLeaf, 0, 0, node.entries[mid..])]
                      [p := node.(entries := node.entries[..mid])];
      if node.isLeaf {
        LinkLeaf(p, q);
        assert pages == SplitLeaf(old(pages), p, q);
      } else {
        assert pages[q].entries == node.entries[mid..];
        MaintainChildren(q);
      }
    }

    /** One pair enters a page at `pos`, through its two arrays. */
    method InsertPair(p: int, pos: nat, e: Entry)
      requires p in pages && pos <= |pages[p].entries|
      modifies `pages
      ensures pages == PutEntry(old(pages), p, pos, e)
    {
      var es := pages[p].entries;
      InsertAtSlices(es, pos, e);
      var page := new NodePage(|es| + 1);
      page.InsertPairs(0, es);
      assert page.Entries() == es;
      page.InsertPairs(pos, [e]);
      pages := pages[p := pages[p].(entries := page.Entries())];
    }

    /** A new root with the two halves of the old one as its children. */
    method CreateRoot(oldPage: int, key: Key, newPage: int)
      requires oldPage in pages && newPage in pages && oldPage != newPage && next !in pages
      requires pages[oldPage].entries != [] && key == FirstKey(pages, newPage)
      modifies `pages, `next, `root
      ensures root == old(next) && next == root + 1
      ensures pages == NewRoot(old(pages), oldPage, newPage, root)
    {
      var r := CreateNode();
      root := r;
      var entries := [Entry(pages[oldPage].entries[0].key, Rid(oldPage, -1))] + [Entry(key, Rid(newPage, -1))];
      assert entries == [Entry(FirstKey(old(pages), oldPage), Rid(oldPage, -1)), Entry(key, Rid(newPage, -1))];
      pages := pages[r := Node(NO_PAGE, false, NO_PAGE, NO_PAGE, entries)];
      pages := pages[oldPage := pages[oldPage].(parent := r)];
      pages := pages[newPage := pages[newPage].(parent := r)];
      assert pages == NewRoot(old(pages), oldPage, newPage, r);
    }

    // -------------------------------------------------------------- insertion above the leaves

    /** Splits a full page. */
    method Split(p: int, ghost i: nat, ghost a: nat) returns (q: int)
      requires Synced() && Full(tree, i, a) && p == Nd(tree, i, a)
      modifies `pages, `next, `tree
      ensures q == old(next)
      ensures Synced() && tree == SplitTree(old(tree), i, a) && Shape(tree)
    {
      SplitReady(tree, i, a);
      SplitKeepsShape(tree, i, a);
      tree := SplitTree(tree, i, a);
      q := SplitPage(p);
    }

    /** A page is the root exactly when it has no parent. */
    lemma RootTest()
      requires Shape(tree) && tree.pend.Some?
      ensures var (i, a) := tree.pend.value;
              && At(tree, i, a + 1) && Nd(tree, i, a) in tree.pages && Nd(tree, i, a + 1) in tree.pages
              && (ParentOf(tree.pages, Nd(tree, i, a)) == NO_PAGE <==> i + 1 == |tree.levels|)
    {
      var (i, a) := tree.pend.value;
      assert LevelOk(tree, i) && NodeOk(tree, i, a) && NodeOk(tree, i, a + 1);
      if i + 1 < |tree.levels| {
        var b, s := PendingParent(tree);
        assert NodeOk(tree, i + 1, b);
      }
    }

    method GrowRoot(oldPage: int, key: Key, newPage: int)
      requires Synced() && Shape(tree) && tree.over == NO_PAGE && tree.pend.Some?
        && tree.pend.value.0 + 1 == |tree.levels|
      requires At(tree, tree.pend.value.0, tree.pend.value.1 + 1)
      requires oldPage == Nd(tree, tree.pend.value.0, tree.pend.value.1)
      requires newPage == Nd(tree, tree.pend.value.0, tree.pend.value.1 + 1)
      requires key == FirstKey(pages, newPage)
      modifies `pages, `next, `tree, `root
      ensures Synced() && Whole(tree) && SameLeaves(old(tree), tree)
    {
      RootReady(tree);
      RootKeepsShape(tree);
      RootAbove(tree);
      tree := RootTree(tree);
      CreateRoot(oldPage, key, newPage);
    }

    /** The parent takes the separator of the new page right after the slot of the split page. */
    method AddToParent(parent: int, oldPage: int, key: Key, newPage: int, ghost b: nat, ghost s: nat)
      requires Synced() && tree.pend.Some? && Fits(tree, tree.pend.value.0 + 1, b, s + 1, Entry(key, Rid(newPage, -1)))
      requires parent == Nd(tree, tree.pend.value.0 + 1, b) && s < |Es(tree, tree.pend.value.0 + 1, b)|
      requires Es(tree, tree.pend.value.0 + 1, b)[s].rid.page == oldPage
      modifies `pages, `tree
      ensures Synced() && Shape(tree) && SameLeaves(old(tree), tree)
      ensures tree == PutTree(old(tree), old(tree).pend.value.0 + 1, b, s + 1, Entry(key, Rid(newPage, -1)))
      ensures parent in pages && tree.over == if |pages[parent].entries| >= max then parent else NO_PAGE
    {
      ghost var i := tree.pend.value.0 + 1;
      ghost var e := Entry(key, Rid(newPage, -1));
      ParentPut(tree, i, b, s + 1, e);
      var pos := FindChild(pages[parent], oldPage);
      KidsApart(tree, i, b, pos, b, s);
      tree := PutTree(tree, i, b, s + 1, e);
      InsertPair(parent, pos + 1, Entry(key, Rid(newPage, -1)));
    }

    /** Names the new page in the parent of the split one, splitting upwards as far as needed. */
    method InsertIntoParent(oldPage: int, key: Key, newPage: int)
      requires Synced() && Shape(tree) && tree.over == NO_PAGE && tree.pend.Some?
      requires At(tree, tree.pend.value.0, tree.pend.value.1 + 1)
      requires oldPage == Nd(tree, tree.pend.value.0, tree.pend.value.1)
      requires newPage == Nd(tree, tree.pend.value.0, tree.pend.value.1 + 1)
      requires key == FirstKey(pages, newPage)
      modifies `pages, `next, `tree, `root
      ensures Synced() && Whole(tree) && SameLeaves(old(tree), tree)
      decreases |tree.levels| - tree.pend.value.0, 0
    {
      RootTest();
      if pages[oldPage].parent == NO_PAGE {
        GrowRoot(oldPage, key, newPage);
      } else {
        var parent := pages[oldPage].parent;
        ghost var i := tree.pend.value.0 + 1;
        ghost var b, s := PendingParent(tree);
        AddToParent(parent, oldPage, key, newPage, b, s);
        if |pages[parent].entries| >= max {
          SplitUp(parent, i, b);
        }
      }
    }

    method SplitUp(parent: int, ghost i: nat, ghost b: nat)
      requires Synced() && 0 < i && Full(tree, i, b) && parent == Nd(tree, i, b)
      modifies `pages, `next, `tree, `root
      ensures Synced() && Whole(tree) && SameLeaves(old(tree), tree)
      decreases |tree.levels| - i, 1
    {
      SplitAbove(tree, i, b);
      SplitSame(tree, i, b);
      SplitNonEmpty(tree, i, b);
      var q := Split(parent, i, b);
      InsertIntoParent(parent, pages[q].entries[0].key, q);
    }

    // -------------------------------------------------------------- searching

    /** Follows the separators from the root to a leaf. */
    method FindLeafPage(key: Key) returns (p: int, ghost r: nat)
      requires Valid()
      ensures r == LeafFor(tree, key) && p == Nd(tree, 0, r) && p in pages
    {
      p := root;
      ghost var i, j := |tree.levels| - 1, 0;
      NodeSize(tree, i, j);
      while !pages[p].isLeaf
        invariant 0 <= i && 0 <= j && At(tree, i, j) && p == Nd(tree, i, j) && p in pages
          && (pages[p].isLeaf <==> i == 0)
        invariant Descend(tree, i, j, key) == LeafFor(tree, key)
        decreases i
      {
        NodeSize(tree, i, j);
        Child(tree, i, j, ChildSlot(Es(tree, i, j), key));
        p := InternalLookup(pages[p], key);
        i, j := i - 1, Step(tree, i, j, key);
        NodeSize(tree, i, j);
      }
      r := j;
    }

    /** In an index that is in order the answer is the rid stored under the key, if there is one. */
    method GetValue(key: Key) returns (value: Option<Rid>)
      requires Valid()
      ensures value == Answer(key)
      ensures InOrder() ==> forall rid :: value == Some(rid) <==> Entry(key, rid) in Entries()
    {
      var leaf; ghost var r;
      leaf, r := FindLeafPage(key);
      value := LeafLookup(pages[leaf], key);
      if InOrder() {
        LookupIsFind(tree, key);
        forall rid | Entry(key, rid) in Entries() ensures value == Some(rid) {
          FindComplete(Entries(), key, rid);
        }
      }
    }

    // -------------------------------------------------------------- insertion

    /** Splits a full leaf and names the new one above. */
    method SplitFullLeaf(leaf: int, ghost r: nat) returns (q: int)
      requires Synced() && Full(tree, 0, r) && leaf == Nd(tree, 0, r)
      modifies `pages, `next, `tree, `root
      ensures q == old(next)
      ensures Synced() && Whole(tree) && SameLeaves(SplitTree(old(tree), 0, r), tree)
      ensures tree.levels[0].nodes == InsertAt(old(tree).levels[0].nodes, r + 1, q)
    {
      SplitSame(tree, 0, r);
      SplitNonEmpty(tree, 0, r);
      q := Split(leaf, 0, r);
      InsertIntoParent(leaf, pages[q].entries[0].key, q);
    }

    /** Puts the entry into its leaf; `full` tells that the leaf must be split. */
    method PutInLeaf(leaf: int, pos: nat, key: Key, rid: Rid, ghost r: nat) returns (full: bool)
      requires Synced() && Whole(tree) && Lookup(tree, key).None?
      requires r == LeafFor(tree, key) && leaf == Nd(tree, 0, r) && leaf in pages
      requires pos == LowerIdx(pages[leaf].entries, key)
      modifies `pages, `tree
      ensures Synced() && tree == Put(old(tree), Entry(key, rid))
      ensures tree.levels[0].nodes == old(tree).levels[0].nodes && NoDup(tree.levels[0].nodes)
      ensures full ==> Full(tree, 0, r) && leaf == Nd(tree, 0, r)
      ensures !full ==> Whole(tree)
    {
      LeafPut(tree, Entry(key, rid));
      tree := Put(tree, Entry(key, rid));
      InsertPair(leaf, pos, Entry(key, rid));
      full := |pages[leaf].entries| == max;
    }

    /** Splits a full leaf; the end of the leaf list moves if it was the last one. */
    method SplitAndLink(leaf: int, ghost r: nat)
      requires Synced() && Full(tree, 0, r) && leaf == Nd(tree, 0, r) && NoDup(tree.levels[0].nodes)
      requires first == tree.levels[0].nodes[0] && last == tree.levels[0].nodes[|tree.levels[0].nodes| - 1]
      modifies this
      ensures Valid() && SameLeaves(SplitTree(old(tree), 0, r), tree)
    {
      var q := SplitFullLeaf(leaf, r);
      LastAfter(old(tree).levels[0].nodes, r, q);
      if last == leaf {
        last := q;
      }
    }

    /** Puts the entry into its leaf and repairs the tree. */
    method AddEntry(leaf: int, pos: nat, key: Key, rid: Rid, ghost r: nat)
      requires Valid() && Answer(key).None?
      requires r == LeafFor(tree, key) && leaf == Nd(tree, 0, r) && leaf in pages
      requires pos == LowerIdx(pages[leaf].entries, key)
      modifies this
      ensures Valid()
      ensures Inserted(old(tree), Entry(key, rid), tree)
    {
      var full := PutInLeaf(leaf, pos, key, rid, r);
      if full {
        SplitAndLink(leaf, r);
        InsertedBySplit(old(tree), Entry(key, rid), tree);
      } else {
        InsertedPlainly(old(tree), Entry(key, rid));
      }
    }

    /**
      Adds an entry unless its key is in the leaf it belongs to. The shape of the tree
      survives every insertion; the order survives exactly the insertions that do not
      put a separator below the first one, and the other ones lose a key.
     */
    method InsertEntry(key: Key, rid: Rid) returns (ok: bool)
      requires Valid()
      modifies this
      ensures Valid()
      ensures ok <==> old(Answer(key)).None?
      ensures !ok ==>
        pages == old(pages) && root == old(root) && next == old(next) && last == old(last) && tree == old(tree)
      ensures ok ==> Inserted(old(tree), Entry(key, rid), tree)
      ensures ok ==> multiset(Entries()) == multiset(old(Entries())) + multiset{Entry(key, rid)}
      ensures ok && |old(tree).levels| > 1 ==> |tree.levels| > 1 && FirstKey(pages, root) == old(FirstKey(pages, root))
      ensures ok && |old(tree).levels| == 1 < |tree.levels| ==>
        Entries() != [] && FirstKey(pages, root) == Entries()[0].key
      ensures ok && old(InOrder()) ==> Ascending(Entries())
      ensures ok && old(InOrder()) ==> (InOrder() <==> !Lowers(old(tree), key))
      ensures ok && old(InOrder()) ==> (AllFound(tree) <==> !Lowers(old(tree), key))
      ensures ok && old(InOrder()) && InOrder() ==> AnswersUpdated(old(tree), tree, Entry(key, rid))
    {
      var leaf; ghost var r;
      leaf, r := FindLeafPage(key);
      var pos := LowerBound(pages[leaf], key);
      if pos != |pages[leaf].entries| && pages[leaf].entries[pos].key == key {
        return false;
      }
      ghost var t, e := tree, Entry(key, rid);
      AddEntry(leaf, pos, key, rid, r);
      ok := true;
      InsertContents(t, e, tree);
      FirstSeparator(t, e, tree);
      if Ordered(t) {
        InsertKeepsOrder(t, e, tree);
        InsertFindsAll(t, e, tree);
        if InOrder() {
          forall k ensures Lookup(tree, k) == if k == key then Some(rid) else Lookup(t, k) {
            InsertAnswers(t, e, tree, k);
          }
        }
      }
    }
  }

  lemma LastAfter(L: seq<int>, r: nat, q: int)
    requires NoDup(L) && r < |L|
    ensures var L' := InsertAt(L, r + 1, q); L'[0] == L[0] && L'[|L|] == if L[|L| - 1] == L[r] then q else L[|L| - 1]
  {
  }

  /** The parent after it has taken the entry of the new page. */
  lemma ParentPut(t: Tree, i: nat, b: nat, k: nat, e: Entry)
    requires Fits(t, i, b, k, e) && i > 0
    ensures var p := Nd(t, i, b); var t' := PutTree(t, i, b, k, e);
            && p in t.pages && k <= |t.pages[p].entries| < t.max && t'.pages == PutEntry(t.pages, p, k, e)
            && t'.root == t.root && t'.next == t.next && t'.max == t.max
            && t'.over == (if |t.pages[p].entries| + 1 == t.max then p else NO_PAGE)
            && Shape(t') && SameLeaves(t, t')
  {
    PutKeepsShape(t, i, b, k, e);
    PutAbove(t, i, b, k, e);
    assert NodeOk(t, i, b);
  }

  /** The leaf after it has taken the entry. */
  lemma LeafPut(t: Tree, e: Entry)
    requires Whole(t) && Lookup(t, e.key).None?
    ensures var r := LeafFor(t, e.key); var p := Nd(t, 0, r); var t1 := Put(t, e);
            && p in t.pages && LowerIdx(t.pages[p].entries, e.key) <= |t.pages[p].entries|
            && t1.pages == PutEntry(t.pages, p, LowerIdx(t.pages[p].entries, e.key), e)
            && t1.root == t.root && t1.next == t.next && t1.max == t.max
            && t1.levels[0].nodes == t.levels[0].nodes && NoDup(t.levels[0].nodes)
            && if |t.pages[p].entries| + 1 == t.max then Full(t1, 0, r) else Whole(t1) && t1.over == NO_PAGE
  {
    PutShape(t, e);
    NodeSize(t, 0, LeafFor(t, e.key));
    assert Distinct(t, 0) && NodeOk(t, 0, LeafFor(t, e.key));
  }

  lemma InsertedBySplit(t: Tree, e: Entry, t': Tree)
    requires Whole(t) && Lookup(t, e.key).None? && Full(Put(t, e), 0, LeafFor(t, e.key))
    requires SameLeaves(SplitTree(Put(t, e), 0, LeafFor(t, e.key)), t')
    ensures Inserted(t, e, t')
  {
    assert NodeOk(Put(t, e), 0, LeafFor(t, e.key));
  }

  lemma InsertedPlainly(t: Tree, e: Entry)
    requires Whole(t) && Lookup(t, e.key).None? && Put(t, e).over == NO_PAGE
    ensures Inserted(t, e, Put(t, e))
  {
  }

  lemma SplitNonEmpty(t: Tree, i: nat, a: nat)
    requires Full(t, i, a)
    ensures var t' := SplitTree(t, i, a);
            && t.next in t'.pages && t'.pages[t.next].entries != []
            && At(t', i, a + 1) && Nd(t', i, a) == Nd(t, i, a) && Nd(t', i, a + 1) == t.next
            && t'.over == NO_PAGE && t'.pend == Some((i, a)) && |t'.levels| == |t.levels|
  {
    SplitSame(t, i, a);
  }
}
