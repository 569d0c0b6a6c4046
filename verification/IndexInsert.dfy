/**
  One insertion into the B+ tree seen as a whole: what it does to the entries, to the order and to every later answer.
 */
module IndexInsert {
  import opened Common
  import opened Sequences
  import opened IndexNode
  import opened IndexTree
  import opened IndexSteps
  import opened IndexSearch

  // ---------------------------------------------------------------- work above the leaves

  /** `t'` has the leaves and the first separator of `t`. */
  ghost predicate SameLeaves(t: Tree, t': Tree)
  {
    && |t.levels| >= 1 && |t'.levels| >= 1
    && t'.levels[0].nodes == t.levels[0].nodes
    && t'.levels[0].flat == t.levels[0].flat
    && (forall a | 0 <= a < |t.levels[0].nodes| ::
      Ents(t'.pages, t.levels[0].nodes[a]) == Ents(t.pages, t.levels[0].nodes[a]))
    && FirstKey(t'.pages, t'.root) == FirstKey(t.pages, t.root)
  }

  lemma PutAbove(t: Tree, i: nat, b: nat, k: nat, e: Entry)
    requires Fits(t, i, b, k, e) && i > 0
    ensures SameLeaves(t, PutTree(t, i, b, k, e))
  {
    PutSame(t, i, b, k, e);
    PutFirstKey(t, i, b, k, e, t.root);
    var L := t.levels[0].nodes;
    forall a | 0 <= a < |L| ensures L[a] != Nd(t, i, b) {
      assert NodeOk(t, 0, a) && NodeOk(t, i, b);
    }
  }

  lemma SplitAbove(t: Tree, i: nat, a: nat)
    requires Full(t, i, a) && i > 0
    ensures SameLeaves(t, SplitTree(t, i, a))
  {
    SplitSame(t, i, a);
    SplitKeeps(t.pages, SplitTree(t, i, a).pages, Nd(t, i, a), t.next);
    assert NodeOk(t, |t.levels| - 1, 0);
    var L := t.levels[0].nodes;
    forall y | 0 <= y < |L| ensures L[y] != Nd(t, i, a) && L[y] != t.next {
      assert NodeOk(t, 0, y) && NodeOk(t, i, a);
    }
  }

  lemma RootAbove(t: Tree)
    requires RootSplit(t)
    ensures SameLeaves(t, RootTree(t))
  {
    RootReady(t);
    RootSame(t);
    var L := t.levels[0].nodes;
    forall y | 0 <= y < |L| ensures L[y] != t.next {
      assert NodeOk(t, 0, y);
    }
  }

  // ---------------------------------------------------------------- the leaf

  /** A new key never becomes the first one of a leaf other than the first, so it fits into its leaf. */
  lemma LeafFits(t: Tree, e: Entry)
    requires Whole(t) && Lookup(t, e.key).None?
    ensures var r := LeafFor(t, e.key); Fits(t, 0, r, LowerIdx(Es(t, 0, r), e.key), e)
  {
    var r := LeafFor(t, e.key);
    LeafForIsRight(t, e.key);
    NodeSize(t, 0, r);
    ManyLeaves(t);
    OffMonotone(t, 0, r, |t.levels[0].nodes|);
  }

  /** The first step of an insertion: the entry joins its leaf. */
  ghost function Put(t: Tree, e: Entry): Tree
    requires Whole(t) && Lookup(t, e.key).None?
  {
    LeafFits(t, e);
    var r := LeafFor(t, e.key);
    PutTree(t, 0, r, LowerIdx(Es(t, 0, r), e.key), e)
  }

  lemma PutShape(t: Tree, e: Entry)
    requires Whole(t) && Lookup(t, e.key).None?
    ensures var r := LeafFor(t, e.key); var t1 := Put(t, e);
            && Shape(t1) && t1.pend.None? && At(t1, 0, r) && Nd(t1, 0, r) == Nd(t, 0, r)
            && t1.levels[0].nodes == t.levels[0].nodes
            && (t1.over == if |Es(t, 0, r)| + 1 == t.max then Nd(t, 0, r) else NO_PAGE)
            && (t1.over != NO_PAGE ==> Full(t1, 0, r))
  {
    LeafFits(t, e);
    var r := LeafFor(t, e.key);
    PutKeepsShape(t, 0, r, LowerIdx(Es(t, 0, r), e.key), e);
    PutSame(t, 0, r, LowerIdx(Es(t, 0, r), e.key), e);
    assert NodeOk(t, 0, r);
  }

  /**
    A finished insertion: the leaf took the entry; if that filled it, it was split and the rest happened above the
    leaves.
   */
  ghost predicate Inserted(t: Tree, e: Entry, t': Tree)
    requires Whole(t) && Lookup(t, e.key).None?
  {
    PutShape(t, e);
    var t1 := Put(t, e);
    if t1.over == NO_PAGE then t' == t1 else SameLeaves(SplitTree(t1, 0, LeafFor(t, e.key)), t')
  }

  // ---------------------------------------------------------------- entries

  lemma InsertMultiset(F: seq<Entry>, o: nat, e: Entry)
    requires o <= |F|
    ensures multiset(InsertAt(F, o, e)) == multiset(F) + multiset{e}
  {
    assert F == F[..o] + F[o..];
    InsertAtSlices(F, o, e);
  }

  /** Where the leaf entries take a new key. */
  ghost function Position(t: Tree, k: Key): (o: nat)
    requires Whole(t)
    ensures o <= |Contents(t)|
  {
    var r := LeafFor(t, k);
    OffMonotone(t, 0, r, |t.levels[0].nodes|);
    t.levels[0].offs[r] + LowerIdx(Es(t, 0, r), k)
  }

  lemma PutFlat(t: Tree, e: Entry)
    requires Whole(t) && Lookup(t, e.key).None?
    ensures |Put(t, e).levels| >= 1 && Contents(Put(t, e)) == InsertAt(Contents(t), Position(t, e.key), e)
  {
    LeafFits(t, e);
    PutSame(t, 0, LeafFor(t, e.key), LowerIdx(Es(t, 0, LeafFor(t, e.key)), e.key), e);
  }

  lemma SplitFlat(t1: Tree, r: nat)
    requires Full(t1, 0, r)
    ensures |SplitTree(t1, 0, r).levels| >= 1 && Contents(SplitTree(t1, 0, r)) == Contents(t1)
  {
    SplitSame(t1, 0, r);
  }

  lemma InsertedFlat(t: Tree, e: Entry, t': Tree)
    requires Whole(t) && Lookup(t, e.key).None? && Inserted(t, e, t') && |t'.levels| >= 1
    ensures Contents(t') == InsertAt(Contents(t), Position(t, e.key), e)
  {
    PutShape(t, e);
    PutFlat(t, e);
    if Put(t, e).over != NO_PAGE {
      SplitFlat(Put(t, e), LeafFor(t, e.key));
    }
  }

  lemma InsertContents(t: Tree, e: Entry, t': Tree)
    requires Whole(t) && Lookup(t, e.key).None? && Inserted(t, e, t') && |t'.levels| >= 1
    ensures multiset(Contents(t')) == multiset(Contents(t)) + multiset{e}
  {
    InsertedFlat(t, e, t');
    InsertMultiset(Contents(t), Position(t, e.key), e);
  }

  /** Ascending entries with one new key at its place ascend. */
  lemma InsertAscends(F: seq<Entry>, e: Entry)
    requires Ascending(F) && Find(F, e.key).None?
    ensures Ascending(InsertAt(F, LowerIdx(F, e.key), e))
  {
    var p := LowerIdx(F, e.key);
    var G := InsertAt(F, p, e);
    forall i, j | 0 <= i < j < |G| ensures G[i].key < G[j].key {
      assert i < p ==> G[i] == F[i];
      assert i > p ==> G[i] == F[i - 1];
      assert j < p ==> G[j] == F[j];
      assert j > p ==> G[j] == F[j - 1];
    }
  }

  lemma InsertHas(F: seq<Entry>, o: nat, e: Entry, q: nat)
    requires o <= |F| && q < |InsertAt(F, o, e)|
    ensures InsertAt(F, o, e)[q] == e || InsertAt(F, o, e)[q] in F
  {
    assert q < o ==> InsertAt(F, o, e)[q] == F[q];
    assert q > o ==> InsertAt(F, o, e)[q] == F[q - 1];
  }

  /** The other answers do not change when a key joins. */
  lemma InsertFinds(F: seq<Entry>, e: Entry, k: Key)
    requires Ascending(F) && Find(F, e.key).None?
    ensures Find(InsertAt(F, LowerIdx(F, e.key), e), k) == if k == e.key then Some(e.rid) else Find(F, k)
  {
    var p := LowerIdx(F, e.key);
    var G := InsertAt(F, p, e);
    InsertAscends(F, e);
    if k == e.key {
      assert G[p] == e;
      FindComplete(G, k, e.rid);
    } else if Find(F, k).Some? {
      var j := LowerIdx(F, k);
      assert G[if j < p then j else j + 1] == F[j];
      FindComplete(G, k, F[j].rid);
    } else {
      forall q | 0 <= q < |G| ensures G[q].key != k {
        InsertHas(F, p, e, q);
        if G[q].key == k {
          FindComplete(F, k, G[q].rid);
        }
      }
    }
  }

  // ---------------------------------------------------------------- the order

  /** The entries of a leaf after `key` has joined them. */
  ghost function Joined(es: seq<Entry>, key: Key): seq<Entry>
  {
    InsertAt(es, LowerIdx(es, key), Entry(key, Rid(0, 0)))
  }

  /**
    The insertion that breaks the order: it fills the first leaf, the tree has an internal root, and the key that
    becomes the new separator is below the root's first separator.
   */
  ghost predicate Lowers(t: Tree, key: Key)
    requires Whole(t)
  {
    && |t.levels| > 1
    && LeafFor(t, key) == 0
    && |Es(t, 0, 0)| + 1 == t.max
    && Joined(Es(t, 0, 0), key)[t.max / 2].key < FirstKey(t.pages, t.root)
  }

  /** A key that is not below the first separator never breaks the order. */
  lemma NotLowered(t: Tree, key: Key)
    requires Whole(t) && Ordered(t) && key >= FirstKey(t.pages, t.root)
    requires forall e | e in Contents(t) :: e.key >= FirstKey(t.pages, t.root)
    ensures !Lowers(t, key)
  {
    if |t.levels| > 1 && LeafFor(t, key) == 0 && |Es(t, 0, 0)| + 1 == t.max {
      var es, m := Es(t, 0, 0), t.max / 2;
      var p := LowerIdx(es, key);
      if m != p {
        FlatAt(t, 0, 0, if m < p then m else m - 1);
      }
    }
  }

  lemma RootNotLeaf(t: Tree, a: nat)
    requires Whole(t) && |t.levels| > 1 && At(t, 0, a)
    ensures Nd(t, 0, a) != t.root
  {
    assert NodeOk(t, 0, a) && NodeOk(t, |t.levels| - 1, 0);
  }

  /** The first separator and the first key of the second leaf after an insertion into a tree with an internal root. */
  lemma SecondLeaf(t: Tree, e: Entry, t': Tree)
    requires Whole(t) && Lookup(t, e.key).None? && Whole(t') && Inserted(t, e, t') && |t.levels| > 1
    ensures FirstKey(t'.pages, t'.root) == FirstKey(t.pages, t.root)
    ensures At(t, 0, 1) && At(t', 0, 1)
    ensures FirstKey(t'.pages, Nd(t', 0, 1))
            == if LeafFor(t, e.key) == 0 && |Es(t, 0, 0)| + 1 == t.max
               then Joined(Es(t, 0, 0), e.key)[t.max / 2].key
               else FirstKey(t.pages, Nd(t, 0, 1))
  {
    var r, t1 := LeafFor(t, e.key), Put(t, e);
    var k := LowerIdx(Es(t, 0, r), e.key);
    LeafFits(t, e);
    PutShape(t, e);
    PutSame(t, 0, r, k, e);
    ManyLeaves(t);
    RootNotLeaf(t, r);
    PutFirstKey(t, 0, r, k, e, t.root);
    assert Distinct(t, 0) && NodeOk(t, 0, r);
    PutFirstKey(t, 0, r, k, e, Nd(t, 0, 1));
    if t1.over != NO_PAGE {
      SecondAfterSplit(t, e, t');
    }
  }

  lemma SecondAfterSplit(t: Tree, e: Entry, t': Tree)
    requires Whole(t) && Lookup(t, e.key).None? && Inserted(t, e, t') && At(t, 0, 1)
    requires Put(t, e).over != NO_PAGE
    ensures var r, t1 := LeafFor(t, e.key), Put(t, e);
            && At(t', 0, 1)
            && FirstKey(t'.pages, t'.root) == FirstKey(t1.pages, t1.root)
            && FirstKey(t'.pages, Nd(t', 0, 1))
               == if r == 0 then Joined(Es(t, 0, 0), e.key)[t.max / 2].key else FirstKey(t1.pages, Nd(t, 0, 1))
  {
    var r, t1 := LeafFor(t, e.key), Put(t, e);
    var k := LowerIdx(Es(t, 0, r), e.key);
    LeafFits(t, e);
    PutShape(t, e);
    PutSame(t, 0, r, k, e);
    SplitSecond(t1, r);
    if r == 0 {
      assert Es(t1, 0, 0) == InsertAt(Es(t, 0, 0), k, e);
      assert Es(t1, 0, 0)[t.max / 2].key == Joined(Es(t, 0, 0), e.key)[t.max / 2].key;
    }
  }

  /** The second leaf after a leaf has been split. */
  lemma SplitSecond(t1: Tree, r: nat)
    requires Full(t1, 0, r) && At(t1, 0, 1) && |Es(t1, 0, r)| == t1.max
    ensures var t2 := SplitTree(t1, 0, r);
            && At(t2, 0, 1) && FirstKey(t2.pages, t2.root) == FirstKey(t1.pages, t1.root)
            && FirstKey(t2.pages, Nd(t2, 0, 1)) == if r == 0 then Es(t1, 0, 0)[t1.max / 2].key
              else FirstKey(t1.pages, Nd(t1, 0, 1))
  {
    var t2 := SplitTree(t1, 0, r);
    SplitSame(t1, 0, r);
    SplitKeeps(t1.pages, t2.pages, Nd(t1, 0, r), t1.next);
    assert NodeOk(t1, |t1.levels| - 1, 0) && NodeOk(t1, 0, 1) && NodeOk(t1, 0, r);
    assert t2.levels[0].nodes[1] == if r == 0 then t1.next else Nd(t1, 0, 1);
    if r == 0 {
      assert Ents(t2.pages, t1.next)[0] == Es(t1, 0, 0)[t1.max / 2];
    }
  }

  /** The index answers as before, except for the new key. */
  ghost predicate AnswersUpdated(t: Tree, t': Tree, e: Entry)
    requires Whole(t) && Whole(t')
  {
    forall k :: Lookup(t', k) == if k == e.key then Some(e.rid) else Lookup(t, k)
  }

  /** The first split of all makes a root whose first separator is the first key. */
  lemma FirstRoot(t: Tree, e: Entry, t': Tree)
    requires Whole(t) && Lookup(t, e.key).None? && Whole(t') && Inserted(t, e, t') && |t.levels| == 1 < |t'.levels|
    ensures FirstKey(t'.pages, t'.root) == FirstKey(t'.pages, Nd(t', 0, 0))
    ensures Contents(t') != [] && FirstKey(t'.pages, t'.root) == Contents(t')[0].key
  {
    var r, t1 := LeafFor(t, e.key), Put(t, e);
    PutShape(t, e);
    assert r == 0 && t1.levels[0].nodes[0] == t1.root;
    if t1.over != NO_PAGE {
      var t2 := SplitTree(t1, 0, 0);
      SplitSame(t1, 0, 0);
      SplitKeeps(t1.pages, t2.pages, t1.root, t1.next);
      assert NodeOk(t1, 0, 0);
      assert Nd(t', 0, 0) == t1.root;
      assert LevelOk(t', 0);
      NodeSize(t', 0, 0);
      FlatAt(t', 0, 0, 0);
    }
  }

  lemma SingleLeaf(t: Tree, e: Entry, t': Tree)
    requires Whole(t) && Lookup(t, e.key).None? && Whole(t') && Inserted(t, e, t') && |t.levels| == 1
    requires Ascending(Contents(t'))
    ensures Ordered(t')
  {
    ManyLeaves(t');
    if |t'.levels| > 1 {
      FirstRoot(t, e, t');
      FirstKeysAscend(t', 0, 1);
    }
  }

  /** The first separator is the smallest key when the root is first split and never changes after that. */
  lemma FirstSeparator(t: Tree, e: Entry, t': Tree)
    requires Whole(t) && Lookup(t, e.key).None? && Whole(t') && Inserted(t, e, t')
    ensures |t.levels| > 1 ==> |t'.levels| > 1 && FirstKey(t'.pages, t'.root) == FirstKey(t.pages, t.root)
    ensures |t.levels| == 1 < |t'.levels| ==> Contents(t') != [] && FirstKey(t'.pages, t'.root) == Contents(t')[0].key
  {
    if |t.levels| > 1 {
      SecondLeaf(t, e, t');
      ManyLeaves(t');
    } else if |t'.levels| > 1 {
      FirstRoot(t, e, t');
    }
  }

  /** The entry lands at its place among all entries. */
  lemma InsertInPlace(t: Tree, e: Entry, t': Tree)
    requires Whole(t) && Ordered(t) && Lookup(t, e.key).None? && Inserted(t, e, t') && |t'.levels| >= 1
    ensures Contents(t') == InsertAt(Contents(t), LowerIdx(Contents(t), e.key), e) && Ascending(Contents(t'))
  {
    InsertedFlat(t, e, t');
    BoundsAgree(t, e.key);
    LookupIsFind(t, e.key);
    InsertAscends(Contents(t), e);
  }

  /** The index stays in order exactly when the insertion does not put a separator below the first one. */
  lemma InsertKeepsOrder(t: Tree, e: Entry, t': Tree)
    requires Whole(t) && Ordered(t) && Lookup(t, e.key).None? && Whole(t') && Inserted(t, e, t')
    ensures Contents(t') == InsertAt(Contents(t), LowerIdx(Contents(t), e.key), e)
    ensures Ascending(Contents(t'))
    ensures Ordered(t') <==> !Lowers(t, e.key)
  {
    InsertInPlace(t, e, t');
    if |t.levels| > 1 {
      SecondLeaf(t, e, t');
      ManyLeaves(t');
    } else {
      SingleLeaf(t, e, t');
    }
  }

  // ---------------------------------------------------------------- answers

  /** Every stored entry can be looked up. */
  ghost predicate AllFound(t: Tree)
    requires Whole(t)
  {
    forall e | e in Contents(t) :: Lookup(t, e.key) == Some(e.rid)
  }

  lemma OrderedFinds(t: Tree)
    requires Whole(t) && Ordered(t)
    ensures AllFound(t)
  {
    forall e | e in Contents(t) ensures Lookup(t, e.key) == Some(e.rid) {
      LookupIsFind(t, e.key);
      FindComplete(Contents(t), e.key, e.rid);
    }
  }

  /** An ascending tree whose second leaf starts below the first separator has lost that leaf's first key. */
  lemma DisorderedLoses(t: Tree)
    requires Whole(t) && Ascending(Contents(t)) && !Ordered(t)
    ensures !AllFound(t)
  {
    ManyLeaves(t);
    NodeSize(t, 0, 1);
    var e := Es(t, 0, 1)[0];
    FlatAt(t, 0, 1, 0);
    assert e in Contents(t);
    DescendFirst(t, |t.levels| - 1, e.key);
    forall s | 0 <= s < |Es(t, 0, 0)| ensures Es(t, 0, 0)[s].key < e.key {
      FlatAt(t, 0, 0, s);
      OffMonotone(t, 0, 0, 1);
    }
  }

  /** The insertions that keep every stored entry within reach are exactly those that keep the order. */
  lemma InsertFindsAll(t: Tree, e: Entry, t': Tree)
    requires Whole(t) && Ordered(t) && Lookup(t, e.key).None? && Whole(t') && Inserted(t, e, t')
    ensures Ordered(t') <==> !Lowers(t, e.key)
    ensures AllFound(t') <==> !Lowers(t, e.key)
  {
    InsertKeepsOrder(t, e, t');
    if Ordered(t') {
      OrderedFinds(t');
    } else {
      DisorderedLoses(t');
    }
  }

  /** The answers after an insertion into an index that stays in order. */
  lemma InsertAnswers(t: Tree, e: Entry, t': Tree, k: Key)
    requires Whole(t) && Ordered(t) && Lookup(t, e.key).None? && Whole(t') && Inserted(t, e, t') && Ordered(t')
    ensures Lookup(t', k) == if k == e.key then Some(e.rid) else Lookup(t, k)
  {
    InsertKeepsOrder(t, e, t');
    LookupIsFind(t, e.key);
    LookupIsFind(t, k);
    LookupIsFind(t', k);
    InsertFinds(Contents(t), e, k);
  }
}
