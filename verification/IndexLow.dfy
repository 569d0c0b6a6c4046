/** An index that has lost its order does not get it back. */
module IndexLow {
  import opened Sequences
  import opened IndexNode
  import opened IndexTree
  import opened IndexSearch
  import opened IndexInsert
  import opened IndexFirst

  /** The second leaf starts below the first separator, and so does everything in the first leaf. */
  ghost predicate Low(t: Tree)
  {
    && Whole(t) && |t.levels| > 1 && At(t, 0, 1)
    && FirstKey(t.pages, Nd(t, 0, 1)) < FirstKey(t.pages, t.root)
    && LowLeaf(t, FirstKey(t.pages, t.root))
  }

  /** The keys of the first leaf are below `sep`. */
  ghost predicate LowLeaf(t: Tree, sep: Key)
  {
    At(t, 0, 0) && forall s | 0 <= s < |Es(t, 0, 0)| :: Es(t, 0, 0)[s].key < sep
  }

  /** Off the left edge the descent does not come back to the first leaf. */
  lemma {:induction false} DescendRight(t: Tree, i: nat, j: nat, k: Key)
    requires Whole(t) && At(t, i, j) && 0 < j
    ensures Descend(t, i, j, k) > 0
  {
    if i > 0 {
      NodeSize(t, i, 0);
      OffMonotone(t, i, 0, j);
      DescendRight(t, i - 1, Step(t, i, j, k), k);
    }
  }

  /** A key that is not below the first separator passes by the first leaf. */
  lemma {:induction false} DescendPast(t: Tree, i: nat, k: Key)
    requires Low(t) && 0 < i < |t.levels| && FirstKey(t.pages, t.root) <= k && At(t, i, 0)
    ensures Descend(t, i, 0, k) > 0
  {
    var es := Es(t, i, 0);
    NodeSize(t, i, 0);
    FirstSep(t, i);
    assert LevelOk(t, i);
    assert es[0].key <= k;
    if i == 1 {
      Child(t, 1, 0, 1);
      assert es[1].key <= k;
      assert UpperIdx(es, k) >= 2;
    }
    var c := Step(t, i, 0, k);
    if c > 0 {
      DescendRight(t, i - 1, c, k);
    } else {
      DescendPast(t, i - 1, k);
    }
  }

  lemma PastFirst(t: Tree, k: Key)
    requires Low(t) && LeafFor(t, k) == 0
    ensures k < FirstKey(t.pages, t.root)
  {
    if k >= FirstKey(t.pages, t.root) {
      DescendPast(t, |t.levels| - 1, k);
    }
  }

  /** What the first leaf holds after an insertion: what it held, and the new entry if it went there. */
  lemma FirstLeafAfter(t: Tree, e: Entry, t': Tree, sep: Key)
    requires Whole(t) && Lookup(t, e.key).None? && Whole(t') && Inserted(t, e, t')
    requires LowLeaf(t, sep) && (LeafFor(t, e.key) == 0 ==> e.key < sep)
    ensures LowLeaf(t', sep)
  {
    FirstLeafIs(t, e, t');
    var es := Es(t, 0, 0);
    var o := LowerIdx(es, e.key);
    if LeafFor(t, e.key) == 0 {
      forall s | 0 <= s < |InsertAt(es, o, e)| ensures InsertAt(es, o, e)[s].key < sep {
        InsertHas(es, o, e, s);
      }
    }
  }

  /** The insertion that breaks the order makes the index low. */
  lemma LowersMakesLow(t: Tree, e: Entry, t': Tree)
    requires Whole(t) && Ordered(t) && Lookup(t, e.key).None? && Whole(t') && Inserted(t, e, t') && Lowers(t, e.key)
    ensures Low(t')
  {
    SecondLeaf(t, e, t');
    InsertKeepsOrder(t, e, t');
    NodeSize(t', 0, 0);
    NodeSize(t', 0, 1);
    FlatAt(t', 0, 1, 0);
    OffMonotone(t', 0, 0, 1);
    forall s | 0 <= s < |Es(t', 0, 0)| ensures Es(t', 0, 0)[s].key < FirstKey(t'.pages, Nd(t', 0, 1)) {
      FlatAt(t', 0, 0, s);
    }
  }

  /** An index that is low stays low. */
  lemma StaysLow(t: Tree, e: Entry, t': Tree)
    requires Low(t) && Lookup(t, e.key).None? && Whole(t') && Inserted(t, e, t')
    ensures Low(t')
  {
    var sep := FirstKey(t.pages, t.root);
    if LeafFor(t, e.key) == 0 {
      PastFirst(t, e.key);
    }
    SecondLeaf(t, e, t');
    FirstLeafAfter(t, e, t', sep);
    ManyLeaves(t');
    if LeafFor(t, e.key) == 0 && |Es(t, 0, 0)| + 1 == t.max {
      JoinedLow(Es(t, 0, 0), e.key, sep);
    }
  }

  lemma JoinedLow(es: seq<Entry>, key: Key, sep: Key)
    requires key < sep && forall s | 0 <= s < |es| :: es[s].key < sep
    ensures forall s | 0 <= s < |Joined(es, key)| :: Joined(es, key)[s].key < sep
  {
  }

  /** A low index is not in order. */
  lemma LowNotOrdered(t: Tree)
    requires Low(t)
    ensures !Ordered(t)
  {
  }

  ghost predicate DistinctKeys(F: seq<Entry>)
  {
    forall i, j | 0 <= i < j < |F| :: F[i].key != F[j].key
  }

  /** A low index that holds no key twice has lost the first key of its second leaf. */
  lemma LowLoses(t: Tree)
    requires Low(t) && DistinctKeys(Contents(t))
    ensures !AllFound(t)
  {
    NodeSize(t, 0, 1);
    NodeSize(t, 0, 0);
    var e := Es(t, 0, 1)[0];
    FlatAt(t, 0, 1, 0);
    assert e in Contents(t);
    DescendFirst(t, |t.levels| - 1, e.key);
    OffMonotone(t, 0, 0, 1);
    var s := LowerIdx(Es(t, 0, 0), e.key);
    if s < |Es(t, 0, 0)| {
      FlatAt(t, 0, 0, s);
    }
    assert Lookup(t, e.key).None?;
  }
}
