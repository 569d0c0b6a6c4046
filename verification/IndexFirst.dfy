/**
  What an index keeps depends on its first leaf alone. The first leaf, the first separator and the first key of the
  second leaf after any insertions can be computed from the keys, without the tree.
 */
module IndexFirst {
  import opened Common
  import opened Sequences
  import opened IndexNode
  import opened IndexTree
  import opened IndexSteps
  import opened IndexSearch
  import opened IndexInsert

  /** Once the root is internal: its first separator, and the first key of the second leaf. */
  datatype Edge = Edge(sep: Key, bound: Key)

  datatype FirstLeaf = FirstLeaf(entries: seq<Entry>, edge: Option<Edge>)

  const EMPTY := FirstLeaf([], None)

  /** The first leaf after one more record. Keys from the second leaf on, and keys it holds, leave it alone. */
  function Enter(f: FirstLeaf, e: Entry, max: nat): (r: FirstLeaf)
    requires 2 <= max && |f.entries| < max
    ensures |r.entries| < max
  {
    if (f.edge.Some? && f.edge.value.bound <= e.key) || Find(f.entries, e.key).Some? then f
    else
      var g := InsertAt(f.entries, LowerIdx(f.entries, e.key), e);
      if |g| < max then f.(entries := g)
      else
        var sep := if f.edge.Some? then f.edge.value.sep else g[0].key;
        FirstLeaf(g[..max / 2], Some(Edge(sep, g[max / 2].key)))
  }

  /** The first leaf after the first `n` records, from an empty index. */
  function LeafAfter(es: seq<Entry>, max: nat, n: nat): (r: FirstLeaf)
    requires 2 <= max && n <= |es|
    ensures |r.entries| < max
  {
    if n == 0 then EMPTY else Enter(LeafAfter(es, max, n - 1), es[n - 1], max)
  }

  ghost predicate LeafStep(fs: seq<FirstLeaf>, es: seq<Entry>, max: nat, i: nat)
  {
    i < |es| && i + 1 < |fs| && 2 <= max && |fs[i].entries| < max && fs[i + 1] == Enter(fs[i], es[i], max)
  }

  /** `fs[i]` is the first leaf before record `i`. */
  ghost predicate Leaves(fs: seq<FirstLeaf>, es: seq<Entry>, max: nat)
  {
    && |fs| == |es| + 1 && fs[0] == EMPTY
    && forall i {:trigger LeafStep(fs, es, max, i)} | 0 <= i < |es| :: LeafStep(fs, es, max, i)
  }

  ghost function History(es: seq<Entry>, max: nat): (fs: seq<FirstLeaf>)
    requires 2 <= max
    ensures Leaves(fs, es, max) && fs[|es|] == LeafAfter(es, max, |es|)
  {
    seq(|es| + 1, n requires 0 <= n <= |es| => LeafAfter(es, max, n))
  }

  /** The second leaf does not start below the first separator. */
  predicate Holding(f: FirstLeaf)
  {
    f.edge.Some? ==> f.edge.value.sep <= f.edge.value.bound
  }

  // ---------------------------------------------------------------- the second leaf starts lower and lower

  ghost predicate Sane(f: FirstLeaf)
  {
    Ascending(f.entries) && (f.edge.Some? ==> forall s | 0 <= s < |f.entries| :: f.entries[s].key < f.edge.value.bound)
  }

  lemma EnterSane(f: FirstLeaf, e: Entry, max: nat)
    requires 2 <= max && |f.entries| < max && Sane(f)
    ensures Sane(Enter(f, e, max)) && (Holding(Enter(f, e, max)) ==> Holding(f))
  {
    if Enter(f, e, max) != f {
      var g := InsertAt(f.entries, LowerIdx(f.entries, e.key), e);
      InsertAscends(f.entries, e);
      if f.edge.Some? {
        forall s | 0 <= s < |g| ensures g[s].key < f.edge.value.bound {
          InsertHas(f.entries, LowerIdx(f.entries, e.key), e, s);
        }
      }
    }
  }

  lemma SaneNext(fs: seq<FirstLeaf>, es: seq<Entry>, max: nat, i: nat)
    requires Leaves(fs, es, max) && i < |es|
    ensures Sane(fs[i]) ==> Sane(fs[i + 1]) && (Holding(fs[i + 1]) ==> Holding(fs[i]))
  {
    assert LeafStep(fs, es, max, i);
    if Sane(fs[i]) {
      EnterSane(fs[i], es[i], max);
    }
  }

  lemma {:induction false} AllSane(fs: seq<FirstLeaf>, es: seq<Entry>, max: nat, n: nat)
    requires Leaves(fs, es, max) && n <= |es|
    ensures Sane(fs[n])
  {
    if n > 0 {
      AllSane(fs, es, max, n - 1);
      SaneNext(fs, es, max, n - 1);
    }
  }

  /** What is lost stays lost: if the longer part of a table holds, so does the shorter one. */
  lemma {:induction false} HeldBefore(fs: seq<FirstLeaf>, es: seq<Entry>, max: nat, m: nat, n: nat)
    requires Leaves(fs, es, max) && m <= n <= |es| && Holding(fs[n])
    ensures Holding(fs[m])
  {
    if m < n {
      AllSane(fs, es, max, n - 1);
      SaneNext(fs, es, max, n - 1);
      HeldBefore(fs, es, max, m, n - 1);
    }
  }

  // ---------------------------------------------------------------- the tree does the same

  lemma FirstLeafSplit(t1: Tree, r: nat, t': Tree)
    requires Full(t1, 0, r) && SameLeaves(SplitTree(t1, 0, r), t') && At(t1, 0, 0)
    ensures |Es(t1, 0, r)| == t1.max && At(t', 0, 0) && At(t', 0, 1)
    ensures Es(t', 0, 0) == if r == 0 then Es(t1, 0, 0)[..t1.max / 2] else Es(t1, 0, 0)
    ensures r == 0 ==> Es(t', 0, 1) == Es(t1, 0, 0)[t1.max / 2..]
  {
    var t2 := SplitTree(t1, 0, r);
    SplitSame(t1, 0, r);
    assert NodeOk(t1, 0, r) && NodeOk(t1, 0, 0) && Distinct(t1, 0);
    assert t2.levels[0].nodes[0] == Nd(t1, 0, 0);
    if r == 0 {
      assert t2.levels[0].nodes[1] == t1.next;
    }
  }

  lemma FirstLeafPut(t: Tree, e: Entry)
    requires Whole(t) && Lookup(t, e.key).None? && At(t, 0, 0)
    ensures At(Put(t, e), 0, 0)
    ensures Es(Put(t, e), 0, 0)
            == if LeafFor(t, e.key) == 0 then InsertAt(Es(t, 0, 0), LowerIdx(Es(t, 0, 0), e.key), e) else Es(t, 0, 0)
  {
    var r := LeafFor(t, e.key);
    LeafFits(t, e);
    PutShape(t, e);
    PutSame(t, 0, r, LowerIdx(Es(t, 0, r), e.key), e);
    assert Distinct(t, 0);
  }

  /** The first leaf after an insertion. */
  lemma FirstLeafIs(t: Tree, e: Entry, t': Tree)
    requires Whole(t) && Lookup(t, e.key).None? && Whole(t') && Inserted(t, e, t') && At(t, 0, 0)
    ensures At(t', 0, 0)
    ensures var g := InsertAt(Es(t, 0, 0), LowerIdx(Es(t, 0, 0), e.key), e);
            Es(t', 0, 0) == if LeafFor(t, e.key) != 0 then Es(t, 0, 0) else if |g| == t.max then g[..t.max / 2] else g
  {
    PutShape(t, e);
    FirstLeafPut(t, e);
    assert NodeOk(t, 0, LeafFor(t, e.key));
    if Put(t, e).over != NO_PAGE {
      FirstLeafSplit(Put(t, e), LeafFor(t, e.key), t');
    }
  }

  /** The first separator and the first key of the second leaf after the first split of all. */
  lemma FirstEdge(t: Tree, e: Entry, t': Tree)
    requires Whole(t) && Lookup(t, e.key).None? && Whole(t') && Inserted(t, e, t') && |t.levels| == 1 < |t'.levels|
    ensures At(t, 0, 0) && At(t', 0, 0) && At(t', 0, 1) && |Es(t, 0, 0)| + 1 == t.max
    ensures var g := InsertAt(Es(t, 0, 0), LowerIdx(Es(t, 0, 0), e.key), e);
            FirstKey(t'.pages, t'.root) == g[0].key && FirstKey(t'.pages, Nd(t', 0, 1)) == g[t.max / 2].key
  {
    assert LevelOk(t, 0);
    PutShape(t, e);
    FirstLeafPut(t, e);
    assert NodeOk(t, 0, 0);
    ManyLeaves(t');
    FirstLeafSplit(Put(t, e), 0, t');
    FirstRoot(t, e, t');
  }

  /** `f` is the first leaf of `t`, with its edge. */
  ghost predicate Mirrors(t: Tree, f: FirstLeaf)
  {
    && Whole(t) && Ordered(t) && At(t, 0, 0) && Es(t, 0, 0) == f.entries
    && (f.edge.None? <==> |t.levels| == 1)
    && (f.edge.Some? ==> At(t, 0, 1) && f.edge.value == Edge(FirstKey(t.pages, t.root), FirstKey(t.pages, Nd(t, 0, 1))))
  }

  /** In an ordered tree exactly the keys below the second leaf go to the first one. */
  lemma GoesFirst(t: Tree, f: FirstLeaf, k: Key)
    requires Mirrors(t, f)
    ensures LeafFor(t, k) == 0 <==> f.edge.None? || k < f.edge.value.bound
  {
    var r := LeafFor(t, k);
    LeafForIsRight(t, k);
    ManyLeaves(t);
    if r > 1 {
      FirstKeysAscend(t, 1, r);
    }
  }

  /** A key that stays out of the first leaf leaves the edge alone. */
  lemma EnterElsewhere(t: Tree, e: Entry, t': Tree, f: FirstLeaf)
    requires Mirrors(t, f) && Whole(t') && Lookup(t, e.key).None? && Inserted(t, e, t') && LeafFor(t, e.key) != 0
    ensures !Lowers(t, e.key) && Mirrors(t', f)
  {
    GoesFirst(t, f, e.key);
    FirstLeafIs(t, e, t');
    InsertKeepsOrder(t, e, t');
    SecondLeaf(t, e, t');
    FirstSeparator(t, e, t');
  }

  lemma EnterSingle(t: Tree, e: Entry, t': Tree, f: FirstLeaf)
    requires Mirrors(t, f) && Whole(t') && Lookup(t, e.key).None? && Inserted(t, e, t') && |t.levels| == 1
    ensures |f.entries| < t.max && !Lowers(t, e.key)
    ensures Holding(Enter(f, e, t.max)) && Mirrors(t', Enter(f, e, t.max))
  {
    NodeSize(t, 0, 0);
    FirstLeafIs(t, e, t');
    InsertKeepsOrder(t, e, t');
    FirstLevels(t, e, t');
    if |t'.levels| > 1 {
      FirstEdge(t, e, t');
    }
  }

  /** The root is first split by the entry that fills the only leaf. */
  lemma FirstLevels(t: Tree, e: Entry, t': Tree)
    requires Whole(t) && Lookup(t, e.key).None? && Whole(t') && Inserted(t, e, t') && |t.levels| == 1
    ensures At(t, 0, 0) && (|t'.levels| > 1 <==> |Es(t, 0, 0)| + 1 == t.max)
  {
    PutShape(t, e);
    assert NodeOk(t, 0, 0) && LevelOk(t, 0);
    ManyLeaves(t');
  }

  lemma EnterFirst(t: Tree, e: Entry, t': Tree, f: FirstLeaf)
    requires Mirrors(t, f) && Whole(t') && Lookup(t, e.key).None? && Inserted(t, e, t')
    requires |t.levels| > 1 && LeafFor(t, e.key) == 0
    ensures |f.entries| < t.max && (Lowers(t, e.key) <==> !Holding(Enter(f, e, t.max)))
    ensures Holding(Enter(f, e, t.max)) ==> Mirrors(t', Enter(f, e, t.max))
  {
    NodeSize(t, 0, 0);
    GoesFirst(t, f, e.key);
    FirstLeafIs(t, e, t');
    InsertKeepsOrder(t, e, t');
    SecondLeaf(t, e, t');
    FirstSeparator(t, e, t');
    if |f.entries| + 1 == t.max {
      var g := InsertAt(f.entries, LowerIdx(f.entries, e.key), e);
      assert Joined(f.entries, e.key)[t.max / 2].key == g[t.max / 2].key;
    }
  }

  /** A key that is refused leaves everything alone; the first leaf of the simulation refuses it too. */
  lemma EnterRefused(t: Tree, e: Entry, f: FirstLeaf)
    requires Mirrors(t, f) && Lookup(t, e.key).Some?
    ensures |f.entries| < t.max && Enter(f, e, t.max) == f && Holding(f)
  {
    NodeSize(t, 0, 0);
    GoesFirst(t, f, e.key);
  }
}
