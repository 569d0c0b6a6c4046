/** Building an index over the records of a table: a whole run of insertions. */
module IndexBuild {
  import opened Common
  import opened Sequences
  import opened IndexNode
  import opened IndexTree
  import opened IndexSearch
  import opened IndexInsert
  import opened IndexFirst
  import opened IndexHandle
  import opened IndexLow

  /** The rid of the first record with key `k`. */
  ghost function FirstRid(es: seq<Entry>, k: Key): Option<Rid>
  {
    if es == [] then None
    else
      var r := FirstRid(es[..|es| - 1], k);
      if r.Some? then r else if es[|es| - 1].key == k then Some(es[|es| - 1].rid) else None
  }

  lemma {:induction false} FirstRidIn(es: seq<Entry>, k: Key)
    ensures FirstRid(es, k).Some? <==> exists i | 0 <= i < |es| :: es[i].key == k
    ensures FirstRid(es, k).Some? ==> Entry(k, FirstRid(es, k).value) in es
  {
    if es != [] {
      var n := |es| - 1;
      FirstRidIn(es[..n], k);
      if FirstRid(es[..n], k).Some? {
        var i :| 0 <= i < n && es[..n][i].key == k;
        assert es[i].key == k;
      }
      if i :| 0 <= i < |es| && es[i].key == k {
        if i < n {
          assert es[..n][i].key == k;
        }
      }
    }
  }

  /** A record more: a twin appears exactly when its key was there. */
  lemma TwinsNext(es: seq<Entry>, n: nat)
    requires n < |es|
    ensures !DistinctKeys(es[..n + 1]) <==> !DistinctKeys(es[..n]) || FirstRid(es[..n], es[n].key).Some?
    ensures forall k :: FirstRid(es[..n + 1], k)
                        == if FirstRid(es[..n], k).Some? then FirstRid(es[..n], k)
                           else if es[n].key == k then Some(es[n].rid) else None
  {
    var a, b := es[..n], es[..n + 1];
    assert b[..|b| - 1] == a;
    FirstRidIn(a, es[n].key);
    if !DistinctKeys(b) {
      var i, j :| 0 <= i < j < |b| && b[i].key == b[j].key;
      if j < n {
        assert a[i].key == a[j].key;
      } else {
        assert a[i].key == es[n].key;
      }
    }
    if !DistinctKeys(a) {
      var i, j :| 0 <= i < j < |a| && a[i].key == a[j].key;
      assert b[i].key == b[j].key;
    }
    if FirstRid(a, es[n].key).Some? {
      var i :| 0 <= i < |a| && a[i].key == es[n].key;
      assert b[i].key == b[n].key;
    }
  }

  /** The index answers like the records read so far. */
  ghost predicate AnswersAs(t: Tree, es: seq<Entry>)
    requires Whole(t)
  {
    forall k :: Lookup(t, k) == FirstRid(es, k)
  }

  /** What the loop keeps after `n` records. */
  ghost predicate Built(t: Tree, es: seq<Entry>, n: nat, dup: bool, kept: bool)
    requires n <= |es|
  {
    && Whole(t)
    && (kept ==> Ordered(t) && AnswersAs(t, es[..n]) && (dup <==> !DistinctKeys(es[..n])))
    && (!kept ==> Low(t))
  }

  /** An index without entries is one leaf. */
  lemma EmptyTree(t: Tree)
    requires Whole(t) && Contents(t) == []
    ensures |t.levels| == 1 && Ordered(t)
  {
    if |t.levels| > 1 {
      NodeSize(t, 0, 0);
      FlatAt(t, 0, 0, 0);
    }
  }

  lemma NothingBuilt(t: Tree, es: seq<Entry>)
    requires Whole(t) && Contents(t) == []
    ensures Built(t, es, 0, false, true)
  {
    EmptyTree(t);
    forall k ensures Lookup(t, k) == None {
      LookupIsFind(t, k);
    }
  }

  /** After an insertion that broke the order, or any one after it, the index is low. */
  lemma LowNext(t: Tree, t': Tree, e: Entry, kept: bool)
    requires Whole(t) && Whole(t') && (if kept then Ordered(t) else Low(t))
    requires if Lookup(t, e.key).None? then Inserted(t, e, t') && (kept ==> Lowers(t, e.key)) else t' == t && !kept
    ensures Low(t')
  {
    if Lookup(t, e.key).None? {
      if kept {
        LowersMakesLow(t, e, t');
      } else {
        StaysLow(t, e, t');
      }
    }
  }

  /** One more record: what an insertion promises carries the loop's promise on. */
  lemma BuiltNext(t: Tree, t': Tree, es: seq<Entry>, n: nat, ok: bool, dup: bool, kept: bool, dup': bool, kept': bool)
    requires n < |es| && dup' == (dup || !ok) && Built(t, es, n, dup, kept) && Whole(t')
    requires ok <==> Lookup(t, es[n].key).None?
    requires !ok ==> t' == t
    requires ok && Ordered(t) ==> (Ordered(t') <==> !Lowers(t, es[n].key))
    requires ok && Ordered(t) && Ordered(t') ==> AnswersUpdated(t, t', es[n])
    requires ok ==> Inserted(t, es[n], t')
    requires kept' == (kept && (ok ==> !Lowers(t, es[n].key)))
    ensures Built(t', es, n + 1, dup', kept')
  {
    TwinsNext(es, n);
    if kept' {
      assert AnswersAs(t', es[..n + 1]);
    } else {
      LowNext(t, t', es[n], kept);
    }
  }

  /** A key that is found is rejected and changes nothing; any other one is inserted. */
  ghost predicate Takes(t: Tree, e: Entry, t': Tree)
    requires Whole(t)
  {
    Whole(t') && t'.max == t.max && if Lookup(t, e.key).None? then Inserted(t, e, t') else t' == t
  }

  /** The insertion, if it is one, does not put a separator below the first one. */
  ghost predicate Keeps(t: Tree, e: Entry)
    requires Whole(t)
  {
    Lookup(t, e.key).None? ==> !Lowers(t, e.key)
  }

  ghost predicate StepAt(trees: seq<Tree>, es: seq<Entry>, i: nat)
  {
    i < |es| && i + 1 < |trees| && Whole(trees[i]) && Takes(trees[i], es[i], trees[i + 1])
  }

  ghost predicate KeepsAt(trees: seq<Tree>, es: seq<Entry>, i: nat)
  {
    i < |es| && i < |trees| && Whole(trees[i]) && Keeps(trees[i], es[i])
  }

  /** A run of insertions into an empty index: `trees[i]` is the index before record `i`. */
  ghost predicate Run(trees: seq<Tree>, es: seq<Entry>, n: nat)
  {
    && n <= |es| && |trees| == n + 1
    && |trees[0].levels| > 0 && Contents(trees[0]) == []
    && forall i {:trigger StepAt(trees, es, i)} | 0 <= i < n :: StepAt(trees, es, i)
  }

  /** No insertion of the run puts a separator below the first one. */
  ghost predicate NeverLowers(trees: seq<Tree>, es: seq<Entry>, n: nat)
  {
    forall i {:trigger KeepsAt(trees, es, i)} | 0 <= i < n :: KeepsAt(trees, es, i)
  }

  /** Record `i` is refused: the index answers its key. */
  ghost predicate RejectsAt(trees: seq<Tree>, es: seq<Entry>, i: nat)
  {
    i < |es| && i < |trees| && Whole(trees[i]) && Lookup(trees[i], es[i].key).Some?
  }

  /** Some record of the run is refused. */
  ghost predicate Rejects(trees: seq<Tree>, es: seq<Entry>, n: nat)
  {
    exists i: nat :: i < n && RejectsAt(trees, es, i)
  }

  lemma RejectsNext(trees: seq<Tree>, es: seq<Entry>, n: nat, t': Tree)
    requires n < |es| && |trees| == n + 1 && Whole(trees[n])
    ensures Rejects(trees + [t'], es, n + 1) <==> Rejects(trees, es, n) || Lookup(trees[n], es[n].key).Some?
  {
    var ts := trees + [t'];
    forall i: nat | i <= n ensures RejectsAt(ts, es, i) <==> RejectsAt(trees, es, i) {
    }
    if Rejects(ts, es, n + 1) {
      var i: nat :| i < n + 1 && RejectsAt(ts, es, i);
      assert RejectsAt(trees, es, i);
    }
    if Rejects(trees, es, n) {
      var i: nat :| i < n && RejectsAt(trees, es, i);
      assert RejectsAt(ts, es, i);
    }
    assert Lookup(trees[n], es[n].key).Some? ==> RejectsAt(ts, es, n);
  }

  lemma RunNext(trees: seq<Tree>, es: seq<Entry>, n: nat, t': Tree)
    requires n < |es| && Run(trees, es, n) && Whole(trees[n]) && Takes(trees[n], es[n], t')
    ensures Run(trees + [t'], es, n + 1)
  {
    forall i | 0 <= i < n + 1 ensures StepAt(trees + [t'], es, i) {
      assert i < n ==> StepAt(trees, es, i);
    }
  }

  lemma NeverLowersNext(trees: seq<Tree>, es: seq<Entry>, n: nat, t': Tree)
    requires n < |es| && |trees| == n + 1 && Whole(trees[n])
    ensures NeverLowers(trees + [t'], es, n + 1) <==> NeverLowers(trees, es, n) && Keeps(trees[n], es[n])
  {
    var ts := trees + [t'];
    forall i: nat | i <= n ensures KeepsAt(ts, es, i) <==> KeepsAt(trees, es, i) {
    }
    assert KeepsAt(trees, es, n) <==> Keeps(trees[n], es[n]);
  }

  /** Inserts the next record. */
  method AddRecord(ih: Handle, records: seq<Entry>, i: nat, dup: bool, ghost kept: bool)
    returns (dup': bool, ghost kept': bool)
    requires ih.Valid() && i < |records| && Built(ih.tree, records, i, dup, kept)
    modifies ih
    ensures ih.Valid() && Built(ih.tree, records, i + 1, dup', kept')
    ensures Takes(old(ih.tree), records[i], ih.tree) && kept' == (kept && Keeps(old(ih.tree), records[i]))
    ensures dup' == (dup || Lookup(old(ih.tree), records[i].key).Some?)
  {
    ghost var t := ih.tree;
    var ok := ih.InsertEntry(records[i].key, records[i].rid);
    dup' := dup;
    if !ok {
      dup' := true;
    }
    kept' := kept && (ok ==> !Lowers(t, records[i].key));
    assert records[i] == Entry(records[i].key, records[i].rid);
    BuiltNext(t, ih.tree, records, i, ok, dup, kept, dup', kept');
  }

  // ---------------------------------------------------------------- runs whose keys keep the order

  /** Once the root is internal, no key is below its first separator. */
  ghost predicate AboveFirst(trees: seq<Tree>, es: seq<Entry>, n: nat)
  {
    forall i | 0 <= i < n && i < |es| && i < |trees| ::
      |trees[i].levels| > 1 ==> FirstKey(trees[i].pages, trees[i].root) <= es[i].key
  }

  /** In order, and above the first separator once the root is internal. */
  ghost predicate Sound(t: Tree)
  {
    Whole(t) && Ordered(t) && (|t.levels| > 1 ==> AtOrAbove(t))
  }

  /** A key that is not below the first separator keeps the order, and nothing gets below the first separator. */
  lemma SoundNext(t: Tree, e: Entry, t': Tree)
    requires Sound(t) && Takes(t, e, t') && (|t.levels| > 1 ==> FirstKey(t.pages, t.root) <= e.key)
    ensures Keeps(t, e) && Sound(t')
  {
    if Lookup(t, e.key).None? {
      if |t.levels| > 1 {
        NotLowered(t, e.key);
      }
      InsertKeepsOrder(t, e, t');
      FirstSeparator(t, e, t');
      if |t.levels| > 1 {
        forall q | 0 <= q < |Contents(t')| ensures FirstKey(t'.pages, t'.root) <= Contents(t')[q].key {
          InsertHas(Contents(t), LowerIdx(Contents(t), e.key), e, q);
        }
      }
    }
  }

  lemma {:induction false} SoundRun(trees: seq<Tree>, es: seq<Entry>, n: nat, m: nat)
    requires Run(trees, es, n) && 0 < n && m <= n && AboveFirst(trees, es, n)
    ensures Sound(trees[m]) && NeverLowers(trees, es, m)
  {
    if m == 0 {
      assert StepAt(trees, es, 0);
      EmptyTree(trees[0]);
    } else {
      SoundRun(trees, es, n, m - 1);
      assert StepAt(trees, es, m - 1);
      SoundNext(trees[m - 1], es[m - 1], trees[m]);
      assert KeepsAt(trees, es, m - 1);
    }
  }

  /** A run whose keys are not below the first separator once the root is internal never lowers it. */
  lemma AboveFirstKeeps(trees: seq<Tree>, es: seq<Entry>, n: nat)
    requires Run(trees, es, n) && AboveFirst(trees, es, n)
    ensures NeverLowers(trees, es, n)
  {
    if n > 0 {
      SoundRun(trees, es, n, n);
    }
  }

  // ---------------------------------------------------------------- a condition on the keys alone

  /** The keys of the first `n` records. */
  ghost function KeySet(es: seq<Entry>, n: nat): set<Key>
    requires n <= |es|
  {
    set i | 0 <= i < n :: es[i].key
  }

  /** Record `p` has one of the first `max` distinct keys. */
  ghost predicate AmongFirst(es: seq<Entry>, max: nat, p: nat)
  {
    p < |es| && |KeySet(es, p + 1)| <= max
  }

  ghost predicate KeyNotBelow(es: seq<Entry>, max: nat, i: nat)
  {
    i < |es| && (|KeySet(es, i)| >= max ==> exists p: nat :: AmongFirst(es, max, p) && es[p].key <= es[i].key)
  }

  /** No key is below the least of the first `max` distinct keys. */
  ghost predicate NoneBelow(es: seq<Entry>, max: nat)
  {
    forall i {:trigger KeyNotBelow(es, max, i)} | 0 <= i < |es| :: KeyNotBelow(es, max, i)
  }

  ghost function StoredKeys(t: Tree): set<Key>
    requires |t.levels| >= 1
  {
    KeySet(Contents(t), |Contents(t)|)
  }

  lemma KeySetNext(es: seq<Entry>, n: nat)
    requires n < |es|
    ensures KeySet(es, n + 1) == KeySet(es, n) + {es[n].key}
  {
  }

  lemma InsertedKeys(F: seq<Entry>, o: nat, e: Entry)
    requires o <= |F|
    ensures KeySet(InsertAt(F, o, e), |F| + 1) == KeySet(F, |F|) + {e.key}
  {
    var G := InsertAt(F, o, e);
    assert G[o] == e;
    forall q | 0 <= q < |F| ensures F[q].key in KeySet(G, |G|) {
      assert G[if q < o then q else q + 1] == F[q];
    }
    forall q | 0 <= q < |G| && q != o ensures G[q].key in KeySet(F, |F|) {
      assert G[q] == F[if q < o then q else q - 1];
    }
  }

  ghost predicate LeastOfFirst(sep: Key, es: seq<Entry>, max: nat)
  {
    forall p: nat {:trigger AmongFirst(es, max, p)} | AmongFirst(es, max, p) :: sep <= es[p].key
  }

  /**
    Before the first split the leaf holds each key of the first `n` records once. After it, the first separator is the
    least of the first `max` distinct keys, and nothing is below it.
   */
  ghost predicate HoldsKeys(f: FirstLeaf, es: seq<Entry>, max: nat, n: nat)
    requires n <= |es|
  {
    match f.edge
    case None => KeySet(f.entries, |f.entries|) == KeySet(es, n) && |f.entries| == |KeySet(es, n)|
    case Some(edge) =>
      && |KeySet(es, n)| >= max && LeastOfFirst(edge.sep, es, max) && edge.sep <= edge.bound
      && forall s | 0 <= s < |f.entries| :: edge.sep <= f.entries[s].key
  }

  /** The least of `max` distinct keys is the least of the first `max` distinct ones. */
  lemma FullLeast(g: seq<Entry>, es: seq<Entry>, max: nat, n: nat)
    requires g != [] && Ascending(g) && n <= |es| && KeySet(g, |g|) == KeySet(es, n) && |KeySet(es, n)| == max
    ensures LeastOfFirst(g[0].key, es, max)
  {
    forall p: nat | AmongFirst(es, max, p) ensures g[0].key <= es[p].key {
      if p >= n {
        SameKeySet(KeySet(es, n), KeySet(es, p + 1));
      }
      assert es[p].key in KeySet(g, |g|);
    }
  }

  lemma SameKeySet(a: set<Key>, b: set<Key>)
    requires a <= b && |b| <= |a|
    ensures a == b
  {
    assert b == a + (b - a);
  }

  lemma NextAbove(f: FirstLeaf, es: seq<Entry>, max: nat, n: nat)
    requires n < |es| && HoldsKeys(f, es, max, n) && NoneBelow(es, max) && f.edge.Some?
    ensures f.edge.value.sep <= es[n].key
  {
    assert KeyNotBelow(es, max, n);
    var p: nat :| AmongFirst(es, max, p) && es[p].key <= es[n].key;
  }

  lemma HoldsAfter(f: FirstLeaf, es: seq<Entry>, max: nat, n: nat)
    requires 2 <= max && |f.entries| < max && n < |es| && HoldsKeys(f, es, max, n) && NoneBelow(es, max) && f.edge.Some?
    ensures HoldsKeys(Enter(f, es[n], max), es, max, n + 1)
  {
    var o := LowerIdx(f.entries, es[n].key);
    KeySetGrows(es, n);
    NextAbove(f, es, max, n);
    forall s | 0 <= s <= |f.entries| ensures f.edge.value.sep <= InsertAt(f.entries, o, es[n])[s].key {
      InsertHas(f.entries, o, es[n], s);
    }
  }

  lemma KeySetGrows(es: seq<Entry>, n: nat)
    requires n < |es|
    ensures |KeySet(es, n)| <= |KeySet(es, n + 1)| <= |KeySet(es, n)| + 1
    ensures es[n].key !in KeySet(es, n) ==> |KeySet(es, n + 1)| == |KeySet(es, n)| + 1
  {
    KeySetNext(es, n);
    if es[n].key in KeySet(es, n) {
      assert KeySet(es, n + 1) == KeySet(es, n);
    }
  }

  lemma HoldsEntered(g: seq<Entry>, es: seq<Entry>, max: nat, n: nat)
    requires 2 <= max && n <= |es| && Ascending(g) && KeySet(g, |g|) == KeySet(es, n) && |g| == |KeySet(es, n)| == max
    ensures HoldsKeys(FirstLeaf(g[..max / 2], Some(Edge(g[0].key, g[max / 2].key))), es, max, n)
  {
    FullLeast(g, es, max, n);
  }

  lemma HoldsGrown(F: seq<Entry>, g: seq<Entry>, es: seq<Entry>, n: nat)
    requires n < |es| && Ascending(F) && KeySet(F, |F|) == KeySet(es, n) && |F| == |KeySet(es, n)|
    requires Find(F, es[n].key).None? && g == InsertAt(F, LowerIdx(F, es[n].key), es[n])
    ensures Ascending(g) && KeySet(g, |g|) == KeySet(es, n + 1) && |g| == |KeySet(es, n + 1)|
  {
    AbsentKey(F, es[n].key);
    KeySetNext(es, n);
    KeySetGrows(es, n);
    InsertedKeys(F, LowerIdx(F, es[n].key), es[n]);
    InsertAscends(F, es[n]);
  }

  lemma HoldsSame(F: seq<Entry>, es: seq<Entry>, n: nat)
    requires n < |es| && Ascending(F) && KeySet(F, |F|) == KeySet(es, n) && Find(F, es[n].key).Some?
    ensures KeySet(es, n + 1) == KeySet(es, n)
  {
    AbsentKey(F, es[n].key);
    KeySetNext(es, n);
  }

  lemma HoldsBefore(f: FirstLeaf, es: seq<Entry>, max: nat, n: nat)
    requires 2 <= max && |f.entries| < max && n < |es| && Ascending(f.entries)
    requires HoldsKeys(f, es, max, n) && f.edge.None?
    ensures HoldsKeys(Enter(f, es[n], max), es, max, n + 1)
  {
    if Find(f.entries, es[n].key).Some? {
      HoldsSame(f.entries, es, n);
    } else {
      var g := InsertAt(f.entries, LowerIdx(f.entries, es[n].key), es[n]);
      HoldsGrown(f.entries, g, es, n);
      if |g| == max {
        HoldsEntered(g, es, max, n + 1);
      }
    }
  }

  lemma AbsentKey(F: seq<Entry>, k: Key)
    requires Ascending(F)
    ensures Find(F, k).None? <==> k !in KeySet(F, |F|)
  {
    if q :| 0 <= q < |F| && F[q].key == k {
      FindComplete(F, k, F[q].rid);
    }
  }

  lemma HoldsNext(fs: seq<FirstLeaf>, es: seq<Entry>, max: nat, i: nat)
    requires Leaves(fs, es, max) && i < |es|
    ensures Sane(fs[i]) && NoneBelow(es, max) && HoldsKeys(fs[i], es, max, i) ==> HoldsKeys(fs[i + 1], es, max, i + 1)
  {
    assert LeafStep(fs, es, max, i);
    if Sane(fs[i]) && NoneBelow(es, max) && HoldsKeys(fs[i], es, max, i) {
      if fs[i].edge.Some? {
        HoldsAfter(fs[i], es, max, i);
      } else {
        HoldsBefore(fs[i], es, max, i);
      }
    }
  }

  lemma {:induction false} HoldsAll(fs: seq<FirstLeaf>, es: seq<Entry>, max: nat, n: nat)
    requires Leaves(fs, es, max) && n <= |es| && NoneBelow(es, max)
    ensures HoldsKeys(fs[n], es, max, n)
  {
    if n > 0 {
      HoldsAll(fs, es, max, n - 1);
      AllSane(fs, es, max, n - 1);
      HoldsNext(fs, es, max, n - 1);
    }
  }

  /** If no key is below the least of the first `max` distinct keys, the first separator stays the least key. */
  lemma NoneBelowHolds(es: seq<Entry>, max: nat)
    requires 2 <= max && NoneBelow(es, max)
    ensures Holding(LeafAfter(es, max, |es|))
  {
    HoldsAll(History(es, max), es, max, |es|);
  }

  // ---------------------------------------------------------------- the exact condition on the keys

  lemma EnterNext(t: Tree, e: Entry, t': Tree, f: FirstLeaf)
    requires Mirrors(t, f) && Takes(t, e, t')
    ensures |f.entries| < t.max && (Keeps(t, e) <==> Holding(Enter(f, e, t.max)))
    ensures Keeps(t, e) ==> Mirrors(t', Enter(f, e, t.max))
  {
    if Lookup(t, e.key).Some? {
      EnterRefused(t, e, f);
    } else if |t.levels| == 1 {
      EnterSingle(t, e, t', f);
    } else if LeafFor(t, e.key) == 0 {
      EnterFirst(t, e, t', f);
    } else {
      EnterElsewhere(t, e, t', f);
      GoesFirst(t, f, e.key);
      NodeSize(t, 0, 0);
    }
  }

  lemma EnterNone(t: Tree)
    requires Whole(t) && Contents(t) == []
    ensures Mirrors(t, EMPTY)
  {
    EmptyTree(t);
    assert LevelOk(t, 0) && NodeOk(t, 0, 0);
  }

  /** The trees of a run that has not lowered the first separator have the first leaf that the keys give. */
  ghost predicate MirrorsAt(trees: seq<Tree>, fs: seq<FirstLeaf>, i: nat)
  {
    i < |trees| && i < |fs| && trees[i].max == trees[0].max && Mirrors(trees[i], fs[i])
  }

  lemma MirrorsStep(trees: seq<Tree>, fs: seq<FirstLeaf>, es: seq<Entry>, i: nat)
    requires |trees| > 0 && Leaves(fs, es, trees[0].max) && i < |es|
    ensures StepAt(trees, es, i) && MirrorsAt(trees, fs, i) ==> (KeepsAt(trees, es, i) <==> Holding(fs[i + 1]))
    ensures StepAt(trees, es, i) && MirrorsAt(trees, fs, i) && KeepsAt(trees, es, i) ==> MirrorsAt(trees, fs, i + 1)
  {
    assert LeafStep(fs, es, trees[0].max, i);
    if StepAt(trees, es, i) && MirrorsAt(trees, fs, i) {
      EnterNext(trees[i], es[i], trees[i + 1], fs[i]);
    }
  }

  lemma {:induction false} MirrorsRun(trees: seq<Tree>, fs: seq<FirstLeaf>, es: seq<Entry>, n: nat, m: nat)
    requires Run(trees, es, n) && Leaves(fs, es, trees[0].max) && 0 < n && m <= n && NeverLowers(trees, es, m)
    ensures MirrorsAt(trees, fs, m)
  {
    if m == 0 {
      assert StepAt(trees, es, 0);
      EnterNone(trees[0]);
    } else {
      MirrorsRun(trees, fs, es, n, m - 1);
      assert StepAt(trees, es, m - 1) && KeepsAt(trees, es, m - 1);
      MirrorsStep(trees, fs, es, m - 1);
    }
  }

  /** If the run has lowered the first separator, there is a first time. */
  lemma {:induction false} FirstLowered(trees: seq<Tree>, es: seq<Entry>, n: nat) returns (m: nat)
    requires !NeverLowers(trees, es, n)
    ensures m < n && NeverLowers(trees, es, m) && !KeepsAt(trees, es, m)
  {
    m := 0;
    while KeepsAt(trees, es, m)
      invariant m < n && NeverLowers(trees, es, m)
      decreases n - m
    {
      m := m + 1;
    }
  }

  lemma NeverLowersHolds(trees: seq<Tree>, fs: seq<FirstLeaf>, es: seq<Entry>)
    requires Run(trees, es, |es|) && Leaves(fs, es, trees[0].max) && NeverLowers(trees, es, |es|)
    ensures Holding(fs[|es|])
  {
    if |es| > 0 {
      MirrorsRun(trees, fs, es, |es|, |es|);
    }
  }

  lemma LoweredLost(trees: seq<Tree>, fs: seq<FirstLeaf>, es: seq<Entry>)
    requires Run(trees, es, |es|) && Leaves(fs, es, trees[0].max) && !NeverLowers(trees, es, |es|)
    ensures !Holding(fs[|es|])
  {
    var m := FirstLowered(trees, es, |es|);
    MirrorsRun(trees, fs, es, |es|, m);
    assert StepAt(trees, es, m);
    MirrorsStep(trees, fs, es, m);
    if Holding(fs[|es|]) {
      HeldBefore(fs, es, trees[0].max, m + 1, |es|);
    }
  }

  /** Whether a run ever lowers the first separator is decided by the keys, through the first leaf they give. */
  lemma KeysDecide(trees: seq<Tree>, es: seq<Entry>)
    requires Run(trees, es, |es|) && trees[0].max >= 2
    ensures NeverLowers(trees, es, |es|) <==> Holding(LeafAfter(es, trees[0].max, |es|))
  {
    if NeverLowers(trees, es, |es|) {
      NeverLowersHolds(trees, History(es, trees[0].max), es);
    } else {
      LoweredLost(trees, History(es, trees[0].max), es);
    }
  }

  // ---------------------------------------------------------------- what a run without repeated keys stores

  /** The index holds keys of the first `m` records only, none of them twice. */
  ghost predicate HoldsOnce(t: Tree, es: seq<Entry>, m: nat)
    requires m <= |es|
  {
    |t.levels| >= 1 && StoredKeys(t) <= KeySet(es, m) && DistinctKeys(Contents(t))
  }

  lemma InsertDistinct(F: seq<Entry>, o: nat, e: Entry)
    requires o <= |F| && DistinctKeys(F) && e.key !in KeySet(F, |F|)
    ensures DistinctKeys(InsertAt(F, o, e))
  {
    var G := InsertAt(F, o, e);
    forall i, j | 0 <= i < j < |G| ensures G[i].key != G[j].key {
      assert i != o ==> G[i] == F[if i < o then i else i - 1];
      assert j != o ==> G[j] == F[if j < o then j else j - 1];
    }
  }

  lemma InsertedOnce(F: seq<Entry>, o: nat, es: seq<Entry>, m: nat)
    requires o <= |F| && m < |es| && DistinctKeys(es) && DistinctKeys(F) && KeySet(F, |F|) <= KeySet(es, m)
    ensures DistinctKeys(InsertAt(F, o, es[m]))
    ensures KeySet(InsertAt(F, o, es[m]), |F| + 1) <= KeySet(es, m + 1)
  {
    assert es[m].key !in KeySet(es, m);
    KeySetNext(es, m);
    InsertDistinct(F, o, es[m]);
    InsertedKeys(F, o, es[m]);
  }

  lemma OnceNext(t: Tree, t': Tree, es: seq<Entry>, m: nat)
    requires m < |es| && DistinctKeys(es) && Whole(t) && HoldsOnce(t, es, m) && Takes(t, es[m], t')
    ensures HoldsOnce(t', es, m + 1)
  {
    if Lookup(t, es[m].key).None? {
      InsertedFlat(t, es[m], t');
      InsertedOnce(Contents(t), Position(t, es[m].key), es, m);
    } else {
      KeySetNext(es, m);
    }
  }

  lemma {:induction false} OnceRun(trees: seq<Tree>, es: seq<Entry>, n: nat, m: nat)
    requires Run(trees, es, n) && m <= n && DistinctKeys(es)
    ensures HoldsOnce(trees[m], es, m)
  {
    if m > 0 {
      OnceRun(trees, es, n, m - 1);
      assert StepAt(trees, es, m - 1);
      OnceNext(trees[m - 1], trees[m], es, m - 1);
    }
  }

  lemma Present(t: Tree, k: Key)
    requires Whole(t) && Lookup(t, k).Some?
    ensures Entry(k, Lookup(t, k).value) in Contents(t) && k in StoredKeys(t)
  {
    var r := LeafFor(t, k);
    var s := LowerIdx(Es(t, 0, r), k);
    FlatAt(t, 0, r, s);
  }

  /** Without repeated keys no record is refused. */
  lemma NoneRejected(trees: seq<Tree>, es: seq<Entry>, n: nat)
    requires Run(trees, es, n) && DistinctKeys(es)
    ensures !Rejects(trees, es, n)
  {
    forall i: nat | i < n ensures !RejectsAt(trees, es, i) {
      assert StepAt(trees, es, i);
      OnceRun(trees, es, n, i);
      assert es[i].key !in KeySet(es, i);
      if Lookup(trees[i], es[i].key).Some? {
        Present(trees[i], es[i].key);
      }
    }
  }

  /** Every record can be looked up. */
  ghost predicate FindsEach(t: Tree, es: seq<Entry>)
    requires Whole(t)
  {
    forall i | 0 <= i < |es| :: Lookup(t, es[i].key) == Some(es[i].rid)
  }

  /** An index that finds every record, and holds only their keys and none of them twice, finds every stored entry. */
  lemma FindsStored(t: Tree, es: seq<Entry>)
    requires Whole(t) && HoldsOnce(t, es, |es|) && FindsEach(t, es)
    ensures AllFound(t)
  {
    forall e | e in Contents(t) ensures Lookup(t, e.key) == Some(e.rid) {
      assert e.key in StoredKeys(t);
      var i :| 0 <= i < |es| && es[i].key == e.key;
      Present(t, e.key);
    }
  }

  lemma AnswersFind(t: Tree, es: seq<Entry>)
    requires Whole(t) && AnswersAs(t, es) && DistinctKeys(es)
    ensures FindsEach(t, es)
  {
    forall i | 0 <= i < |es| ensures Lookup(t, es[i].key) == Some(es[i].rid) {
      FirstRidIn(es, es[i].key);
    }
  }

  // ---------------------------------------------------------------- the whole run

  /** What the loop knows after `n` records. */
  ghost predicate Progress(trees: seq<Tree>, es: seq<Entry>, n: nat, dup: bool, kept: bool)
  {
    && Run(trees, es, n) && Built(trees[n], es, n, dup, kept)
    && (kept <==> NeverLowers(trees, es, n)) && (dup <==> Rejects(trees, es, n))
  }

  lemma ProgressNext(trees: seq<Tree>, es: seq<Entry>, n: nat, t': Tree, dup: bool, kept: bool, dup': bool, kept': bool)
    requires n < |es| && Progress(trees, es, n, dup, kept) && Takes(trees[n], es[n], t')
    requires Built(t', es, n + 1, dup', kept') && kept' == (kept && Keeps(trees[n], es[n]))
    requires dup' == (dup || Lookup(trees[n], es[n].key).Some?)
    ensures Progress(trees + [t'], es, n + 1, dup', kept')
  {
    RunNext(trees, es, n, t');
    NeverLowersNext(trees, es, n, t');
    RejectsNext(trees, es, n, t');
  }

  lemma ProgressNone(t: Tree, es: seq<Entry>)
    requires Whole(t) && Contents(t) == []
    ensures Progress([t], es, 0, false, true)
  {
    NothingBuilt(t, es);
  }

  /** Inserts the next record and adds the index to the run. */
  method AddNext(ih: Handle, records: seq<Entry>, i: nat, dup: bool, ghost trees: seq<Tree>, ghost kept: bool)
    returns (dup': bool, ghost trees': seq<Tree>, ghost kept': bool)
    requires ih.Valid() && i < |records| && Progress(trees, records, i, dup, kept) && trees[i] == ih.tree
    modifies ih
    ensures ih.Valid() && Progress(trees', records, i + 1, dup', kept')
    ensures trees'[i + 1] == ih.tree && trees'[0] == trees[0]
  {
    dup', kept' := AddRecord(ih, records, i, dup, kept);
    ProgressNext(trees, records, i, ih.tree, dup, kept, dup', kept');
    trees' := trees + [ih.tree];
  }

  /** The loop over the records. */
  method InsertAll(order: nat, records: seq<Entry>)
    returns (ih: Handle, dup: bool, ghost trees: seq<Tree>, ghost kept: bool)
    requires order > 2
    ensures fresh(ih) && ih.Valid() && ih.max == order + 1
    ensures Progress(trees, records, |records|, dup, kept) && trees[0].max == order + 1 && trees[|records|] == ih.tree
  {
    ih := new Handle(order);
    dup, trees, kept := false, [ih.tree], true;
    var i := 0;
    ProgressNone(ih.tree, records);
    while i < |records|
      invariant 0 <= i <= |records| && fresh(ih) && ih.Valid() && ih.max == order + 1
      invariant Progress(trees, records, i, dup, kept) && trees[i] == ih.tree && trees[0].max == order + 1
    {
      dup, trees, kept := AddNext(ih, records, i, dup, trees, kept);
      i := i + 1;
    }
  }

  /**
    Inserts every record of the table. The index is in order at the end if and only if no insertion of the run has put
    a separator below the first one, which the keys alone decide; then it answers every key with its first record, and
    `dup` tells whether a key occurs twice. If no key occurs twice nothing is refused, and an index that is not in order
    has lost a key. The index is in order if no key is below the first separator once the root is internal, and also if
    no key is below the least of the first order + 1 distinct keys.
   */
  method BuildIndex(order: nat, records: seq<Entry>) returns (ih: Handle, dup: bool, ghost trees: seq<Tree>)
    requires order > 2
    ensures fresh(ih) && ih.Valid() && ih.max == order + 1
    ensures Run(trees, records, |records|) && trees[0].max == order + 1 && trees[|records|] == ih.tree
    ensures ih.InOrder() <==> NeverLowers(trees, records, |records|)
    ensures ih.InOrder() <==> Holding(LeafAfter(records, order + 1, |records|))
    ensures ih.InOrder() ==> AnswersAs(ih.tree, records) && (dup <==> !DistinctKeys(records))
    ensures DistinctKeys(records) ==> !dup && (AllFound(ih.tree) <==> ih.InOrder())
    ensures DistinctKeys(records) ==> (FindsEach(ih.tree, records) <==> ih.InOrder())
    ensures AboveFirst(trees, records, |records|) ==> ih.InOrder()
    ensures NoneBelow(records, order + 1) ==> ih.InOrder()
  {
    ghost var kept;
    ih, dup, trees, kept := InsertAll(order, records);
    assert records[..|records|] == records;
    if kept {
      OrderedFinds(ih.tree);
    } else {
      LowNotOrdered(ih.tree);
    }
    if DistinctKeys(records) {
      NoneRejected(trees, records, |records|);
      OnceRun(trees, records, |records|, |records|);
      if kept {
        AnswersFind(ih.tree, records);
      } else {
        LowLoses(ih.tree);
      }
      if FindsEach(ih.tree, records) {
        FindsStored(ih.tree, records);
      }
    }
    KeysDecide(trees, records);
    if AboveFirst(trees, records, |records|) {
      AboveFirstKeeps(trees, records, |records|);
    }
    if NoneBelow(records, order + 1) {
      NoneBelowHolds(records, order + 1);
    }
  }
}
