/** Tables whose index loses a key: every long enough table that is scanned in descending key order. */
module IndexLost {
  import opened Common
  import opened Sequences
  import opened IndexNode
  import opened IndexInsert
  import opened IndexFirst
  import opened IndexHandle
  import opened IndexBuild
  import opened IndexHeader

  ghost predicate Descending(es: seq<Entry>)
  {
    forall i, j | 0 <= i < j < |es| :: es[i].key > es[j].key
  }

  /** Everything that is known of the first leaf is above `k`. */
  ghost predicate AllAbove(f: FirstLeaf, k: Key)
  {
    && (forall s | 0 <= s < |f.entries| :: k < f.entries[s].key)
    && (f.edge.Some? ==> k < f.edge.value.sep && k < f.edge.value.bound)
  }

  /** The keys below `sep` are the first `n`. */
  ghost predicate Divided(es: seq<Entry>, n: nat, sep: Key)
  {
    forall s | 0 <= s < |es| :: es[s].key < sep <==> s < n
  }

  /**
    The first leaf after `m` descending keys that have not lowered the first separator. It fills once before the root
    is internal, then with keys below the first separator in front of those it kept, then with such keys only.
   */
  ghost predicate Filled(f: FirstLeaf, m: nat, max: nat)
  {
    var n, h := |f.entries|, max / 2;
    if m < max then f.edge.None? && n == m
    else
      && f.edge.Some? && f.edge.value.sep <= f.edge.value.bound
      && if m < max + (max - h) then n == h + (m - max) && Divided(f.entries, m - max, f.edge.value.sep)
         else max == 2 * h && n == m - max && Divided(f.entries, n, f.edge.value.sep)
  }

  /** How many descending keys it takes to lower the first separator. */
  function Limit(max: nat): nat
  {
    if max % 2 == 0 then 2 * max else max + (max + 1) / 2
  }

  /** A key below all others goes to the front; the last key that stays below the middle becomes the new bound. */
  lemma EnterFront(f: FirstLeaf, e: Entry, max: nat)
    requires 2 <= max && |f.entries| < max && AllAbove(f, e.key)
    ensures var g := [e] + f.entries; var sep := if f.edge.Some? then f.edge.value.sep else e.key;
            Enter(f, e, max) == if |g| < max then f.(entries := g)
                                else FirstLeaf(g[..max / 2], Some(Edge(sep, g[max / 2].key)))
  {
    LowerIdxUnique(f.entries, e.key, 0);
    InsertAtSlices(f.entries, 0, e);
  }

  lemma StillAbove(f: FirstLeaf, e: Entry, max: nat, k: Key)
    requires 2 <= max && |f.entries| < max && AllAbove(f, e.key) && k < e.key
    ensures AllAbove(Enter(f, e, max), k)
  {
    EnterFront(f, e, max);
  }

  lemma FilledNext(f: FirstLeaf, e: Entry, max: nat, m: nat)
    requires 4 <= max && |f.entries| < max && Filled(f, m, max) && AllAbove(f, e.key)
    ensures Holding(Enter(f, e, max)) <==> m + 1 != Limit(max)
    ensures m + 1 < Limit(max) ==> Filled(Enter(f, e, max), m + 1, max)
  {
    EnterFront(f, e, max);
  }

  /** What is known before record `n` of a descending table. */
  ghost predicate Falling(f: FirstLeaf, es: seq<Entry>, max: nat, n: nat)
  {
    n <= |es| && Filled(f, n, max) && (n < |es| ==> AllAbove(f, es[n].key))
  }

  lemma FallingNext(fs: seq<FirstLeaf>, es: seq<Entry>, max: nat, i: nat)
    requires 4 <= max && Leaves(fs, es, max) && Descending(es) && i < |es|
    ensures Falling(fs[i], es, max, i) && i + 1 < Limit(max) ==> Falling(fs[i + 1], es, max, i + 1)
    ensures Falling(fs[i], es, max, i) ==> (Holding(fs[i + 1]) <==> i + 1 != Limit(max))
  {
    assert LeafStep(fs, es, max, i);
    if Falling(fs[i], es, max, i) {
      FilledNext(fs[i], es[i], max, i);
      if i + 1 < |es| {
        StillAbove(fs[i], es[i], max, es[i + 1].key);
      }
    }
  }

  lemma {:induction false} FallingAll(fs: seq<FirstLeaf>, es: seq<Entry>, max: nat, n: nat)
    requires 4 <= max && Leaves(fs, es, max) && Descending(es) && n <= |es| && n < Limit(max)
    ensures Falling(fs[n], es, max, n)
  {
    if n > 0 {
      FallingAll(fs, es, max, n - 1);
      FallingNext(fs, es, max, n - 1);
    }
  }

  /** Descending keys lower the first separator exactly when there are enough of them. */
  lemma DescendingHolds(es: seq<Entry>, max: nat)
    requires 4 <= max && Descending(es)
    ensures Holding(LeafAfter(es, max, |es|)) <==> |es| < Limit(max)
  {
    var fs, n := History(es, max), Limit(max);
    if |es| < n {
      FallingAll(fs, es, max, |es|);
    } else {
      FallingAll(fs, es, max, n - 1);
      FallingNext(fs, es, max, n - 1);
      if Holding(fs[|es|]) {
        HeldBefore(fs, es, max, n, |es|);
      }
    }
  }

  /**
    Building the index of a table in descending key order refuses nothing, and the index finds every record exactly when
    the table is short enough.
   */
  method BuildDescending(order: nat, records: seq<Entry>) returns (ih: Handle, dup: bool)
    requires order > 2 && Descending(records)
    ensures fresh(ih) && ih.Valid() && ih.max == order + 1 && !dup
    ensures AllFound(ih.tree) <==> |records| < Limit(order + 1)
    ensures FindsEach(ih.tree, records) <==> |records| < Limit(order + 1)
  {
    ghost var trees;
    ih, dup, trees := BuildIndex(order, records);
    DescendingHolds(records, order + 1);
  }

  /** Keys of the longest allowed length make an index of order 6; eleven of them in descending order lose one. */
  method LosesKey() returns (ih: Handle)
    ensures fresh(ih) && ih.Valid() && ih.max == TreeOrder(MAX_COL_LEN) + 1 == 7 && !AllFound(ih.tree)
  {
    var records := seq(11, i requires 0 <= i < 11 => Entry(11 - i, Rid(1, i)));
    var dup;
    ih, dup := BuildDescending(TreeOrder(MAX_COL_LEN), records);
  }
}
