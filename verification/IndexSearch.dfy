/**
  Searching the B+ tree: the descent from the root to a leaf against a search of the
  whole sorted sequence of leaf entries.
 */
module IndexSearch {
  import opened Common
  import opened IndexNode
  import opened IndexTree

  /** The invariant between two operations: nothing is pending and no page is full. */
  ghost predicate Whole(t: Tree)
  {
    Shape(t) && t.pend.None? && t.over == NO_PAGE
  }

  /** All entries of the index, in leaf order. */
  ghost function Contents(t: Tree): seq<Entry>
    requires |t.levels| >= 1
  {
    t.levels[0].flat
  }

  /**
    The order of the index: the leaf entries ascend, and the first separator, which no
    insertion lowers, is not above the first key of the second leaf.
   */
  ghost predicate Ordered(t: Tree)
    requires |t.levels| >= 1
  {
    && Ascending(Contents(t))
    && (|t.levels| > 1 ==> At(t, 0, 1) && FirstKey(t.pages, t.root) <= FirstKey(t.pages, Nd(t, 0, 1)))
  }

  // ---------------------------------------------------------------- nodes and children of a whole tree

  lemma NodeSize(t: Tree, i: nat, a: nat)
    requires Whole(t) && At(t, i, a)
    ensures |Es(t, i, a)| < t.max && Nd(t, i, a) in t.pages && (t.pages[Nd(t, i, a)].isLeaf <==> i == 0)
    ensures i > 0 || |t.levels| > 1 ==> |Es(t, i, a)| >= 2
    ensures |t.levels[i].offs| == |t.levels[i].nodes| + 1
  {
    assert NodeOk(t, i, a) && LevelOk(t, i);
  }

  /**
    The child in slot `s` is page `offs + s` of the level below, and its separator is its first key (first leaf
    excepted).
   */
  lemma Child(t: Tree, i: nat, j: nat, s: nat)
    requires Whole(t) && 0 < i && At(t, i, j) && s < |Es(t, i, j)|
    ensures |t.levels[i].offs| == |t.levels[i].nodes| + 1
    ensures var c := t.levels[i].offs[j] + s;
            && At(t, i - 1, c)
            && Nd(t, i - 1, c) == Es(t, i, j)[s].rid.page
            && (i > 1 || c > 0 ==> FirstKey(t.pages, Nd(t, i - 1, c)) == Es(t, i, j)[s].key)
  {
    Kid(t, i, j, s);
    assert LevelOk(t, i - 1);
  }

  lemma ManyLeaves(t: Tree)
    requires Whole(t)
    ensures At(t, 0, 1) <==> |t.levels| > 1
  {
    if |t.levels| > 1 {
      assert LevelOk(t, 1);
      NodeSize(t, 1, 0);
      Child(t, 1, 0, 1);
    }
  }

  /** On the left edge of the tree all separators are the same. */
  lemma {:induction false} FirstSep(t: Tree, i: nat)
    requires Whole(t) && 0 < i < |t.levels|
    ensures At(t, i, 0) && FirstKey(t.pages, Nd(t, i, 0)) == FirstKey(t.pages, t.root)
    decreases |t.levels| - i
  {
    assert LevelOk(t, i);
    if i < |t.levels| - 1 {
      FirstSep(t, i + 1);
      NodeSize(t, i + 1, 0);
      assert LevelOk(t, i + 1);
      Child(t, i + 1, 0, 0);
    }
  }

  /** Every node right of the first one of its level starts with the first key of a leaf right of the first leaf. */
  lemma {:induction false} FirstKeyDown(t: Tree, i: nat, j: nat) returns (r: nat)
    requires Whole(t) && 0 < j && At(t, i, j)
    ensures 0 < r && At(t, 0, r) && FirstKey(t.pages, Nd(t, 0, r)) == FirstKey(t.pages, Nd(t, i, j))
  {
    if i == 0 {
      r := j;
    } else {
      NodeSize(t, i, j);
      NodeSize(t, i, 0);
      OffMonotone(t, i, 0, j);
      Child(t, i, j, 0);
      r := FirstKeyDown(t, i - 1, t.levels[i].offs[j]);
    }
  }

  lemma FirstKeysAscend(t: Tree, a: nat, b: nat)
    requires Whole(t) && Ascending(Contents(t)) && a < b && At(t, 0, b)
    ensures FirstKey(t.pages, Nd(t, 0, a)) < FirstKey(t.pages, Nd(t, 0, b))
  {
    ManyLeaves(t);
    NodeSize(t, 0, a);
    NodeSize(t, 0, b);
    FlatAt(t, 0, a, 0);
    FlatAt(t, 0, b, 0);
    OffMonotone(t, 0, a, b);
  }

  /** In an ordered tree the first separator is not above anything to the right. */
  lemma BaseBelow(t: Tree, i: nat, j: nat)
    requires Whole(t) && Ordered(t) && 0 < j && At(t, i, j) && |t.levels| > 1
    ensures FirstKey(t.pages, t.root) <= FirstKey(t.pages, Nd(t, i, j))
  {
    var r := FirstKeyDown(t, i, j);
    if r > 1 {
      FirstKeysAscend(t, 1, r);
    }
  }

  // ---------------------------------------------------------------- the descent

  /** Where the descent for `k` goes from page `j` of level `i`. */
  ghost function Step(t: Tree, i: nat, j: nat, k: Key): (c: nat)
    requires Whole(t) && 0 < i && At(t, i, j)
    ensures At(t, i - 1, c)
  {
    NodeSize(t, i, j);
    var s := ChildSlot(Es(t, i, j), k);
    Child(t, i, j, s);
    t.levels[i].offs[j] + s
  }

  /** The leaf, by its position, that the descent for `k` reaches from page `j` of level `i`. */
  ghost function Descend(t: Tree, i: nat, j: nat, k: Key): (r: nat)
    requires Whole(t) && At(t, i, j)
    ensures At(t, 0, r)
    decreases i
  {
    if i == 0 then j else Descend(t, i - 1, Step(t, i, j, k), k)
  }

  ghost function LeafFor(t: Tree, k: Key): (r: nat)
    requires Whole(t)
    ensures At(t, 0, r)
  {
    Descend(t, |t.levels| - 1, 0, k)
  }

  /** What get_value answers. */
  ghost function Lookup(t: Tree, k: Key): Option<Rid>
    requires Whole(t)
  {
    Find(Es(t, 0, LeafFor(t, k)), k)
  }

  ghost predicate NotBelow(t: Tree, i: nat, j: nat, k: Key)
  {
    At(t, i, j) && (j == 0 || FirstKey(t.pages, Nd(t, i, j)) <= k)
  }

  ghost predicate NotAbove(t: Tree, i: nat, j: nat, k: Key)
  {
    At(t, i, j) && (At(t, i, j + 1) ==> k < FirstKey(t.pages, Nd(t, i, j + 1)))
  }

  lemma StepLow(t: Tree, i: nat, j: nat, k: Key)
    requires Whole(t) && 0 < i && NotBelow(t, i, j, k)
    ensures NotBelow(t, i - 1, Step(t, i, j, k), k)
  {
    NodeSize(t, i, j);
    assert LevelOk(t, i);
    Child(t, i, j, ChildSlot(Es(t, i, j), k));
  }

  lemma StepHigh(t: Tree, i: nat, j: nat, k: Key)
    requires Whole(t) && Ordered(t) && 0 < i && NotBelow(t, i, j, k) && NotAbove(t, i, j, k)
    ensures NotAbove(t, i - 1, Step(t, i, j, k), k)
  {
    NodeSize(t, i, j);
    var s := ChildSlot(Es(t, i, j), k);
    Child(t, i, j, s);
    if s + 1 < |Es(t, i, j)| {
      Child(t, i, j, s + 1);
      StepGap(t, i, j, k);
    } else {
      NextSubtree(t, i, j);
    }
  }

  /** The separator after the slot chosen is above the key. */
  lemma StepGap(t: Tree, i: nat, j: nat, k: Key)
    requires Whole(t) && Ordered(t) && 0 < i && NotBelow(t, i, j, k)
    requires ChildSlot(Es(t, i, j), k) + 1 < |Es(t, i, j)|
    ensures k < Es(t, i, j)[ChildSlot(Es(t, i, j), k) + 1].key
  {
    if UpperIdx(Es(t, i, j), k) == 0 {
      assert j == 0;
      assert LevelOk(t, i);
      FirstSep(t, i);
      Child(t, i, 0, 1);
      BaseBelow(t, i - 1, 1);
    }
  }

  /** The page after the last child of a node is the first child of the next node. */
  lemma NextSubtree(t: Tree, i: nat, j: nat)
    requires Whole(t) && 0 < i && At(t, i, j)
    ensures |t.levels[i].offs| == |t.levels[i].nodes| + 1
    ensures var c := t.levels[i].offs[j] + |Es(t, i, j)|;
            if At(t, i, j + 1)
            then At(t, i - 1, c) && FirstKey(t.pages, Nd(t, i - 1, c)) == FirstKey(t.pages, Nd(t, i, j + 1))
            else c == |t.levels[i - 1].nodes|
  {
    assert NodeOk(t, i, j) && LevelOk(t, i) && LevelOk(t, i - 1);
    if At(t, i, j + 1) {
      NodeSize(t, i, j + 1);
      Child(t, i, j + 1, 0);
    }
  }

  lemma {:induction false} DescendLow(t: Tree, i: nat, j: nat, k: Key)
    requires Whole(t) && NotBelow(t, i, j, k)
    ensures NotBelow(t, 0, Descend(t, i, j, k), k)
  {
    if i > 0 {
      StepLow(t, i, j, k);
      DescendLow(t, i - 1, Step(t, i, j, k), k);
    }
  }

  lemma {:induction false} DescendHigh(t: Tree, i: nat, j: nat, k: Key)
    requires Whole(t) && Ordered(t) && NotBelow(t, i, j, k) && NotAbove(t, i, j, k)
    ensures NotAbove(t, 0, Descend(t, i, j, k), k)
  {
    if i > 0 {
      StepLow(t, i, j, k);
      StepHigh(t, i, j, k);
      DescendHigh(t, i - 1, Step(t, i, j, k), k);
    }
  }

  /** A key below the first separator always goes to the first leaf. */
  lemma {:induction false} DescendFirst(t: Tree, i: nat, k: Key)
    requires Whole(t) && At(t, i, 0) && k < FirstKey(t.pages, t.root) && |t.levels| > 1
    ensures Descend(t, i, 0, k) == 0
  {
    if i > 0 {
      FirstSep(t, i);
      NodeSize(t, i, 0);
      assert LevelOk(t, i);
      assert Step(t, i, 0, k) == 0;
      DescendFirst(t, i - 1, k);
    }
  }

  // ---------------------------------------------------------------- the leaf reached

  lemma LeafForIsRight(t: Tree, k: Key)
    requires Whole(t)
    ensures NotBelow(t, 0, LeafFor(t, k), k)
    ensures Ordered(t) ==> NotAbove(t, 0, LeafFor(t, k), k)
  {
    var h := |t.levels| - 1;
    DescendLow(t, h, 0, k);
    if Ordered(t) {
      DescendHigh(t, h, 0, k);
    }
  }

  /** Everything left of the leaf reached is below the key, everything right of it above. */
  lemma AroundLeaf(t: Tree, r: nat, k: Key)
    requires Whole(t) && Ascending(Contents(t)) && NotBelow(t, 0, r, k) && NotAbove(t, 0, r, k)
    ensures |t.levels[0].offs| == |t.levels[0].nodes| + 1
    ensures var F := Contents(t); var o := t.levels[0].offs[r];
            && o + |Es(t, 0, r)| <= |F|
            && (forall p | 0 <= p < o :: F[p].key < k)
            && (forall p | o + |Es(t, 0, r)| <= p < |F| :: k < F[p].key)
  {
    assert NodeOk(t, 0, r) && LevelOk(t, 0);
    ManyLeaves(t);
    if r > 0 {
      NodeSize(t, 0, r);
      FlatAt(t, 0, r, 0);
    }
    if At(t, 0, r + 1) {
      NodeSize(t, 0, r + 1);
      FlatAt(t, 0, r + 1, 0);
    }
  }

  /** A search whose answer lies in a stretch of the sequence. */
  lemma BoundsShift(F: seq<Entry>, es: seq<Entry>, o: nat, k: Key)
    requires o + |es| <= |F| && (forall s | 0 <= s < |es| :: F[o + s] == es[s])
    requires forall p | 0 <= p < o :: F[p].key < k
    requires forall p | o + |es| <= p < |F| :: k < F[p].key
    ensures LowerIdx(F, k) == o + LowerIdx(es, k) && UpperIdx(F, k) == o + UpperIdx(es, k)
  {
    var lo, hi := LowerIdx(es, k), UpperIdx(es, k);
    forall p | 0 <= p < o + lo ensures F[p].key < k {
      if p >= o { assert F[o + (p - o)] == es[p - o]; }
    }
    forall p | 0 <= p < o + hi ensures F[p].key <= k {
      if p >= o { assert F[o + (p - o)] == es[p - o]; }
    }
    LowerIdxUnique(F, k, o + lo);
    UpperIdxUnique(F, k, o + hi);
  }

  /** The search inside the leaf is the search of all entries. */
  lemma BoundsAgree(t: Tree, k: Key)
    requires Whole(t) && Ordered(t)
    ensures var r := LeafFor(t, k);
            && |t.levels[0].offs| == |t.levels[0].nodes| + 1
            && LowerIdx(Contents(t), k) == t.levels[0].offs[r] + LowerIdx(Es(t, 0, r), k)
            && UpperIdx(Contents(t), k) == t.levels[0].offs[r] + UpperIdx(Es(t, 0, r), k)
  {
    var r := LeafFor(t, k);
    LeafForIsRight(t, k);
    AroundLeaf(t, r, k);
    assert NodeOk(t, 0, r);
    BoundsShift(Contents(t), Es(t, 0, r), t.levels[0].offs[r], k);
  }

  /** In an ordered tree get_value is the lookup in the sequence of all entries. */
  lemma LookupIsFind(t: Tree, k: Key)
    requires Whole(t) && Ordered(t)
    ensures Lookup(t, k) == Find(Contents(t), k)
  {
    var r := LeafFor(t, k);
    LeafForIsRight(t, k);
    BoundsAgree(t, k);
    AroundLeaf(t, r, k);
    var s := LowerIdx(Es(t, 0, r), k);
    if s < |Es(t, 0, r)| {
      FlatAt(t, 0, r, s);
    }
  }

  // ---------------------------------------------------------------- what separators say

  /**
    A separator that is not the first of its level is the first key of its child, and the first key of the child's
    stretch.
   */
  lemma SepAt(t: Tree, i: nat, x: nat)
    requires Whole(t) && 0 < i < |t.levels| && 0 < x < |t.levels[i].flat|
    ensures |t.levels[i - 1].offs| == |t.levels[i - 1].nodes| + 1
    ensures At(t, i - 1, x) && t.levels[i].flat[x].key == FirstKey(t.pages, Nd(t, i - 1, x))
    ensures 0 < t.levels[i - 1].offs[x] < |t.levels[i - 1].flat|
    ensures t.levels[i - 1].flat[t.levels[i - 1].offs[x]].key == t.levels[i].flat[x].key
  {
    assert LevelOk(t, i - 1);
    assert KidOk(t, i - 1, x);
    NodeSize(t, i - 1, x);
    NodeSize(t, i - 1, 0);
    FlatAt(t, i - 1, x, 0);
    OffMonotone(t, i - 1, 0, x);
  }

  /** Entry `x` of a level names page `x` of the level below, whose stretch is not empty. */
  lemma Under(t: Tree, i: nat, x: nat)
    requires Whole(t) && 0 < i < |t.levels| && x < |t.levels[i].flat|
    ensures |t.levels[i - 1].offs| == |t.levels[i - 1].nodes| + 1
    ensures At(t, i - 1, x) && t.levels[i].flat[x].rid.page == Nd(t, i - 1, x)
    ensures t.levels[i - 1].offs[x] < t.levels[i - 1].offs[x] + |Es(t, i - 1, x)| == t.levels[i - 1].offs[x + 1]
            <= |t.levels[i - 1].flat|
    ensures x + 1 < |t.levels[i].flat| ==> t.levels[i - 1].offs[x + 1] < |t.levels[i - 1].flat|
  {
    assert LevelOk(t, i - 1);
    assert KidOk(t, i - 1, x);
    assert NodeOk(t, i - 1, x);
    NodeSize(t, i - 1, x);
    OffMonotone(t, i - 1, x, |t.levels[i - 1].nodes|);
    if x + 1 < |t.levels[i].flat| {
      NodeSize(t, i - 1, x + 1);
      OffMonotone(t, i - 1, x + 1, |t.levels[i - 1].nodes|);
    }
  }

  /** Where, among all leaf entries, the subtree of entry `x` of level `i` begins. */
  ghost function Start(t: Tree, i: nat, x: nat): (p: nat)
    requires Whole(t) && i < |t.levels| && x < |t.levels[i].flat|
    ensures p < |Contents(t)|
    decreases i
  {
    if i == 0 then x
    else
      Under(t, i, x);
      Start(t, i - 1, t.levels[i - 1].offs[x])
  }

  lemma {:induction false} StartsAscend(t: Tree, i: nat, x: nat, y: nat)
    requires Whole(t) && i < |t.levels| && x < y < |t.levels[i].flat|
    ensures Start(t, i, x) < Start(t, i, y)
  {
    if i > 0 {
      Under(t, i, x);
      Under(t, i, y);
      OffMonotone(t, i - 1, x, y);
      StartsAscend(t, i - 1, t.levels[i - 1].offs[x], t.levels[i - 1].offs[y]);
    }
  }

  lemma {:induction false} DescendFrom(t: Tree, i: nat, x: nat, k: Key)
    requires Whole(t) && 0 < i < |t.levels| && x < |t.levels[i].flat| && At(t, i - 1, x)
    ensures |t.levels[0].offs| == |t.levels[0].nodes| + 1
    ensures Start(t, i, x) <= t.levels[0].offs[Descend(t, i - 1, x, k)]
  {
    Under(t, i, x);
    if i > 1 {
      var c, o := Step(t, i - 1, x, k), t.levels[i - 1].offs[x];
      NodeSize(t, i - 1, x);
      DescendFrom(t, i - 1, c, k);
      if o < c {
        StartsAscend(t, i - 1, o, c);
      }
    }
  }

  lemma {:induction false} DescendBefore(t: Tree, i: nat, x: nat, k: Key)
    requires Whole(t) && 0 < i < |t.levels| && x + 1 < |t.levels[i].flat| && At(t, i - 1, x)
    ensures |t.levels[0].offs| == |t.levels[0].nodes| + 1
    ensures var r := Descend(t, i - 1, x, k); t.levels[0].offs[r] + |Es(t, 0, r)| <= Start(t, i, x + 1)
  {
    Under(t, i, x);
    Under(t, i, x + 1);
    if i > 1 {
      var c := Step(t, i - 1, x, k);
      NodeSize(t, i - 1, x);
      DescendBefore(t, i - 1, c, k);
      if c + 1 < t.levels[i - 1].offs[x + 1] {
        StartsAscend(t, i - 1, c + 1, t.levels[i - 1].offs[x + 1]);
      }
    }
  }

  /** The descent from a child stays inside its subtree. */
  lemma DescendWithin(t: Tree, i: nat, x: nat, k: Key)
    requires Whole(t) && 0 < i < |t.levels| && x < |t.levels[i].flat| && At(t, i - 1, x)
    ensures |t.levels[0].offs| == |t.levels[0].nodes| + 1
    ensures var r := Descend(t, i - 1, x, k);
            && Start(t, i, x) <= t.levels[0].offs[r]
            && (x + 1 < |t.levels[i].flat| ==> t.levels[0].offs[r] + |Es(t, 0, r)| <= Start(t, i, x + 1))
  {
    DescendFrom(t, i, x, k);
    if x + 1 < |t.levels[i].flat| {
      DescendBefore(t, i, x, k);
    }
  }

  lemma {:induction false} StartKey(t: Tree, i: nat, x: nat)
    requires Whole(t) && i < |t.levels| && 0 < x < |t.levels[i].flat|
    ensures t.levels[i].flat[x].key == Contents(t)[Start(t, i, x)].key
  {
    if i > 0 {
      SepAt(t, i, x);
      StartKey(t, i - 1, t.levels[i - 1].offs[x]);
    }
  }

  /**
    A separator other than the first of its level is the least key of its whole subtree: exactly the leaf entries before
    the subtree are below it.
   */
  lemma SeparatorsBound(t: Tree, i: nat, x: nat)
    requires Whole(t) && Ordered(t) && 0 < i < |t.levels| && 0 < x < |t.levels[i].flat|
    ensures t.levels[i].flat[x].key == Contents(t)[Start(t, i, x)].key
    ensures forall q | 0 <= q < |Contents(t)| :: Contents(t)[q].key < t.levels[i].flat[x].key <==> q < Start(t, i, x)
  {
    StartKey(t, i, x);
  }

  /** No stored key is below the first separator. */
  ghost predicate AtOrAbove(t: Tree)
  {
    |t.levels| >= 1 && forall q | 0 <= q < |Contents(t)| :: FirstKey(t.pages, t.root) <= Contents(t)[q].key
  }

  /** The first separator of every internal level is that of the root. */
  lemma FirstOfLevel(t: Tree, i: nat)
    requires Whole(t) && 0 < i < |t.levels|
    ensures |t.levels[i].flat| > 1 && t.levels[i].flat[0].key == FirstKey(t.pages, t.root)
  {
    FirstSep(t, i);
    NodeSize(t, i, 0);
    FlatAt(t, i, 0, 0);
    FlatAt(t, i, 0, 1);
    assert LevelOk(t, i);
  }

  /**
    Along every level the separators ascend strictly, except that the first one may equal the second if the first leaf
    holds keys below it.
   */
  lemma SeparatorsAscend(t: Tree, i: nat, x: nat, y: nat)
    requires Whole(t) && Ordered(t) && 0 < i < |t.levels| && x < y < |t.levels[i].flat|
    ensures t.levels[i].flat[x].key <= t.levels[i].flat[y].key
    ensures x > 0 || AtOrAbove(t) ==> t.levels[i].flat[x].key < t.levels[i].flat[y].key
  {
    StartsAscend(t, i, x, y);
    StartKey(t, i, y);
    if x > 0 {
      StartKey(t, i, x);
    } else {
      FirstOfLevel(t, i);
      SepAt(t, i, y);
      BaseBelow(t, i - 1, y);
      assert Contents(t)[0].key < Contents(t)[Start(t, i, y)].key;
    }
  }
}
