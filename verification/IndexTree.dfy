/**
  The whole-tree invariant of the B+ tree index.

  The tree is the page map itself. Beside it stands a ghost view: for each level, from the leaves up, the pages of that
  level in left-to-right order, the level's entries written one node after the other, and where each node's stretch
  begins. The entries of a level name exactly the pages of the level below, in order. So the view carries the tree
  structure without a recursive datatype, and a split leaves the flattened entries of its level alone.
 */
module IndexTree {
  import opened Common
  import opened Sequences
  import opened IndexNode

  type Pages = map<int, Node>

  const NO_PAGE := -1
  const LEAF_HEADER := 1
  const FIRST_NODE := 2

  /**
    `nodes`: the pages of a level. `named`: those the level above names. `flat`: the entries. `offs`: where each
    node's stretch of `flat` begins.
   */
  datatype Level = Level(nodes: seq<int>, named: seq<int>, flat: seq<Entry>, offs: seq<nat>)

  /**
    `pend == Some((i, a))`: page `a + 1` of level `i` has just been split off page `a` and is not named yet.
    `over`: the one page that holds the maximum number of entries and is about to be split.
   */
  datatype Tree = Tree(pages: Pages, levels: seq<Level>, lvl: map<int, nat>, pend: Option<(nat, nat)>, over: int,
                       root: int, next: int, max: nat)

  function Ents(pages: Pages, p: int): seq<Entry>
  {
    if p in pages then pages[p].entries else []
  }

  function ParentOf(pages: Pages, p: int): int
  {
    if p in pages then pages[p].parent else -2
  }

  function FirstKey(pages: Pages, p: int): Key
  {
    if Ents(pages, p) == [] then 0 else Ents(pages, p)[0].key
  }

  ghost predicate At(t: Tree, i: nat, a: nat)
  {
    i < |t.levels| && a < |t.levels[i].nodes|
  }

  /** Page `a` of level `i`. */
  ghost function Nd(t: Tree, i: nat, a: nat): int
    requires At(t, i, a)
  {
    t.levels[i].nodes[a]
  }

  ghost function Es(t: Tree, i: nat, a: nat): seq<Entry>
    requires At(t, i, a)
  {
    Ents(t.pages, Nd(t, i, a))
  }

  // ---------------------------------------------------------------- the invariant

  /** Every node but the root holds between half of `max` and `max - 1` entries; only the page `over` holds `max`. */
  ghost predicate SizeOk(t: Tree, i: nat, p: int)
  {
    var n := |Ents(t.pages, p)|;
    && (if p == t.over then n == t.max else n < t.max)
    && (i + 1 < |t.levels| ==> n >= t.max / 2)
    && (i > 0 ==> n >= 2)
    && (i < |t.levels| && |t.levels[i].nodes| > 1 ==> n >= t.max / 2)
  }

  /**
    The page exists at its level, its entries are its stretch of the level, and its children name it as their parent.
   */
  ghost predicate NodeOk(t: Tree, i: nat, a: nat)
  {
    && At(t, i, a)
    && a + 1 < |t.levels[i].offs|
    && var p := Nd(t, i, a);
    && p in t.pages && p in t.lvl && t.lvl[p] == i && FIRST_NODE <= p < t.next && (t.pages[p].isLeaf <==> i == 0)
    && t.levels[i].offs[a + 1] == t.levels[i].offs[a] + |Es(t, i, a)| <= |t.levels[i].flat|
    && Stretch(t, i, a)
    && (i > 0 ==> Fathers(t, i, a))
    && SizeOk(t, i, p)
  }

  ghost predicate Stretch(t: Tree, i: nat, a: nat)
    requires At(t, i, a) && a < |t.levels[i].offs| && t.levels[i].offs[a] + |Es(t, i, a)| <= |t.levels[i].flat|
  {
    forall s | 0 <= s < |Es(t, i, a)| :: t.levels[i].flat[t.levels[i].offs[a] + s] == Es(t, i, a)[s]
  }

  ghost predicate Fathers(t: Tree, i: nat, a: nat)
    requires At(t, i, a)
  {
    forall s | 0 <= s < |Es(t, i, a)| :: ParentOf(t.pages, Es(t, i, a)[s].rid.page) == Nd(t, i, a)
  }

  ghost predicate Distinct(t: Tree, i: nat)
  {
    i < |t.levels| && NoDup(t.levels[i].nodes)
  }

  ghost predicate LevelOk(t: Tree, i: nat)
  {
    && i < |t.levels|
    && var lv := t.levels[i];
    && |lv.nodes| >= 1
    && |lv.offs| == |lv.nodes| + 1
    && lv.offs[0] == 0
    && lv.offs[|lv.nodes|] == |lv.flat|
    && (i + 1 < |t.levels| ==> |lv.named| == |t.levels[i + 1].flat|)
    && if PendingAt(t, i) then Unnamed(t, i, t.pend.value.1) else lv.named == lv.nodes
  }

  ghost predicate PendingAt(t: Tree, i: nat)
  {
    t.pend.Some? && t.pend.value.0 == i
  }

  /** Page `a + 1` of level `i` is the one the level above does not name; it still carries the parent of page `a`. */
  ghost predicate Unnamed(t: Tree, i: nat, a: nat)
    requires i < |t.levels|
  {
    var lv := t.levels[i];
    && a + 1 < |lv.nodes| == |lv.named| + 1
    && lv.nodes == InsertAt(lv.named, a + 1, lv.nodes[a + 1])
    && ParentOf(t.pages, lv.nodes[a + 1]) == ParentOf(t.pages, lv.nodes[a])
    && Ents(t.pages, lv.nodes[a + 1]) != []
  }

  /**
    Entry `k` of the level above names page `k` of this level, under its first key; only the first leaf may hold keys
    below its separator.
   */
  ghost predicate KidOk(t: Tree, i: nat, k: nat)
  {
    && i + 1 < |t.levels|
    && k < |t.levels[i].named|
    && k < |t.levels[i + 1].flat|
    && t.levels[i].named[k] == t.levels[i + 1].flat[k].rid.page
    && (i > 0 || k > 0 ==> t.levels[i + 1].flat[k].key == FirstKey(t.pages, t.levels[i].named[k]))
  }

  /** The top level is the root alone, or the root and the page just split off it. */
  ghost predicate Top(t: Tree)
  {
    && |t.levels| >= 1
    && var h := |t.levels| - 1;
    && |t.levels[h].nodes| == (if PendingAt(t, h) then 2 else 1)
    && t.levels[h].nodes[0] == t.root
    && (PendingAt(t, h) ==> t.pend.value.1 == 0)
    && ParentOf(t.pages, t.root) == NO_PAGE
  }

  /** The leaves form a doubly linked list that is closed through the header page. */
  ghost predicate Chain(pages: Pages, leaves: seq<int>)
  {
    && |leaves| >= 1
    && LEAF_HEADER in pages
    && pages[LEAF_HEADER].next == leaves[0]
    && pages[LEAF_HEADER].prev == leaves[|leaves| - 1]
    && forall j | 0 <= j < |leaves| :: Linked(pages, leaves, j)
  }

  ghost predicate Linked(pages: Pages, leaves: seq<int>, j: nat)
  {
    && j < |leaves|
    && leaves[j] in pages
    && pages[leaves[j]].next == (if j + 1 < |leaves| then leaves[j + 1] else LEAF_HEADER)
    && pages[leaves[j]].prev == (if j > 0 then leaves[j - 1] else LEAF_HEADER)
  }

  /** Page numbers are handed out upwards. */
  ghost predicate Fresh(t: Tree)
  {
    && FIRST_NODE <= t.next
    && t.next !in t.pages && t.next !in t.lvl
    && (forall c | c in t.pages :: c < t.next)
    && (forall c | c in t.lvl :: c < t.next)
  }

  ghost predicate AllNodes(t: Tree)
  {
    forall i, a {:trigger NodeOk(t, i, a)} | 0 <= i < |t.levels| && 0 <= a < |t.levels[i].nodes| :: NodeOk(t, i, a)
  }

  ghost predicate AllLevels(t: Tree)
  {
    && (forall i {:trigger LevelOk(t, i)} | 0 <= i < |t.levels| :: LevelOk(t, i))
    && (forall i {:trigger Distinct(t, i)} | 0 <= i < |t.levels| :: Distinct(t, i))
  }

  ghost predicate AllKids(t: Tree)
  {
    forall i, k {:trigger KidOk(t, i, k)} | 0 <= i < |t.levels| - 1 && 0 <= k < |t.levels[i].named| :: KidOk(t, i, k)
  }

  ghost predicate Shape(t: Tree)
  {
    && t.max >= 4
    && Top(t)
    && AllLevels(t)
    && AllNodes(t)
    && AllKids(t)
    && Chain(t.pages, t.levels[0].nodes)
    && Fresh(t)
    && (t.pend.Some? ==> t.pend.value.0 < |t.levels|)
  }

  // ---------------------------------------------------------------- positions

  /** Nodes of different levels, and of different places in a level, are different pages. */
  lemma NodesApart(t: Tree, i: nat, a: nat, j: nat, b: nat)
    requires Shape(t) && At(t, i, a) && At(t, j, b) && Nd(t, i, a) == Nd(t, j, b)
    ensures i == j && a == b
  {
    assert NodeOk(t, i, a) && NodeOk(t, j, b) && Distinct(t, i);
  }

  lemma {:induction false} OffMonotone(t: Tree, i: nat, a: nat, b: nat)
    requires Shape(t) && i < |t.levels| && a < b <= |t.levels[i].nodes|
    ensures |t.levels[i].offs| == |t.levels[i].nodes| + 1
    ensures t.levels[i].offs[a] + |Es(t, i, a)| <= t.levels[i].offs[b] <= |t.levels[i].flat|
    decreases b
  {
    assert NodeOk(t, i, b - 1) && LevelOk(t, i);
    if a < b - 1 {
      OffMonotone(t, i, a, b - 1);
    }
  }

  /** Slot `s` of page `a` in the flattened level. */
  lemma FlatAt(t: Tree, i: nat, a: nat, s: nat)
    requires Shape(t) && At(t, i, a) && s < |Es(t, i, a)|
    ensures |t.levels[i].offs| == |t.levels[i].nodes| + 1
    ensures t.levels[i].offs[a] + s < |t.levels[i].flat|
    ensures t.levels[i].flat[t.levels[i].offs[a] + s] == Es(t, i, a)[s]
  {
    assert NodeOk(t, i, a) && LevelOk(t, i);
    OffMonotone(t, i, a, |t.levels[i].nodes|);
  }

  /** Every position of a flattened level is a slot of one of its first `n` pages. */
  lemma {:induction false} Locate(t: Tree, i: nat, n: nat, k: nat) returns (a: nat, s: nat)
    requires Shape(t) && i < |t.levels| && n <= |t.levels[i].nodes| && n < |t.levels[i].offs| && k < t.levels[i].offs[n]
    ensures a < n && At(t, i, a) && s < |Es(t, i, a)| && t.levels[i].offs[a] + s == k < |t.levels[i].flat|
    ensures t.levels[i].flat[k] == Es(t, i, a)[s]
  {
    assert LevelOk(t, i);
    assert NodeOk(t, i, n - 1);
    if t.levels[i].offs[n - 1] <= k {
      a, s := n - 1, k - t.levels[i].offs[n - 1];
      FlatAt(t, i, a, s);
    } else {
      a, s := Locate(t, i, n - 1, k);
    }
  }

  /** A position belongs to one page and one slot. */
  lemma FlatUnique(t: Tree, i: nat, a: nat, s: nat, b: nat, u: nat)
    requires Shape(t) && At(t, i, a) && At(t, i, b) && s < |Es(t, i, a)| && u < |Es(t, i, b)|
    requires |t.levels[i].offs| == |t.levels[i].nodes| + 1
    requires t.levels[i].offs[a] + s == t.levels[i].offs[b] + u
    ensures a == b && s == u
  {
    if a < b {
      OffMonotone(t, i, a, b);
    } else if b < a {
      OffMonotone(t, i, b, a);
    }
  }

  // ---------------------------------------------------------------- children

  /** The child in slot `s` of page `b`: its position below, and its separator. */
  lemma Kid(t: Tree, i: nat, b: nat, s: nat)
    requires Shape(t) && 0 < i && At(t, i, b) && s < |Es(t, i, b)|
    ensures |t.levels[i].offs| == |t.levels[i].nodes| + 1
    ensures var k := t.levels[i].offs[b] + s;
            && k < |t.levels[i - 1].named|
            && t.levels[i - 1].named[k] == Es(t, i, b)[s].rid.page
            && (i > 1 || k > 0 ==> Es(t, i, b)[s].key == FirstKey(t.pages, t.levels[i - 1].named[k]))
            && ParentOf(t.pages, Es(t, i, b)[s].rid.page) == Nd(t, i, b)
  {
    FlatAt(t, i, b, s);
    assert LevelOk(t, i - 1);
    assert KidOk(t, i - 1, t.levels[i].offs[b] + s);
    assert NodeOk(t, i, b);
  }

  /** Position `k` among the named pages of a level, as a position among all its pages. */
  ghost function NamedPos(t: Tree, i: nat, k: nat): nat
  {
    if PendingAt(t, i) && k > t.pend.value.1 then k + 1 else k
  }

  lemma NamedAt(t: Tree, i: nat, k: nat)
    requires Shape(t) && i < |t.levels| && k < |t.levels[i].named|
    ensures At(t, i, NamedPos(t, i, k)) && t.levels[i].named[k] == Nd(t, i, NamedPos(t, i, k))
  {
    assert LevelOk(t, i);
  }

  /** Two slots of a level never name the same page. */
  lemma KidsApart(t: Tree, i: nat, a: nat, s: nat, b: nat, u: nat)
    requires Shape(t) && 0 < i && At(t, i, a) && At(t, i, b) && s < |Es(t, i, a)| && u < |Es(t, i, b)|
    requires Es(t, i, a)[s].rid.page == Es(t, i, b)[u].rid.page
    ensures a == b && s == u
  {
    Kid(t, i, a, s);
    Kid(t, i, b, u);
    var k, m := t.levels[i].offs[a] + s, t.levels[i].offs[b] + u;
    NamedAt(t, i - 1, k);
    NamedAt(t, i - 1, m);
    NodesApart(t, i - 1, NamedPos(t, i - 1, k), i - 1, NamedPos(t, i - 1, m));
    FlatUnique(t, i, a, s, b, u);
  }

  /** A child lives one level below. */
  lemma KidLevel(t: Tree, i: nat, b: nat, s: nat)
    requires Shape(t) && 0 < i && At(t, i, b) && s < |Es(t, i, b)|
    ensures var c := Es(t, i, b)[s].rid.page; c in t.pages && c in t.lvl && t.lvl[c] == i - 1 && c < t.next
  {
    Kid(t, i, b, s);
    var k := t.levels[i].offs[b] + s;
    NamedAt(t, i - 1, k);
    assert NodeOk(t, i - 1, NamedPos(t, i - 1, k));
  }
}
