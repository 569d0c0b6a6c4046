/** What a split, an insertion into a node and a new root do to the whole-tree invariant. */
module IndexSteps {
  import opened Common
  import opened Sequences
  import opened IndexNode
  import opened IndexTree

  // ---------------------------------------------------------------- the page map after a split

  predicate Among(es: seq<Entry>, c: int)
  {
    exists u | 0 <= u < |es| :: es[u].rid.page == c
  }

  /** Half the entries of leaf `p` move to `q`, which enters the list after `p`. */
  function SplitLeaf(pages: Pages, p: int, q: int): Pages
    requires p in pages && pages[p].next in pages
  {
    var node := pages[p];
    var mid := |node.entries| / 2;
    var pages1 := pages[q := Node(node.parent, true, p, node.next, node.entries[mid..])];
    var pages2 := pages1[node.next := pages1[node.next].(prev := q)];
    pages2[p := pages2[p].(entries := node.entries[..mid], next := q)]
  }

  function SetParents(pages: Pages, es: seq<Entry>, q: int): (r: Pages)
    ensures r.Keys == pages.Keys
    ensures forall c | c in pages :: r[c] == if Among(es, c) then pages[c].(parent := q) else pages[c]
  {
    map c | c in pages :: if Among(es, c) then pages[c].(parent := q) else pages[c]
  }

  /** Half the entries of internal page `p` move to `q`, and the moved children are told their new parent. */
  function SplitInternal(pages: Pages, p: int, q: int): Pages
    requires p in pages
  {
    var node := pages[p];
    var mid := |node.entries| / 2;
    var hi := node.entries[mid..];
    SetParents(pages[q := Node(node.parent, false, 0, 0, hi)][p := node.(entries := node.entries[..mid])], hi, q)
  }

  function SplitPages(pages: Pages, p: int, q: int): Pages
    requires p in pages && (pages[p].isLeaf ==> pages[p].next in pages)
  {
    if pages[p].isLeaf then SplitLeaf(pages, p, q) else SplitInternal(pages, p, q)
  }

  /** `pages'` is `pages` after page `p` has handed its upper half to the new page `q`. */
  ghost predicate SplitOf(pages: Pages, pages': Pages, p: int, q: int)
  {
    && p in pages && q !in pages && q in pages'
    && var es := Ents(pages, p); var m := |Ents(pages, p)| / 2;
    && Ents(pages', p) == es[..m]
    && Ents(pages', q) == es[m..]
    && pages'[q].isLeaf == pages[p].isLeaf
    && ParentOf(pages', q) == ParentOf(pages, p)
    && (forall c | c in pages :: c in pages' && pages'[c].isLeaf == pages[c].isLeaf)
    && (forall c | c != p && c != q :: Ents(pages', c) == Ents(pages, c))
    && (forall c | c in pages' && c != q :: c in pages)
    && (forall c | c in pages ::
      ParentOf(pages', c) == if !pages[p].isLeaf && Among(es[m..], c) then q else ParentOf(pages, c))
  }

  lemma SplitLeafOf(pages: Pages, p: int, q: int)
    requires p in pages && pages[p].isLeaf && pages[p].next in pages && pages[p].next != p && q !in pages
    ensures SplitOf(pages, SplitLeaf(pages, p, q), p, q)
  {
  }

  lemma SplitInternalOf(pages: Pages, p: int, q: int)
    requires p in pages && !pages[p].isLeaf && q !in pages && !Among(pages[p].entries, q)
    ensures SplitOf(pages, SplitInternal(pages, p, q), p, q)
  {
    var es, m := pages[p].entries, |pages[p].entries| / 2;
    forall u | 0 <= u < |es[m..]| ensures es[m..][u].rid.page != q {
      assert es[m..][u] == es[m + u];
    }
  }

  /** The first key of every page survives a split, and no page but `p` changes its entries. */
  lemma SplitKeeps(pages: Pages, pages': Pages, p: int, q: int)
    requires SplitOf(pages, pages', p, q) && |Ents(pages, p)| >= 2
    ensures forall c | c != q :: FirstKey(pages', c) == FirstKey(pages, c)
  {
    assert Ents(pages', p)[0] == Ents(pages, p)[0];
  }

  // ---------------------------------------------------------------- splitting a node

  /** Page `a` of level `i` is full and nothing is half done. */
  ghost predicate Full(t: Tree, i: nat, a: nat)
  {
    Shape(t) && t.pend.None? && At(t, i, a) && t.over == Nd(t, i, a)
  }

  lemma SplitReady(t: Tree, i: nat, a: nat)
    requires Full(t, i, a)
    ensures var p := Nd(t, i, a);
            && p in t.pages && |t.pages[p].entries| == t.max
            && (t.pages[p].isLeaf <==> i == 0)
            && (i == 0 ==> t.pages[p].next in t.pages && t.pages[p].next != p)
            && (i > 0 ==> forall s | 0 <= s < |t.pages[p].entries| :: t.pages[p].entries[s].rid.page in t.pages)
            && SplitOf(t.pages, SplitPages(t.pages, p, t.next), p, t.next)
  {
    var p := Nd(t, i, a);
    assert NodeOk(t, i, a);
    if i == 0 {
      LeafNext(t, a);
      SplitLeafOf(t.pages, p, t.next);
    } else {
      forall s | 0 <= s < |t.pages[p].entries|
        ensures t.pages[p].entries[s].rid.page in t.pages && t.pages[p].entries[s].rid.page != t.next {
        KidLevel(t, i, a, s);
      }
      SplitInternalOf(t.pages, p, t.next);
    }
  }

  lemma LeafNext(t: Tree, a: nat)
    requires Shape(t) && At(t, 0, a)
    ensures Nd(t, 0, a) in t.pages && t.pages[Nd(t, 0, a)].next in t.pages && t.pages[Nd(t, 0, a)].next != Nd(t, 0, a)
  {
    var L := t.levels[0].nodes;
    assert Linked(t.pages, L, a);
    assert NodeOk(t, 0, a);
    if a + 1 < |L| {
      assert NodeOk(t, 0, a + 1) && Distinct(t, 0);
    }
  }

  ghost function SplitLevel(lv: Level, a: nat, q: int, half: nat): Level
    requires a < |lv.nodes| && a < |lv.offs|
  {
    Level(InsertAt(lv.nodes, a + 1, q), lv.nodes, lv.flat, InsertAt(lv.offs, a + 1, lv.offs[a] + half))
  }

  /** The levels after page `a` of level `i` has been split. */
  ghost function LevelsSplit(ls: seq<Level>, i: nat, a: nat, q: int, half: nat): (r: seq<Level>)
    requires i < |ls| && a < |ls[i].nodes| && a < |ls[i].offs|
    ensures |r| == |ls| && forall x | 0 <= x < |ls| && x != i :: r[x] == ls[x]
    ensures r[i].nodes == InsertAt(ls[i].nodes, a + 1, q) && r[i].named == ls[i].nodes && r[i].flat == ls[i].flat
    ensures r[i].offs == InsertAt(ls[i].offs, a + 1, ls[i].offs[a] + half)
  {
    ls[i := SplitLevel(ls[i], a, q, half)]
  }

  ghost function SplitTree(t: Tree, i: nat, a: nat): Tree
    requires Full(t, i, a)
  {
    SplitReady(t, i, a);
    assert LevelOk(t, i);
    var p := Nd(t, i, a);
    t.(pages := SplitPages(t.pages, p, t.next),
       levels := LevelsSplit(t.levels, i, a, t.next, t.max / 2),
       lvl := t.lvl[t.next := i],
       pend := Some((i, a)),
       over := NO_PAGE,
       next := t.next + 1)
  }

  /** `t'` is `t` after the split, as far as the invariant can tell. */
  ghost predicate SplitRel(t: Tree, t': Tree, i: nat, a: nat)
    requires At(t, i, a)
  {
    && |t'.levels| == |t.levels|
    && (forall x | 0 <= x < |t.levels| && x != i :: t'.levels[x] == t.levels[x])
    && t'.levels[i].nodes == InsertAt(t.levels[i].nodes, a + 1, t.next)
    && t'.levels[i].named == t.levels[i].nodes
    && t'.levels[i].flat == t.levels[i].flat
    && a < |t.levels[i].offs|
    && t'.levels[i].offs == InsertAt(t.levels[i].offs, a + 1, t.levels[i].offs[a] + t.max / 2)
    && SplitOf(t.pages, t'.pages, Nd(t, i, a), t.next)
    && |Es(t, i, a)| == t.max && Nd(t, i, a) in t.pages && (t.pages[Nd(t, i, a)].isLeaf <==> i == 0)
    && t'.lvl == t.lvl[t.next := i] && t'.pend == Some((i, a)) && t'.over == NO_PAGE
    && t'.next == t.next + 1 && t'.root == t.root && t'.max == t.max
  }

  lemma SplitBuilt(t: Tree, pages': Pages, i: nat, a: nat)
    requires At(t, i, a) && a < |t.levels[i].offs| && SplitOf(t.pages, pages', Nd(t, i, a), t.next)
    requires |Es(t, i, a)| == t.max && Nd(t, i, a) in t.pages && (t.pages[Nd(t, i, a)].isLeaf <==> i == 0)
    ensures SplitRel(t, t.(pages := pages', levels := LevelsSplit(t.levels, i, a, t.next, t.max / 2),
                           lvl := t.lvl[t.next := i], pend := Some((i, a)), over := NO_PAGE, next := t.next + 1), i, a)
  {
  }

  lemma SplitSame(t: Tree, i: nat, a: nat)
    requires Full(t, i, a)
    ensures SplitRel(t, SplitTree(t, i, a), i, a)
  {
    SplitReady(t, i, a);
    assert LevelOk(t, i);
    SplitBuilt(t, SplitPages(t.pages, Nd(t, i, a), t.next), i, a);
  }

  /** A child keeps its parent unless it hangs under the upper half of the split page. */
  lemma SplitParent(t: Tree, t': Tree, i: nat, a: nat, x: nat, y: nat, s: nat)
    requires Full(t, i, a) && SplitRel(t, t', i, a) && 0 < x && At(t, x, y) && s < |Es(t, x, y)|
    requires x != i || y != a || s < t.max / 2
    ensures var c := Es(t, x, y)[s].rid.page; ParentOf(t'.pages, c) == ParentOf(t.pages, c) == Nd(t, x, y)
  {
    KidLevel(t, x, y, s);
    Kid(t, x, y, s);
    var c, es := Es(t, x, y)[s].rid.page, Es(t, i, a);
    var m := |es| / 2;
    if i > 0 && Among(es[m..], c) {
      var u :| 0 <= u < |es[m..]| && es[m..][u].rid.page == c;
      SplitNotMoved(t, i, a, x, y, s, m + u);
    }
  }

  lemma SplitNotMoved(t: Tree, i: nat, a: nat, x: nat, y: nat, s: nat, u: nat)
    requires Shape(t) && 0 < x && 0 < i && At(t, x, y) && At(t, i, a) && s < |Es(t, x, y)| && u < |Es(t, i, a)|
    requires Es(t, x, y)[s].rid.page == Es(t, i, a)[u].rid.page
    ensures x == i && y == a && s == u
  {
    KidLevel(t, x, y, s);
    KidLevel(t, i, a, u);
    KidsApart(t, i, y, s, a, u);
  }

  /** A page other than the split one keeps its entries. */
  lemma SplitOther(t: Tree, t': Tree, i: nat, a: nat, x: nat, y: nat)
    requires Full(t, i, a) && SplitRel(t, t', i, a) && At(t, x, y) && (x != i || y != a)
    ensures var y' := if x == i && y > a then y + 1 else y;
            At(t', x, y') && Nd(t', x, y') == Nd(t, x, y) && Es(t', x, y') == Es(t, x, y)
  {
    assert NodeOk(t, x, y) && LevelOk(t, i);
    if Nd(t, x, y) == Nd(t, i, a) {
      NodesApart(t, x, y, i, a);
    }
  }

  lemma SplitFathers(t: Tree, t': Tree, i: nat, a: nat, x: nat, y: nat)
    requires Full(t, i, a) && SplitRel(t, t', i, a) && 0 < x && At(t, x, y) && (x != i || y != a)
    ensures var y' := if x == i && y > a then y + 1 else y; At(t', x, y') && Fathers(t', x, y')
  {
    SplitOther(t, t', i, a, x, y);
    var y' := if x == i && y > a then y + 1 else y;
    forall s | 0 <= s < |Es(t', x, y')| ensures ParentOf(t'.pages, Es(t', x, y')[s].rid.page) == Nd(t', x, y') {
      SplitParent(t, t', i, a, x, y, s);
    }
  }

  lemma SplitStretch(t: Tree, t': Tree, i: nat, a: nat, x: nat, y: nat)
    requires Full(t, i, a) && SplitRel(t, t', i, a) && At(t, x, y) && (x != i || y != a)
    ensures var y' := if x == i && y > a then y + 1 else y; var lv := t'.levels[x];
            && At(t', x, y') && y' + 1 < |lv.offs| && lv.offs[y' + 1] == lv.offs[y'] + |Es(t', x, y')| <= |lv.flat|
            && Stretch(t', x, y')
  {
    assert NodeOk(t, x, y);
    SplitOther(t, t', i, a, x, y);
  }

  lemma SplitNodeOther(t: Tree, t': Tree, i: nat, a: nat, x: nat, y: nat)
    requires Full(t, i, a) && SplitRel(t, t', i, a) && At(t, x, y) && (x != i || y != a)
    ensures NodeOk(t', x, if x == i && y > a then y + 1 else y)
  {
    assert NodeOk(t, x, y);
    SplitOther(t, t', i, a, x, y);
    SplitStretch(t, t', i, a, x, y);
    if x > 0 {
      SplitFathers(t, t', i, a, x, y);
    }
  }

  lemma SplitNodeLow(t: Tree, t': Tree, i: nat, a: nat)
    requires Full(t, i, a) && SplitRel(t, t', i, a)
    ensures NodeOk(t', i, a)
  {
    assert NodeOk(t, i, a) && LevelOk(t, i);
    assert At(t', i, a) && Nd(t', i, a) == Nd(t, i, a);
    assert Es(t', i, a) == Es(t, i, a)[..t.max / 2];
    forall s | 0 <= s < t.max / 2 ensures t.levels[i].flat[t.levels[i].offs[a] + s] == Es(t', i, a)[s] {
      assert Es(t', i, a)[s] == Es(t, i, a)[s];
    }
    if i > 0 {
      forall s | 0 <= s < |Es(t', i, a)| ensures ParentOf(t'.pages, Es(t', i, a)[s].rid.page) == Nd(t', i, a) {
        SplitParent(t, t', i, a, i, a, s);
      }
    }
  }

  lemma SplitHigh(t: Tree, t': Tree, i: nat, a: nat)
    requires Full(t, i, a) && SplitRel(t, t', i, a)
    ensures |Es(t, i, a)| == t.max && At(t', i, a + 1) && Nd(t', i, a + 1) == t.next
    ensures Es(t', i, a + 1) == Es(t, i, a)[t.max / 2..]
  {
  }

  lemma SplitHighFathers(t: Tree, t': Tree, i: nat, a: nat)
    requires Full(t, i, a) && SplitRel(t, t', i, a) && i > 0
    ensures At(t', i, a + 1) && Fathers(t', i, a + 1)
  {
    SplitHigh(t, t', i, a);
    var es, m := Es(t, i, a), t.max / 2;
    forall s | 0 <= s < |es[m..]| ensures ParentOf(t'.pages, es[m..][s].rid.page) == t.next {
      KidLevel(t, i, a, m + s);
      assert es[m..][s] == es[m + s];
    }
  }

  lemma SplitNodeHigh(t: Tree, t': Tree, i: nat, a: nat)
    requires Full(t, i, a) && SplitRel(t, t', i, a)
    ensures NodeOk(t', i, a + 1)
  {
    assert NodeOk(t, i, a) && LevelOk(t, i);
    SplitHigh(t, t', i, a);
    StretchTail(t.levels[i].flat, t.levels[i].offs[a], Es(t, i, a), t.max / 2);
    if i > 0 {
      SplitHighFathers(t, t', i, a);
    }
  }

  lemma StretchTail(flat: seq<Entry>, o: nat, es: seq<Entry>, m: nat)
    requires m <= |es| && o + |es| <= |flat| && forall s | 0 <= s < |es| :: flat[o + s] == es[s]
    ensures forall s | 0 <= s < |es[m..]| :: flat[o + m + s] == es[m..][s]
  {
    forall s | 0 <= s < |es[m..]| ensures flat[o + m + s] == es[m..][s] {
      assert flat[o + (m + s)] == es[m + s];
    }
  }

  lemma SplitLevels(t: Tree, t': Tree, i: nat, a: nat, x: nat)
    requires Full(t, i, a) && SplitRel(t, t', i, a) && x < |t.levels|
    ensures LevelOk(t', x)
  {
    assert LevelOk(t, x) && LevelOk(t, i) && NodeOk(t, i, a);
    if x + 1 < |t.levels| {
      assert LevelOk(t, x + 1);
    }
    if x == i {
      SplitUnnamed(t, t', i, a);
    }
  }

  /** A page is not a child of a page that is no higher. */
  lemma NotAmongKids(t: Tree, i: nat, a: nat, m: nat, p: int)
    requires Shape(t) && i > 0 && At(t, i, a) && m <= |Es(t, i, a)| && p in t.lvl && t.lvl[p] >= i
    ensures !Among(Es(t, i, a)[m..], p)
  {
    var es := Es(t, i, a);
    forall u | 0 <= u < |es[m..]| ensures es[m..][u].rid.page != p {
      KidLevel(t, i, a, m + u);
    }
  }

  lemma SplitUnnamed(t: Tree, t': Tree, i: nat, a: nat)
    requires Full(t, i, a) && SplitRel(t, t', i, a)
    ensures i < |t'.levels| && Unnamed(t', i, a)
  {
    var p := Nd(t, i, a);
    assert t'.levels[i].nodes[a] == p && t'.levels[i].nodes[a + 1] == t.next;
    assert NodeOk(t, i, a);
    if i > 0 {
      NotAmongKids(t, i, a, t.max / 2, p);
    }
  }

  lemma SplitDistinct(t: Tree, t': Tree, i: nat, a: nat, x: nat)
    requires Full(t, i, a) && SplitRel(t, t', i, a) && x < |t.levels|
    ensures Distinct(t', x)
  {
    assert Distinct(t, x);
    if x == i {
      var L := t.levels[i].nodes;
      forall y | 0 <= y < |L| ensures L[y] != t.next {
        assert NodeOk(t, i, y);
      }
      InsertNoDup(L, a + 1, t.next);
    }
  }

  lemma InsertNoDup(L: seq<int>, k: nat, q: int)
    requires NoDup(L) && k <= |L| && forall y | 0 <= y < |L| :: L[y] != q
    ensures NoDup(InsertAt(L, k, q))
  {
  }

  lemma SplitKid(t: Tree, t': Tree, i: nat, a: nat, x: nat, k: nat)
    requires Full(t, i, a) && SplitRel(t, t', i, a) && x + 1 < |t.levels| && k < |t'.levels[x].named|
    ensures KidOk(t', x, k)
  {
    assert LevelOk(t, x) && KidOk(t, x, k);
    assert t'.levels[x].named == t.levels[x].named && t'.levels[x + 1].flat == t.levels[x + 1].flat;
    SplitKeeps(t.pages, t'.pages, Nd(t, i, a), t.next);
    NamedAt(t, x, k);
    assert NodeOk(t, x, NamedPos(t, x, k));
  }

  ghost predicate SameLinks(pages: Pages, pages': Pages, c: int)
  {
    c in pages ==> c in pages' && pages'[c].next == pages[c].next && pages'[c].prev == pages[c].prev
  }

  /** A list whose links stay is still the list. */
  lemma ChainKept(pages: Pages, pages': Pages, L: seq<int>)
    requires Chain(pages, L) && forall c :: SameLinks(pages, pages', c)
    ensures Chain(pages', L)
  {
    assert SameLinks(pages, pages', LEAF_HEADER);
    forall j | 0 <= j < |L| ensures Linked(pages', L, j) {
      assert Linked(pages, L, j) && SameLinks(pages, pages', L[j]);
    }
  }

  lemma SplitInternalLinks(pages: Pages, p: int, q: int)
    requires p in pages && q !in pages
    ensures forall c :: SameLinks(pages, SplitInternal(pages, p, q), c)
  {
  }

  lemma SplitChain(t: Tree, i: nat, a: nat)
    requires Full(t, i, a)
    ensures Chain(SplitTree(t, i, a).pages, SplitTree(t, i, a).levels[0].nodes)
  {
    SplitReady(t, i, a);
    if i == 0 {
      SplitLeafChain(t, a);
    } else {
      SplitInternalLinks(t.pages, Nd(t, i, a), t.next);
      ChainKept(t.pages, SplitTree(t, i, a).pages, t.levels[0].nodes);
    }
  }

  lemma SplitLeafChain(t: Tree, a: nat)
    requires Full(t, 0, a)
    ensures Chain(SplitTree(t, 0, a).pages, SplitTree(t, 0, a).levels[0].nodes)
  {
    SplitReady(t, 0, a);
    var L := t.levels[0].nodes;
    assert Distinct(t, 0);
    forall j | 0 <= j < |L| ensures L[j] in t.pages && L[j] != LEAF_HEADER {
      assert NodeOk(t, 0, j);
    }
    ChainInsert(t.pages, L, a, t.next);
  }

  lemma ChainInsert(pages: Pages, L: seq<int>, a: nat, q: int)
    requires Chain(pages, L) && NoDup(L) && a < |L| && q !in pages
      && (forall j | 0 <= j < |L| :: L[j] in pages && L[j] != LEAF_HEADER)
    requires pages[L[a]].next in pages
    ensures Chain(SplitLeaf(pages, L[a], q), InsertAt(L, a + 1, q))
  {
    var L', pages' := InsertAt(L, a + 1, q), SplitLeaf(pages, L[a], q);
    assert Linked(pages, L, a);
    forall j | 0 <= j < |L'| ensures Linked(pages', L', j) {
      if j <= a {
        assert Linked(pages, L, j);
      } else if j > a + 1 {
        assert Linked(pages, L, j - 1);
        assert L'[j] == L[j - 1];
      }
    }
  }

  lemma SplitNodes(t: Tree, t': Tree, i: nat, a: nat)
    requires Full(t, i, a) && SplitRel(t, t', i, a)
    ensures AllNodes(t')
  {
    assert LevelOk(t, i);
    forall x, y | 0 <= x < |t'.levels| && 0 <= y < |t'.levels[x].nodes| ensures NodeOk(t', x, y) {
      if x == i && y == a {
        SplitNodeLow(t, t', i, a);
      } else if x == i && y == a + 1 {
        SplitNodeHigh(t, t', i, a);
      } else {
        SplitNodeOther(t, t', i, a, x, if x == i && y > a then y - 1 else y);
      }
    }
  }

  lemma SplitKids(t: Tree, t': Tree, i: nat, a: nat)
    requires Full(t, i, a) && SplitRel(t, t', i, a)
    ensures AllLevels(t') && AllKids(t')
  {
    forall x | 0 <= x < |t'.levels| ensures LevelOk(t', x) && Distinct(t', x) {
      SplitLevels(t, t', i, a, x);
      SplitDistinct(t, t', i, a, x);
    }
    forall x, k | 0 <= x < |t'.levels| - 1 && 0 <= k < |t'.levels[x].named| ensures KidOk(t', x, k) {
      SplitKid(t, t', i, a, x, k);
    }
  }

  /** A full page is split: the tree is whole again except that the new page is not named above. */
  lemma SplitKeepsShape(t: Tree, i: nat, a: nat)
    requires Full(t, i, a)
    ensures Shape(SplitTree(t, i, a))
  {
    var t' := SplitTree(t, i, a);
    SplitSame(t, i, a);
    SplitNodes(t, t', i, a);
    SplitKids(t, t', i, a);
    SplitChain(t, i, a);
    SplitTop(t, t', i, a);
    SplitFresh(t, i, a);
  }

  lemma SplitTop(t: Tree, t': Tree, i: nat, a: nat)
    requires Full(t, i, a) && SplitRel(t, t', i, a)
    ensures Top(t')
  {
    var h := |t.levels| - 1;
    assert NodeOk(t, h, 0);
    if i > 0 {
      NotAmongKids(t, i, a, t.max / 2, t.root);
    }
  }

  lemma SplitFresh(t: Tree, i: nat, a: nat)
    requires Full(t, i, a)
    ensures Fresh(SplitTree(t, i, a))
  {
    SplitReady(t, i, a);
    assert SplitOf(t.pages, SplitTree(t, i, a).pages, Nd(t, i, a), t.next);
  }

  // ---------------------------------------------------------------- one more entry in a node

  function WithEntries(pages: Pages, p: int, es: seq<Entry>): Pages
    requires p in pages
  {
    pages[p := pages[p].(entries := es)]
  }

  function PutEntry(pages: Pages, p: int, k: nat, e: Entry): Pages
    requires p in pages && k <= |Ents(pages, p)|
  {
    WithEntries(pages, p, InsertAt(Ents(pages, p), k, e))
  }

  /** `pages'` is `pages` after page `p` has taken an entry. */
  ghost predicate PutOf(pages: Pages, pages': Pages, p: int, k: nat, e: Entry)
    requires k <= |Ents(pages, p)|
  {
    && (forall c :: ParentOf(pages', c) == ParentOf(pages, c))
    && (forall c | c != p :: Ents(pages', c) == Ents(pages, c))
    && Ents(pages', p) == InsertAt(Ents(pages, p), k, e)
    && pages'.Keys == pages.Keys && forall c | c in pages :: pages'[c].isLeaf == pages[c].isLeaf
  }

  lemma PutEntryOf(pages: Pages, p: int, k: nat, e: Entry)
    requires p in pages && k <= |Ents(pages, p)|
    ensures PutOf(pages, PutEntry(pages, p, k, e), p, k, e)
  {
  }

  /** Every stretch after page `b` begins one position later. */
  ghost function Bump(offs: seq<nat>, b: nat): (r: seq<nat>)
    ensures |r| == |offs|
  {
    seq(|offs|, j requires 0 <= j < |offs| => if j <= b then offs[j] else offs[j] + 1)
  }

  /**
    Entry `e` can enter page `b` of level `i` at slot `k`: either it is a leaf entry that does not become the first
    one of a later leaf, or it names the pending page right after the slot of the page it was split off.
   */
  ghost predicate Fits(t: Tree, i: nat, b: nat, k: nat, e: Entry)
  {
    && Shape(t) && t.over == NO_PAGE && At(t, i, b) && k <= |Es(t, i, b)|
    && (i > 0 || b > 0 ==> k > 0)
    && |t.levels[i].offs| == |t.levels[i].nodes| + 1
    && t.levels[i].offs[b] + k <= |t.levels[i].flat|
    && if i == 0 then t.pend.None? else NamesPending(t, i, b, k, e)
  }

  ghost predicate NamesPending(t: Tree, i: nat, b: nat, k: nat, e: Entry)
    requires 0 < i && At(t, i, b) && b < |t.levels[i].offs|
  {
    && PendingAt(t, i - 1)
    && t.levels[i].offs[b] + k == t.pend.value.1 + 1
    && At(t, i - 1, t.pend.value.1 + 1)
    && e.rid.page == Nd(t, i - 1, t.pend.value.1 + 1)
    && e.key == FirstKey(t.pages, e.rid.page)
    && ParentOf(t.pages, e.rid.page) == Nd(t, i, b)
  }

  ghost function PutLevel(lv: Level, b: nat, k: nat, e: Entry): Level
    requires b < |lv.offs| && lv.offs[b] + k <= |lv.flat|
  {
    lv.(flat := InsertAt(lv.flat, lv.offs[b] + k, e), offs := Bump(lv.offs, b))
  }

  /** The levels after entry `e` has entered page `b` of level `i`; every page of the level below is named then. */
  ghost function LevelsPut(ls: seq<Level>, i: nat, b: nat, k: nat, e: Entry): (r: seq<Level>)
    requires i < |ls| && b < |ls[i].offs| && ls[i].offs[b] + k <= |ls[i].flat|
    ensures |r| == |ls|
    ensures forall x | 0 <= x < |ls| :: r[x].nodes == ls[x].nodes
    ensures forall x | 0 <= x < |ls| && x != i :: r[x].flat == ls[x].flat && r[x].offs == ls[x].offs
    ensures r[i].flat == InsertAt(ls[i].flat, ls[i].offs[b] + k, e) && r[i].offs == Bump(ls[i].offs, b)
    ensures forall x | 0 <= x < |ls| :: r[x].named == if x + 1 == i then ls[x].nodes else ls[x].named
  {
    var ls1 := ls[i := PutLevel(ls[i], b, k, e)];
    if i == 0 then ls1 else ls1[i - 1 := ls1[i - 1].(named := ls1[i - 1].nodes)]
  }

  ghost function PutTree(t: Tree, i: nat, b: nat, k: nat, e: Entry): Tree
    requires Fits(t, i, b, k, e)
  {
    assert NodeOk(t, i, b);
    t.(pages := PutEntry(t.pages, Nd(t, i, b), k, e),
       levels := LevelsPut(t.levels, i, b, k, e),
       pend := None,
       over := if |Es(t, i, b)| + 1 == t.max then Nd(t, i, b) else NO_PAGE)
  }

  /** `t'` is `t` after the entry has entered, as far as the invariant can tell. */
  ghost predicate PutRel(t: Tree, t': Tree, i: nat, b: nat, k: nat, e: Entry)
    requires Fits(t, i, b, k, e)
  {
    && |t'.levels| == |t.levels|
    && (forall x | 0 <= x < |t.levels| :: t'.levels[x].nodes == t.levels[x].nodes)
    && (forall x | 0 <= x < |t.levels| && x != i ::
          t'.levels[x].flat == t.levels[x].flat && t'.levels[x].offs == t.levels[x].offs)
    && t'.levels[i].flat == InsertAt(t.levels[i].flat, t.levels[i].offs[b] + k, e)
    && t'.levels[i].offs == Bump(t.levels[i].offs, b)
    && (forall x | 0 <= x < |t.levels| ::
          t'.levels[x].named == if x + 1 == i then t.levels[x].nodes else t.levels[x].named)
    && PutOf(t.pages, t'.pages, Nd(t, i, b), k, e)
    && t'.lvl == t.lvl && t'.pend == None && t'.next == t.next && t'.root == t.root && t'.max == t.max
    && t'.over == if |Es(t, i, b)| + 1 == t.max then Nd(t, i, b) else NO_PAGE
  }

  lemma PutSame(t: Tree, i: nat, b: nat, k: nat, e: Entry)
    requires Fits(t, i, b, k, e)
    ensures PutRel(t, PutTree(t, i, b, k, e), i, b, k, e)
  {
    assert NodeOk(t, i, b);
    PutEntryOf(t.pages, Nd(t, i, b), k, e);
  }

  /** The first key of a page changes only when the first leaf takes a new smallest key. */
  lemma FirstKeyPut(t: Tree, t': Tree, i: nat, b: nat, k: nat, e: Entry, c: int)
    requires Fits(t, i, b, k, e) && PutRel(t, t', i, b, k, e) && (k > 0 || c != Nd(t, i, b))
    ensures FirstKey(t'.pages, c) == FirstKey(t.pages, c)
  {
    if c == Nd(t, i, b) {
      assert InsertAt(Es(t, i, b), k, e)[0] == Es(t, i, b)[0];
    }
  }

  lemma PutFirstKey(t: Tree, i: nat, b: nat, k: nat, e: Entry, c: int)
    requires Fits(t, i, b, k, e) && (k > 0 || c != Nd(t, i, b))
    ensures FirstKey(PutTree(t, i, b, k, e).pages, c) == FirstKey(t.pages, c)
  {
    PutSame(t, i, b, k, e);
    FirstKeyPut(t, PutTree(t, i, b, k, e), i, b, k, e, c);
  }

  /** A page other than the changed one keeps its entries. */
  lemma PutOther(t: Tree, t': Tree, i: nat, b: nat, k: nat, e: Entry, x: nat, y: nat)
    requires Fits(t, i, b, k, e) && PutRel(t, t', i, b, k, e) && At(t, x, y) && (x != i || y != b)
    ensures At(t', x, y) && Nd(t', x, y) == Nd(t, x, y) && Es(t', x, y) == Es(t, x, y)
  {
    if Nd(t, x, y) == Nd(t, i, b) {
      NodesApart(t, x, y, i, b);
    }
  }

  /** A stretch that lies beside the place where an entry enters. */
  lemma StretchBeside(flat: seq<Entry>, o: nat, es: seq<Entry>, p: nat, e: Entry)
    requires o + |es| <= |flat| && p <= |flat| && forall s | 0 <= s < |es| :: flat[o + s] == es[s]
    ensures o + |es| <= p ==> forall s | 0 <= s < |es| :: InsertAt(flat, p, e)[o + s] == es[s]
    ensures p <= o ==> forall s | 0 <= s < |es| :: InsertAt(flat, p, e)[o + 1 + s] == es[s]
  {
    if p <= o {
      forall s | 0 <= s < |es| ensures InsertAt(flat, p, e)[o + 1 + s] == es[s] {
        assert InsertAt(flat, p, e)[o + s + 1] == flat[o + s];
      }
    }
  }

  lemma StretchMoved(t: Tree, t': Tree, i: nat, b: nat, p: nat, e: Entry, y: nat)
    requires NodeOk(t, i, y) && y != b && p <= |t.levels[i].flat|
    requires if y < b then t.levels[i].offs[y] + |Es(t, i, y)| <= p else p <= t.levels[i].offs[y]
    requires At(t', i, y) && Es(t', i, y) == Es(t, i, y)
    requires t'.levels[i].flat == InsertAt(t.levels[i].flat, p, e) && t'.levels[i].offs == Bump(t.levels[i].offs, b)
    ensures var lv := t'.levels[i];
            && y + 1 < |lv.offs| && lv.offs[y + 1] == lv.offs[y] + |Es(t', i, y)| <= |lv.flat|
            && Stretch(t', i, y)
  {
    StretchBeside(t.levels[i].flat, t.levels[i].offs[y], Es(t, i, y), p, e);
  }

  lemma PutStretch(t: Tree, t': Tree, i: nat, b: nat, k: nat, e: Entry, y: nat)
    requires Fits(t, i, b, k, e) && PutRel(t, t', i, b, k, e) && At(t, i, y) && y != b
    ensures var lv := t'.levels[i];
            && At(t', i, y) && y + 1 < |lv.offs| && lv.offs[y + 1] == lv.offs[y] + |Es(t', i, y)| <= |lv.flat|
            && Stretch(t', i, y)
  {
    PutOther(t, t', i, b, k, e, i, y);
    assert NodeOk(t, i, y);
    if y < b {
      OffMonotone(t, i, y, b);
    } else {
      OffMonotone(t, i, b, y);
    }
    StretchMoved(t, t', i, b, t.levels[i].offs[b] + k, e, y);
  }

  lemma PutNodeOther(t: Tree, t': Tree, i: nat, b: nat, k: nat, e: Entry, x: nat, y: nat)
    requires Fits(t, i, b, k, e) && PutRel(t, t', i, b, k, e) && At(t, x, y) && (x != i || y != b)
    ensures NodeOk(t', x, y)
  {
    PutOther(t, t', i, b, k, e, x, y);
    assert NodeOk(t, x, y) && NodeOk(t, i, b);
    if x == i {
      PutStretch(t, t', i, b, k, e, y);
    }
  }

  /** A stretch that an entry enters. */
  lemma StretchEntered(flat: seq<Entry>, o: nat, es: seq<Entry>, k: nat, e: Entry)
    requires o + |es| <= |flat| && k <= |es| && forall s | 0 <= s < |es| :: flat[o + s] == es[s]
    ensures forall s | 0 <= s <= |es| :: InsertAt(flat, o + k, e)[o + s] == InsertAt(es, k, e)[s]
  {
    forall s | 0 <= s <= |es| ensures InsertAt(flat, o + k, e)[o + s] == InsertAt(es, k, e)[s] {
      if s > k {
        assert InsertAt(flat, o + k, e)[o + s] == flat[o + (s - 1)];
      }
    }
  }

  lemma HereStretch(t: Tree, t': Tree, i: nat, b: nat, k: nat, e: Entry)
    requires NodeOk(t, i, b) && At(t', i, b) && k <= |Es(t, i, b)| && Es(t', i, b) == InsertAt(Es(t, i, b), k, e)
    requires t'.levels[i].flat == InsertAt(t.levels[i].flat, t.levels[i].offs[b] + k, e)
    requires t'.levels[i].offs == Bump(t.levels[i].offs, b)
    ensures var lv := t'.levels[i];
            && b + 1 < |lv.offs| && lv.offs[b + 1] == lv.offs[b] + |Es(t', i, b)| <= |lv.flat|
            && Stretch(t', i, b)
  {
    StretchEntered(t.levels[i].flat, t.levels[i].offs[b], Es(t, i, b), k, e);
  }

  lemma PutFathers(t: Tree, t': Tree, i: nat, b: nat, k: nat, e: Entry)
    requires Fits(t, i, b, k, e) && PutRel(t, t', i, b, k, e) && i > 0
    ensures At(t', i, b) && Fathers(t', i, b)
  {
    forall s | 0 <= s < |Es(t', i, b)| ensures ParentOf(t'.pages, Es(t', i, b)[s].rid.page) == Nd(t', i, b) {
      if s != k {
        Kid(t, i, b, if s < k then s else s - 1);
      }
    }
  }

  lemma PutNodeHere(t: Tree, t': Tree, i: nat, b: nat, k: nat, e: Entry)
    requires Fits(t, i, b, k, e) && PutRel(t, t', i, b, k, e)
    ensures NodeOk(t', i, b)
  {
    assert NodeOk(t, i, b) && LevelOk(t, i);
    HereStretch(t, t', i, b, k, e);
    if i > 0 {
      PutFathers(t, t', i, b, k, e);
    }
  }

  lemma PutLevels(t: Tree, t': Tree, i: nat, b: nat, k: nat, e: Entry, x: nat)
    requires Fits(t, i, b, k, e) && PutRel(t, t', i, b, k, e) && x < |t.levels|
    ensures LevelOk(t', x) && Distinct(t', x)
  {
    assert LevelOk(t, x) && LevelOk(t, i) && Distinct(t, x);
    if x + 1 < |t.levels| {
      assert LevelOk(t, x + 1);
    }
  }

  /** The level below the changed one: its new page is named now. */
  lemma PutKidBelow(t: Tree, t': Tree, i: nat, b: nat, k: nat, e: Entry, m: nat)
    requires Fits(t, i, b, k, e) && PutRel(t, t', i, b, k, e) && 0 < i && m < |t.levels[i - 1].nodes|
    ensures KidOk(t', i - 1, m)
  {
    var pos := t.pend.value.1 + 1;
    if m == pos {
      PutKidPending(t, t', i, b, k, e);
    } else {
      assert LevelOk(t, i - 1);
      FirstKeyPut(t, t', i, b, k, e, Nd(t, i - 1, m));
      var m0 := if m < pos then m else m - 1;
      assert KidOk(t, i - 1, m0) && t.levels[i - 1].named[m0] == Nd(t, i - 1, m);
    }
  }

  lemma PutKidPending(t: Tree, t': Tree, i: nat, b: nat, k: nat, e: Entry)
    requires Fits(t, i, b, k, e) && PutRel(t, t', i, b, k, e) && 0 < i
    ensures KidOk(t', i - 1, t.pend.value.1 + 1)
  {
    FirstKeyPut(t, t', i, b, k, e, e.rid.page);
  }

  lemma PutKidOther(t: Tree, t': Tree, i: nat, b: nat, k: nat, e: Entry, x: nat, m: nat)
    requires Fits(t, i, b, k, e) && PutRel(t, t', i, b, k, e)
    requires x + 1 < |t.levels| && x + 1 != i && m < |t.levels[x].nodes|
    ensures KidOk(t', x, m)
  {
    assert LevelOk(t, x);
    assert KidOk(t, x, m);
    if k > 0 || Nd(t, x, m) != Nd(t, i, b) {
      FirstKeyPut(t, t', i, b, k, e, Nd(t, x, m));
    } else {
      NodesApart(t, x, m, i, b);
    }
  }

  lemma PutChain(t: Tree, i: nat, b: nat, k: nat, e: Entry)
    requires Fits(t, i, b, k, e)
    ensures Chain(PutTree(t, i, b, k, e).pages, t.levels[0].nodes)
  {
    assert NodeOk(t, i, b);
    ChainKept(t.pages, PutTree(t, i, b, k, e).pages, t.levels[0].nodes);
  }

  /** An entry that fits leaves a whole tree, up to the size of the page that took it. */
  lemma PutKeepsShape(t: Tree, i: nat, b: nat, k: nat, e: Entry)
    requires Fits(t, i, b, k, e)
    ensures Shape(PutTree(t, i, b, k, e))
  {
    var t' := PutTree(t, i, b, k, e);
    PutSame(t, i, b, k, e);
    forall x, y | 0 <= x < |t'.levels| && 0 <= y < |t'.levels[x].nodes| ensures NodeOk(t', x, y) {
      if x == i && y == b {
        PutNodeHere(t, t', i, b, k, e);
      } else {
        PutNodeOther(t, t', i, b, k, e, x, y);
      }
    }
    forall x | 0 <= x < |t'.levels| ensures LevelOk(t', x) && Distinct(t', x) {
      PutLevels(t, t', i, b, k, e, x);
    }
    forall x, m | 0 <= x < |t'.levels| - 1 && 0 <= m < |t'.levels[x].named| ensures KidOk(t', x, m) {
      assert LevelOk(t', x);
      if x + 1 == i {
        PutKidBelow(t, t', i, b, k, e, m);
      } else {
        PutKidOther(t, t', i, b, k, e, x, m);
      }
    }
    PutChain(t, i, b, k, e);
    assert LevelOk(t, |t.levels| - 1);
  }

  // ---------------------------------------------------------------- the parent of a split page

  /** Where the parent of the page that was split keeps it. */
  lemma PendingParent(t: Tree) returns (b: nat, s: nat)
    requires Shape(t) && t.pend.Some? && t.pend.value.0 + 1 < |t.levels|
    ensures var (i, a) := t.pend.value;
            && At(t, i, a + 1)
            && At(t, i + 1, b) && s < |Es(t, i + 1, b)|
            && Es(t, i + 1, b)[s].rid.page == Nd(t, i, a)
            && ParentOf(t.pages, Nd(t, i, a)) == Nd(t, i + 1, b)
            && (t.over == NO_PAGE ==>
              Fits(t, i + 1, b, s + 1, Entry(FirstKey(t.pages, Nd(t, i, a + 1)), Rid(Nd(t, i, a + 1), -1))))
  {
    var (i, a) := t.pend.value;
    assert LevelOk(t, i) && LevelOk(t, i + 1);
    b, s := Locate(t, i + 1, |t.levels[i + 1].nodes|, a);
    Kid(t, i + 1, b, s);
    assert t.levels[i].named[a] == t.levels[i].nodes[a];
    OffMonotone(t, i + 1, b, |t.levels[i + 1].nodes|);
  }

  // ---------------------------------------------------------------- a new root

  /** The page map after the root has been split into `p` and `q` and page `r` becomes their parent. */
  function NewRoot(pages: Pages, p: int, q: int, r: int): Pages
    requires p in pages && q in pages
  {
    var root := Node(NO_PAGE, false, NO_PAGE, NO_PAGE,
                     [Entry(FirstKey(pages, p), Rid(p, -1)), Entry(FirstKey(pages, q), Rid(q, -1))]);
    var pages1 := pages[r := root];
    var pages2 := pages1[p := pages1[p].(parent := r)];
    pages2[q := pages2[q].(parent := r)]
  }

  /** The root has just been split. */
  ghost predicate RootSplit(t: Tree)
  {
    && Shape(t) && t.over == NO_PAGE && t.pend.Some? && t.pend.value.0 + 1 == |t.levels|
    && At(t, |t.levels| - 1, 1)
    && t.root in t.pages && Nd(t, |t.levels| - 1, 1) in t.pages
  }

  lemma RootReady(t: Tree)
    requires Shape(t) && t.over == NO_PAGE && t.pend.Some? && t.pend.value.0 + 1 == |t.levels|
    ensures RootSplit(t)
    ensures var h := |t.levels| - 1;
            && t.pend.value.1 == 0 && Nd(t, h, 0) == t.root && t.root != Nd(t, h, 1)
            && t.levels[h].nodes == [t.root, Nd(t, h, 1)]
            && t.pages[t.root].entries != [] && t.pages[Nd(t, h, 1)].entries != []
  {
    var h := |t.levels| - 1;
    assert NodeOk(t, h, 0) && NodeOk(t, h, 1) && Distinct(t, h);
  }

  ghost function RootTree(t: Tree): Tree
    requires RootSplit(t)
  {
    var h, r := |t.levels| - 1, t.next;
    var q := Nd(t, h, 1);
    var pages' := NewRoot(t.pages, t.root, q, r);
    t.(pages := pages',
       levels := t.levels[h := t.levels[h].(named := t.levels[h].nodes)] + [Level([r], [r], pages'[r].entries, [0, 2])],
       lvl := t.lvl[r := h + 1],
       pend := None,
       root := r,
       next := r + 1)
  }

  lemma RootSame(t: Tree)
    requires RootSplit(t)
    ensures var t' := RootTree(t); var h := |t.levels| - 1; var q := Nd(t, h, 1);
            && |t'.levels| == h + 2
            && (forall x | 0 <= x <= h ::
              t'.levels[x].nodes == t.levels[x].nodes && t'.levels[x].flat == t.levels[x].flat
                                          && t'.levels[x].offs == t.levels[x].offs)
            && t'.levels[h + 1] == Level([t.next], [t.next], Ents(t'.pages, t.next), [0, 2])
            && Ents(t'.pages, t.next)
              == [Entry(FirstKey(t.pages, t.root), Rid(t.root, -1)), Entry(FirstKey(t.pages, q), Rid(q, -1))]
            && (forall c | c != t.next :: Ents(t'.pages, c) == Ents(t.pages, c))
            && (forall c | c != t.next && c != t.root && c != q :: ParentOf(t'.pages, c) == ParentOf(t.pages, c))
            && ParentOf(t'.pages, t.root) == t.next && ParentOf(t'.pages, q) == t.next
            && ParentOf(t'.pages, t.next) == NO_PAGE
  {
    RootReady(t);
  }

  /** Every page of the old tree keeps its entries. */
  lemma RootOther(t: Tree, x: nat, y: nat)
    requires RootSplit(t) && At(t, x, y)
    ensures var t' := RootTree(t); At(t', x, y) && Nd(t', x, y) == Nd(t, x, y) && Es(t', x, y) == Es(t, x, y)
  {
    RootSame(t);
    assert NodeOk(t, x, y);
  }

  lemma RootFathers(t: Tree, x: nat, y: nat)
    requires RootSplit(t) && 0 < x && At(t, x, y)
    ensures At(RootTree(t), x, y) && Fathers(RootTree(t), x, y)
  {
    var t' := RootTree(t);
    RootOther(t, x, y);
    forall s | 0 <= s < |Es(t', x, y)| ensures ParentOf(t'.pages, Es(t', x, y)[s].rid.page) == Nd(t', x, y) {
      RootParent(t, x, y, s);
    }
  }

  lemma RootNodeOther(t: Tree, x: nat, y: nat)
    requires RootSplit(t) && At(t, x, y)
    ensures NodeOk(RootTree(t), x, y)
  {
    RootSame(t);
    RootReady(t);
    RootOther(t, x, y);
    assert NodeOk(t, x, y);
    if x > 0 {
      RootFathers(t, x, y);
    }
  }

  lemma RootParent(t: Tree, x: nat, y: nat, s: nat)
    requires RootSplit(t) && 0 < x && At(t, x, y) && s < |Es(t, x, y)|
    ensures ParentOf(RootTree(t).pages, Es(t, x, y)[s].rid.page) == Nd(t, x, y)
  {
    var h := |t.levels| - 1;
    RootReady(t);
    RootSame(t);
    KidLevel(t, x, y, s);
    Kid(t, x, y, s);
    assert NodeOk(t, h, 0) && NodeOk(t, h, 1);
  }

  lemma RootNodeTop(t: Tree)
    requires RootSplit(t)
    ensures NodeOk(RootTree(t), |t.levels|, 0)
  {
    RootReady(t);
    RootSame(t);
    var t' := RootTree(t);
    assert Nd(t', |t.levels|, 0) == t.next;
  }

  lemma RootLevels(t: Tree, x: nat)
    requires RootSplit(t) && x <= |t.levels|
    ensures LevelOk(RootTree(t), x) && Distinct(RootTree(t), x)
  {
    RootReady(t);
    RootSame(t);
    if x < |t.levels| {
      assert LevelOk(t, x) && Distinct(t, x);
      if x + 1 < |t.levels| {
        assert LevelOk(t, x + 1);
      }
    }
  }

  lemma RootKid(t: Tree, x: nat, k: nat)
    requires RootSplit(t) && x < |t.levels| && k < |t.levels[x].nodes|
    ensures KidOk(RootTree(t), x, k)
  {
    RootReady(t);
    RootSame(t);
    assert LevelOk(t, x) && NodeOk(t, x, k);
    if x + 1 < |t.levels| {
      assert KidOk(t, x, k);
    }
  }

  lemma RootChain(t: Tree)
    requires RootSplit(t)
    ensures Chain(RootTree(t).pages, t.levels[0].nodes)
  {
    var L, pages' := t.levels[0].nodes, RootTree(t).pages;
    forall j | 0 <= j < |L| ensures Linked(pages', L, j) {
      assert Linked(t.pages, L, j) && NodeOk(t, 0, j);
    }
  }

  /** A split root gets a parent: the tree grows by one level and is whole. */
  lemma RootKeepsShape(t: Tree)
    requires RootSplit(t)
    ensures Shape(RootTree(t))
  {
    var t' := RootTree(t);
    RootSame(t);
    forall x, y | 0 <= x < |t'.levels| && 0 <= y < |t'.levels[x].nodes| ensures NodeOk(t', x, y) {
      if x < |t.levels| {
        RootNodeOther(t, x, y);
      } else {
        RootNodeTop(t);
      }
    }
    forall x | 0 <= x < |t'.levels| ensures LevelOk(t', x) && Distinct(t', x) {
      RootLevels(t, x);
    }
    forall x, k | 0 <= x < |t'.levels| - 1 && 0 <= k < |t'.levels[x].named| ensures KidOk(t', x, k) {
      assert LevelOk(t', x);
      RootKid(t, x, k);
    }
    RootChain(t);
  }
}
