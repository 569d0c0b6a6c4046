/**
  One node of the B+ tree index: the searches inside a node and the in-place
  insertion of a block of key/rid pairs.

  A key is represented by its rank: module KeyOrder proves that comparing two raw
  keys of one index with ix_compare is comparing their ranks as integers.
 */
module IndexNode {
  import opened Common

  type Key = int

  datatype Entry = Entry(key: Key, rid: Rid)

  /** A page of the index file. The key array and the rid array are kept in step, so they are one sequence here. */
  datatype Node = Node(parent: int, isLeaf: bool, prev: int, next: int, entries: seq<Entry>)

  ghost predicate Ascending(es: seq<Entry>)
  {
    forall i, j | 0 <= i < j < |es| :: es[i].key < es[j].key
  }

  /** First position from `i` on whose key is not below `k`. */
  function LowerFrom(es: seq<Entry>, k: Key, i: nat): (r: nat)
    requires i <= |es|
    ensures i <= r <= |es|
    ensures forall j | i <= j < r :: es[j].key < k
    ensures r < |es| ==> k <= es[r].key
    decreases |es| - i
  {
    if i < |es| && es[i].key < k then LowerFrom(es, k, i + 1) else i
  }

  /** First position from `i` on whose key is above `k`. */
  function UpperFrom(es: seq<Entry>, k: Key, i: nat): (r: nat)
    requires i <= |es|
    ensures i <= r <= |es|
    ensures forall j | i <= j < r :: es[j].key <= k
    ensures r < |es| ==> k < es[r].key
    decreases |es| - i
  {
    if i < |es| && es[i].key <= k then UpperFrom(es, k, i + 1) else i
  }

  /** First position whose key is not below `k`. */
  function LowerIdx(es: seq<Entry>, k: Key): (r: nat)
    ensures r <= |es|
    ensures forall j | 0 <= j < r :: es[j].key < k
    ensures r < |es| ==> k <= es[r].key
  {
    LowerFrom(es, k, 0)
  }

  /** First position whose key is above `k`. */
  function UpperIdx(es: seq<Entry>, k: Key): (r: nat)
    ensures r <= |es|
    ensures forall j | 0 <= j < r :: es[j].key <= k
    ensures r < |es| ==> k < es[r].key
  {
    UpperFrom(es, k, 0)
  }

  /** The slot an internal node follows for `k`; keys below the first separator go to slot 0. */
  function ChildSlot(es: seq<Entry>, k: Key): (r: nat)
    ensures es != [] ==> r < |es|
  {
    var u := UpperIdx(es, k);
    if u == 0 then 0 else u - 1
  }

  /** A position is determined by what is below and what is not below the key. */
  lemma LowerIdxUnique(es: seq<Entry>, k: Key, r: nat)
    requires r <= |es|
    requires forall j | 0 <= j < r :: es[j].key < k
    requires r < |es| ==> k <= es[r].key
    ensures r == LowerIdx(es, k)
  {
    assert r <= LowerIdx(es, k) <= r;
  }

  lemma UpperIdxUnique(es: seq<Entry>, k: Key, r: nat)
    requires r <= |es|
    requires forall j | 0 <= j < r :: es[j].key <= k
    requires r < |es| ==> k < es[r].key
    ensures r == UpperIdx(es, k)
  {
    assert r <= UpperIdx(es, k) <= r;
  }

  method LowerBound(node: Node, target: Key) returns (r: nat)
    ensures r == LowerIdx(node.entries, target)
  {
    r := 0;
    while r < |node.entries|
      invariant r <= |node.entries|
      invariant forall j | 0 <= j < r :: node.entries[j].key < target
    {
      if node.entries[r].key >= target {
        break;
      }
      r := r + 1;
    }
    LowerIdxUnique(node.entries, target, r);
  }

  method UpperBound(node: Node, target: Key) returns (r: nat)
    ensures r == UpperIdx(node.entries, target)
  {
    r := 0;
    while r < |node.entries|
      invariant r <= |node.entries|
      invariant forall j | 0 <= j < r :: node.entries[j].key <= target
    {
      if node.entries[r].key > target {
        break;
      }
      r := r + 1;
    }
    UpperIdxUnique(node.entries, target, r);
  }

  /** The rid stored under `k`, if any. */
  function Find(es: seq<Entry>, k: Key): (r: Option<Rid>)
    ensures r.Some? ==> Entry(k, r.value) in es
  {
    var i := LowerIdx(es, k);
    if i < |es| && es[i].key == k then Some(es[i].rid) else None
  }

  lemma FindComplete(es: seq<Entry>, k: Key, r: Rid)
    requires Ascending(es) && Entry(k, r) in es
    ensures Find(es, k) == Some(r)
  {
    var j :| 0 <= j < |es| && es[j] == Entry(k, r);
    LowerIdxUnique(es, k, j);
  }

  method LeafLookup(node: Node, key: Key) returns (value: Option<Rid>)
    ensures value == Find(node.entries, key)
  {
    var pos := LowerBound(node, key);
    if pos == |node.entries| {
      return None;
    }
    if node.entries[pos].key != key {
      return None;
    }
    value := Some(node.entries[pos].rid);
  }

  method InternalLookup(node: Node, key: Key) returns (page: int)
    requires node.entries != []
    ensures page == node.entries[ChildSlot(node.entries, key)].rid.page
  {
    var u: int := UpperBound(node, key);
    var pos := u - 1;
    if pos < 0 {
      pos := 0;
    }
    page := node.entries[pos].rid.page;
  }

  /** Slot of the child with page number `child`; the caller knows that there is one. */
  method FindChild(node: Node, child: int) returns (r: nat)
    requires exists s | 0 <= s < |node.entries| :: node.entries[s].rid.page == child
    ensures r < |node.entries| && node.entries[r].rid.page == child
    ensures forall s | 0 <= s < r :: node.entries[s].rid.page != child
  {
    r := 0;
    while node.entries[r].rid.page != child
      invariant r < |node.entries|
      invariant forall s | 0 <= s < r :: node.entries[s].rid.page != child
      decreases |node.entries| - r
    {
      r := r + 1;
    }
  }

  lemma ThreeParts(es: seq<Entry>, was: seq<Entry>, pos: nat, block: seq<Entry>)
    requires pos <= |was| && |es| == |was| + |block|
    requires forall j | 0 <= j < pos :: es[j] == was[j]
    requires forall j | pos <= j < pos + |block| :: es[j] == block[j - pos]
    requires forall j | pos + |block| <= j < |es| :: es[j] == was[j - |block|]
    ensures es == was[..pos] + block + was[pos..]
  {
    var r := was[..pos] + block + was[pos..];
    forall j | 0 <= j < |es| ensures es[j] == r[j] {
      if j < pos {
        assert r[j] == was[j];
      } else if j < pos + |block| {
        assert r[j] == (was[..pos] + block)[j] == block[j - pos];
      } else {
        assert r[j] == was[pos..][j - pos - |block|] == was[j - |block|];
      }
    }
  }

  /**
    The node's two arrays inside the page frame. `keys` and `rids` have one slot more than
    a node ever keeps, and the first `num` slots of both are in use.
   */
  class NodePage {
    const keys: array<Key>
    const rids: array<Rid>
    var num: nat

    ghost predicate Valid()
      reads this
    {
      && keys as object != rids as object
      && keys.Length == rids.Length
      && num <= keys.Length
    }

    function Entries(): (es: seq<Entry>)
      reads this, keys, rids
      requires Valid()
      ensures |es| == num
    {
      seq(num, i requires 0 <= i < num && Valid() reads this, keys, rids => Entry(keys[i], rids[i]))
    }

    constructor (capacity: nat)
      ensures Valid() && fresh(keys) && fresh(rids) && keys.Length == capacity && Entries() == []
    {
      keys := new Key[capacity];
      rids := new Rid[capacity](_ => Rid(0, 0));
      num := 0;
    }

    /** Moves the slots from `pos` on up by `n`, as an overlapping move does, last slot first. */
    method ShiftUp<T>(a: array<T>, pos: nat, n: nat)
      requires pos <= num && num + n <= a.Length
      modifies a
      ensures forall j | 0 <= j < pos :: a[j] == old(a[j])
      ensures forall j | pos + n <= j < num + n :: a[j] == old(a[j - n])
    {
      var i := num;
      while i > pos
        invariant pos <= i <= num
        invariant forall j | 0 <= j < i :: a[j] == old(a[j])
        invariant forall j | i + n <= j < num + n :: a[j] == old(a[j - n])
      {
        i := i - 1;
        a[i + n] := a[i];
      }
    }

    method CopyIn<T>(a: array<T>, pos: nat, xs: seq<T>)
      requires pos + |xs| <= a.Length
      modifies a
      ensures forall j | 0 <= j < pos :: a[j] == old(a[j])
      ensures forall j | pos <= j < pos + |xs| :: a[j] == xs[j - pos]
      ensures forall j | pos + |xs| <= j < a.Length :: a[j] == old(a[j])
    {
      var i := 0;
      while i < |xs|
        invariant 0 <= i <= |xs|
        invariant forall j | 0 <= j < pos :: a[j] == old(a[j])
        invariant forall j | pos <= j < pos + i :: a[j] == xs[j - pos]
        invariant forall j | pos + |xs| <= j < a.Length :: a[j] == old(a[j])
      {
        a[pos + i] := xs[i];
        i := i + 1;
      }
    }

    /** Opens a gap of `|block|` pairs at `pos` and fills it. */
    method InsertPairs(pos: nat, block: seq<Entry>)
      requires Valid() && pos <= num && num + |block| <= keys.Length
      modifies this, keys, rids
      ensures Valid()
      ensures Entries() == old(Entries()[..pos]) + block + old(Entries()[pos..])
    {
      ghost var was := Entries();
      var n := |block|;
      var ks := seq(n, i requires 0 <= i < n => block[i].key);
      var rs := seq(n, i requires 0 <= i < n => block[i].rid);
      ShiftUp(keys, pos, n);
      CopyIn(keys, pos, ks);
      ShiftUp(rids, pos, n);
      CopyIn(rids, pos, rs);
      num := num + n;
      ThreeParts(Entries(), was, pos, block);
    }
  }
}
