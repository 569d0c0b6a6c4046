/**
  The loser tree of the external merge sort. Slot `leaves + k` of the heap stands for run `k` (-1 once the run is
  exhausted), every slot below `leaves` holds the run that lost there, and slot 0 holds the run that won everything.
  The winner of each slot is kept beside the heap, in `w`, for the proof.
 */
module LoserTree {
  /** A comparator in the manner of qsort: a total preorder. */
  ghost predicate TotalPreorder<R(!new)>(cmp: (R, R) -> int)
  {
    && (forall a, b {:trigger Comparable(cmp, a, b)} :: Comparable(cmp, a, b))
    && (forall a, b, c {:trigger Chained(cmp, a, b, c)} :: Chained(cmp, a, b, c))
  }

  ghost predicate Comparable<R>(cmp: (R, R) -> int, a: R, b: R)
  {
    cmp(a, b) <= 0 || cmp(b, a) <= 0
  }

  ghost predicate Chained<R>(cmp: (R, R) -> int, a: R, b: R, c: R)
  {
    cmp(a, b) <= 0 && cmp(b, c) <= 0 ==> cmp(a, c) <= 0
  }

  /** Run `x` goes before run `y`; an exhausted run goes last. */
  predicate Beats<R>(cmp: (R, R) -> int, records: seq<R>, x: int, y: int)
  {
    y == -1 || (0 <= x < |records| && 0 <= y < |records| && cmp(records[x], records[y]) <= 0)
  }

  lemma BeatsTransitive<R(!new)>(cmp: (R, R) -> int, records: seq<R>, x: int, y: int, z: int)
    requires TotalPreorder(cmp) && Beats(cmp, records, x, y) && Beats(cmp, records, y, z)
    ensures Beats(cmp, records, x, z)
  {
    if y != -1 && z != -1 {
      assert Chained(cmp, records[x], records[y], records[z]);
    }
  }

  /** Slot `j` is on the way from slot `x` up to slot 1. */
  ghost predicate Above(j: nat, x: nat)
  {
    x >= j && (x == j || (x > 0 && Above(j, x / 2)))
  }

  lemma {:induction false} AboveStep(j: nat, x: nat)
    requires 2 <= j && Above(j, x)
    ensures Above(j / 2, x)
  {
    if x != j {
      AboveStep(j, x / 2);
    } else {
      assert Above(j / 2, j / 2);
    }
  }

  lemma {:induction false} OneChildAbove(j: nat, x: nat)
    requires 1 <= j && Above(2 * j, x)
    ensures !Above(2 * j + 1, x)
  {
    if x > 2 * j + 1 && Above(2 * j + 1, x) {
      OneChildAbove(j, x / 2);
    }
  }

  function Sibling(c: nat): (s: nat)
    requires c >= 2
    ensures s >= 2 && s / 2 == c / 2 && s != c
  {
    if c % 2 == 0 then c + 1 else c - 1
  }

  lemma SiblingNotAbove(c: nat, x: nat)
    requires c >= 2 && Above(c, x)
    ensures !Above(Sibling(c), x)
  {
    if c % 2 == 0 {
      OneChildAbove(c / 2, x);
    } else if Above(Sibling(c), x) {
      OneChildAbove(c / 2, x);
    }
  }

  // ---------------------------------------------------------------- the tournament

  /** At slot `i` one child's winner won and the other one is kept as the loser. */
  ghost predicate Match<R>(cmp: (R, R) -> int, records: seq<R>, heap: seq<int>, w: seq<int>, i: nat)
  {
    && 2 * i + 1 < |heap| == |w|
    && ((w[i] == w[2 * i] && heap[i] == w[2 * i + 1]) || (w[i] == w[2 * i + 1] && heap[i] == w[2 * i]))
    && Beats(cmp, records, w[i], heap[i])
  }

  /** The winner of a slot is a run of the slot's own subtree. */
  ghost predicate Placed(w: seq<int>, runs: nat, leaves: nat, j: nat)
  {
    j < |w| && (w[j] == -1 || (0 <= w[j] < runs && Above(j, leaves + w[j])))
  }

  ghost predicate Leaf(heap: seq<int>, w: seq<int>, runs: nat, leaves: nat, k: nat)
  {
    && leaves + k < |heap| == |w|
    && heap[leaves + k] == w[leaves + k]
    && (w[leaves + k] == -1 || (w[leaves + k] == k && k < runs))
  }

  ghost predicate Sized(heap: seq<int>, w: seq<int>, runs: nat, leaves: nat)
  {
    1 <= runs <= leaves && |heap| == |w| == 2 * leaves
  }

  ghost predicate AllPlaced(heap: seq<int>, w: seq<int>, runs: nat, leaves: nat)
  {
    && (forall j {:trigger Placed(w, runs, leaves, j)} | 1 <= j < 2 * leaves :: Placed(w, runs, leaves, j))
    && (forall k {:trigger Leaf(heap, w, runs, leaves, k)} | 0 <= k < leaves :: Leaf(heap, w, runs, leaves, k))
  }

  /** Every match is settled except those strictly above slot `cur`. */
  ghost predicate SettledBelow<R>(cmp: (R, R) -> int, records: seq<R>, heap: seq<int>, w: seq<int>, leaves: nat,
    cur: nat)
  {
    forall i {:trigger Match(cmp, records, heap, w, i)} | 1 <= i < leaves && (Above(i, cur) ==> i == cur) ::
      Match(cmp, records, heap, w, i)
  }

  ghost predicate Tournament<R>(cmp: (R, R) -> int, records: seq<R>, heap: seq<int>, w: seq<int>, leaves: nat)
  {
    && Sized(heap, w, |records|, leaves)
    && AllPlaced(heap, w, |records|, leaves)
    && SettledBelow(cmp, records, heap, w, leaves, 1)
    && heap[0] == w[1]
  }

  lemma AllSettled<R>(cmp: (R, R) -> int, records: seq<R>, heap: seq<int>, w: seq<int>, leaves: nat, i: nat)
    requires SettledBelow(cmp, records, heap, w, leaves, 1) && 1 <= i < leaves
    ensures Match(cmp, records, heap, w, i)
  {
  }

  /** The winner of slot 1 goes before the winner of every other slot. */
  lemma {:induction false} RootBeats<R(!new)>(cmp: (R, R) -> int, records: seq<R>, heap: seq<int>, w: seq<int>,
                                       leaves: nat, j: nat)
    requires TotalPreorder(cmp) && Tournament(cmp, records, heap, w, leaves) && 1 <= j < 2 * leaves
    ensures Beats(cmp, records, w[1], w[j])
  {
    if j == 1 {
      assert Placed(w, |records|, leaves, 1);
      if w[1] != -1 {
        assert Comparable(cmp, records[w[1]], records[w[1]]);
      }
    } else {
      RootBeats(cmp, records, heap, w, leaves, j / 2);
      AllSettled(cmp, records, heap, w, leaves, j / 2);
      assert Placed(w, |records|, leaves, j / 2) && Placed(w, |records|, leaves, j);
      if w[j] != -1 {
        assert Comparable(cmp, records[w[j]], records[w[j]]);
      }
      BeatsTransitive(cmp, records, w[1], w[j / 2], w[j]);
    }
  }

  /** Slot 0 holds a run whose head record is minimal among the runs that are not exhausted; -1 only if all are. */
  lemma HeapZeroIsMinimal<R(!new)>(cmp: (R, R) -> int, records: seq<R>, heap: seq<int>, w: seq<int>, leaves: nat,
    k: nat)
    requires TotalPreorder(cmp) && Tournament(cmp, records, heap, w, leaves) && k < |records| && heap[leaves + k] != -1
    ensures 0 <= heap[0] < |records| && heap[leaves + heap[0]] == heap[0] && cmp(records[heap[0]], records[k]) <= 0
  {
    assert Leaf(heap, w, |records|, leaves, k);
    RootBeats(cmp, records, heap, w, leaves, leaves + k);
    assert Placed(w, |records|, leaves, 1);
    WinnerPath(cmp, records, heap, w, leaves, leaves + heap[0]);
    assert Leaf(heap, w, |records|, leaves, heap[0]);
  }

  /** The overall winner has won every match on its way up. */
  lemma {:induction false} WinnerPath<R>(cmp: (R, R) -> int, records: seq<R>, heap: seq<int>, w: seq<int>, leaves: nat,
                                         j: nat)
    requires Tournament(cmp, records, heap, w, leaves) && 0 <= heap[0] < |records|
    requires 1 <= j < 2 * leaves && Above(j, leaves + heap[0])
    ensures w[j] == heap[0]
  {
    if j > 1 {
      AboveStep(j, leaves + heap[0]);
      WinnerPath(cmp, records, heap, w, leaves, j / 2);
      AllSettled(cmp, records, heap, w, leaves, j / 2);
      SiblingNotAbove(j, leaves + heap[0]);
      assert Placed(w, |records|, leaves, Sibling(j));
    }
  }

  // ---------------------------------------------------------------- building

  /** Plays every match from the last slot up to slot 1 and keeps the losers. */
  method Build<R(!new)>(cmp: (R, R) -> int, records: seq<R>, leaves: nat) returns (heap: seq<int>, ghost w: seq<int>)
    requires TotalPreorder(cmp) && 1 <= |records| <= leaves
    ensures Tournament(cmp, records, heap, w, leaves)
    ensures forall j | leaves <= j < leaves + |records| :: heap[j] == j - leaves
  {
    var start := seq(2 * leaves,
      j requires 0 <= j < 2 * leaves => if leaves <= j < leaves + |records| then j - leaves else -1);
    heap := start;
    var winners := start;
    var i := leaves - 1;
    forall j | leaves <= j < 2 * leaves ensures Placed(winners, |records|, leaves, j) {
      assert Above(j, j);
    }
    while i >= 1
      invariant 0 <= i < leaves && Sized(heap, winners, |records|, leaves)
      invariant forall j | leaves <= j < 2 * leaves :: heap[j] == winners[j] == start[j]
      invariant forall j {:trigger Placed(winners, |records|, leaves, j)} | i < j < 2 * leaves ::
        Placed(winners, |records|, leaves, j)
      invariant forall j {:trigger Match(cmp, records, heap, winners, j)} | i < j < leaves ::
        Match(cmp, records, heap, winners, j)
    {
      var left, right := 2 * i, 2 * i + 1;
      assert Placed(winners, |records|, leaves, left) && Placed(winners, |records|, leaves, right);
      ghost var h0, w0 := heap, winners;
      if winners[left] != -1 && (winners[right] == -1 || cmp(records[winners[left]], records[winners[right]]) <= 0) {
        winners, heap := winners[i := winners[left]], heap[i := winners[right]];
      } else {
        winners, heap := winners[i := winners[right]], heap[i := winners[left]];
      }
      MatchPlayed(cmp, records, h0, w0, heap, winners, leaves, i);
      i := i - 1;
    }
    ghost var h1 := heap;
    heap := heap[0 := winners[1]];
    w := winners;
    forall j | 1 <= j < leaves ensures Match(cmp, records, heap, w, j) {
      assert Match(cmp, records, h1, w, j);
    }
  }

  lemma MatchPlayed<R(!new)>(cmp: (R, R) -> int, records: seq<R>, h0: seq<int>, w0: seq<int>, heap: seq<int>,
                      w: seq<int>, leaves: nat, i: nat)
    requires TotalPreorder(cmp) && 1 <= i < leaves && Sized(h0, w0, |records|, leaves)
    requires forall j {:trigger Placed(w0, |records|, leaves, j)} | i < j < 2 * leaves ::
      Placed(w0, |records|, leaves, j)
    requires forall j {:trigger Match(cmp, records, h0, w0, j)} | i < j < leaves :: Match(cmp, records, h0, w0, j)
    requires var l, r := w0[2 * i], w0[2 * i + 1];
             if l != -1 && (r == -1 || Beats(cmp, records, l, r)) then w == w0[i := l] && heap == h0[i := r]
             else w == w0[i := r] && heap == h0[i := l]
    ensures forall j {:trigger Placed(w, |records|, leaves, j)} | i <= j < 2 * leaves :: Placed(w, |records|, leaves, j)
    ensures forall j {:trigger Match(cmp, records, heap, w, j)} | i <= j < leaves :: Match(cmp, records, heap, w, j)
  {
    assert Placed(w0, |records|, leaves, 2 * i) && Placed(w0, |records|, leaves, 2 * i + 1);
    if w0[2 * i] != -1 && w0[2 * i + 1] != -1 {
      assert Comparable(cmp, records[w0[2 * i]], records[w0[2 * i + 1]]);
    }
    if w[i] != -1 {
      AboveStep(if w[i] == w0[2 * i] then 2 * i else 2 * i + 1, leaves + w[i]);
    }
    forall j | i <= j < 2 * leaves ensures Placed(w, |records|, leaves, j) {
      assert j == i || Placed(w0, |records|, leaves, j);
    }
    forall j | i <= j < leaves ensures Match(cmp, records, heap, w, j) {
      assert j == i || Match(cmp, records, h0, w0, j);
    }
  }

  // ---------------------------------------------------------------- replaying

  /**
    The state of a replay at slot `cur`, on the way up from slot `x`: only matches strictly above `cur` are open, and
    there nothing has changed yet.
   */
  ghost predicate Replaying<R>(cmp: (R, R) -> int, records: seq<R>, heap: seq<int>, w: seq<int>, leaves: nat, x: nat,
                               cur: nat,
                               h0: seq<int>, w0: seq<int>)
  {
    && Sized(heap, w, |records|, leaves) && |h0| == |w0| == 2 * leaves
    && 1 <= cur <= x < 2 * leaves && leaves <= x && Above(cur, x)
    && AllPlaced(heap, w, |records|, leaves)
    && SettledBelow(cmp, records, heap, w, leaves, cur)
    && (forall j {:trigger Open(x, cur, j)} | 1 <= j < 2 * leaves && Open(x, cur, j) ::
      heap[j] == h0[j] && w[j] == w0[j])
  }

  /** Slot `j` has not been visited by the replay: it lies off the path, or strictly above `cur`. */
  ghost predicate Open(x: nat, cur: nat, j: nat)
  {
    Above(j, x) ==> Above(j, cur) && j != cur
  }

  /** The heap before the replay: on the way up from slot `x` the loser kept at each slot is the winner off the path. */
  ghost predicate WonBy(h0: seq<int>, w0: seq<int>, leaves: nat, x: nat)
  {
    && |h0| == |w0| == 2 * leaves
    && forall j {:trigger Above(j, x)} | 2 <= j < 2 * leaves && Above(j, x) :: h0[j / 2] == w0[Sibling(j)]
  }

  /** Before the replay the loser kept at each slot of the path is the winner of the subtree off the path. */
  lemma WonOnPath<R>(cmp: (R, R) -> int, records: seq<R>, h0: seq<int>, w0: seq<int>, leaves: nat)
    requires Tournament(cmp, records, h0, w0, leaves) && 0 <= h0[0] < |records|
    ensures WonBy(h0, w0, leaves, leaves + h0[0])
  {
    var x := leaves + h0[0];
    forall j | 2 <= j < 2 * leaves && Above(j, x) ensures h0[j / 2] == w0[Sibling(j)] {
      AboveStep(j, x);
      WinnerPath(cmp, records, h0, w0, leaves, j);
      WinnerPath(cmp, records, h0, w0, leaves, j / 2);
      AllSettled(cmp, records, h0, w0, leaves, j / 2);
      SiblingNotAbove(j, x);
      assert Placed(w0, |records|, leaves, Sibling(j));
    }
  }

  /** A changed head record, or an exhausted run, leaves every match off the path settled. */
  lemma ReplayStarts<R>(cmp: (R, R) -> int, records: seq<R>, records': seq<R>, h0: seq<int>, w0: seq<int>,
                        heap: seq<int>, w: seq<int>, leaves: nat, winner: int)
    requires Tournament(cmp, records, h0, w0, leaves) && 0 <= h0[0] < |records| == |records'|
    requires forall k | 0 <= k < |records| && k != h0[0] :: records'[k] == records[k]
    requires winner == h0[0] || winner == -1
    requires heap == h0[leaves + h0[0] := winner] && w == w0[leaves + h0[0] := winner]
    ensures var x := leaves + h0[0]; Replaying(cmp, records', heap, w, leaves, x, x, h0, w0)
  {
    var f, x := h0[0], leaves + h0[0];
    forall j | 1 <= j < 2 * leaves ensures Placed(w, |records'|, leaves, j) {
      assert Placed(w0, |records|, leaves, j);
    }
    forall k | 0 <= k < leaves ensures Leaf(heap, w, |records'|, leaves, k) {
      assert Leaf(h0, w0, |records|, leaves, k);
    }
    forall i | 1 <= i < leaves && (Above(i, x) ==> i == x) ensures Match(cmp, records', heap, w, i) {
      AllSettled(cmp, records, h0, w0, leaves, i);
      OffPath(i, x);
      assert Placed(w0, |records|, leaves, i) && Placed(w0, |records|, leaves, 2 * i)
        && Placed(w0, |records|, leaves, 2 * i + 1);
    }
  }

  lemma OffPath(i: nat, x: nat)
    requires 1 <= i && !Above(i, x)
    ensures !Above(2 * i, x) && !Above(2 * i + 1, x)
  {
    if Above(2 * i, x) {
      AboveStep(2 * i, x);
    } else if Above(2 * i + 1, x) {
      AboveStep(2 * i + 1, x);
    }
  }

  lemma ParentOpen(x: nat, cur: nat)
    requires 2 <= cur && Above(cur, x)
    ensures Above(cur / 2, cur) && Above(cur / 2, cur / 2)
  {
  }

  /** One match of the replay: the winner so far meets the loser kept at the parent. */
  ghost predicate Played<R>(cmp: (R, R) -> int, records: seq<R>, heap: seq<int>, w: seq<int>, heap': seq<int>,
                            w': seq<int>, cur: nat)
  {
    var p := cur / 2;
    && cur < |w| && p < |heap| && p < |w|
    && if w[cur] != -1 && (heap[p] == -1 || Beats(cmp, records, w[cur], heap[p]))
      then heap' == heap && w' == w[p := w[cur]]
       else heap' == heap[p := w[cur]] && w' == w[p := heap[p]]
  }

  lemma KeptLoser<R>(cmp: (R, R) -> int, records: seq<R>, heap: seq<int>, w: seq<int>, leaves: nat, x: nat, cur: nat,
                     h0: seq<int>, w0: seq<int>)
    requires Replaying(cmp, records, heap, w, leaves, x, cur, h0, w0) && WonBy(h0, w0, leaves, x) && 2 <= cur
    ensures cur / 2 < leaves && Sibling(cur) < 2 * leaves && heap[cur / 2] == w[Sibling(cur)] && Above(cur / 2, x)
    ensures Placed(w, |records|, leaves, cur) && Placed(w, |records|, leaves, Sibling(cur))
  {
    AboveStep(cur, x);
    SiblingNotAbove(cur, x);
    ParentOpen(x, cur);
    assert Open(x, cur, Sibling(cur)) && Open(x, cur, cur / 2);
  }

  lemma PlayedPlaces<R>(cmp: (R, R) -> int, records: seq<R>, heap: seq<int>, w: seq<int>, heap': seq<int>, w': seq<int>,
                        leaves: nat, cur: nat)
    requires Sized(heap, w, |records|, leaves) && AllPlaced(heap, w, |records|, leaves)
      && Played(cmp, records, heap, w, heap', w', cur)
    requires 2 <= cur < 2 * leaves && Sibling(cur) < 2 * leaves && heap[cur / 2] == w[Sibling(cur)]
    ensures AllPlaced(heap', w', |records|, leaves)
  {
    var p, s := cur / 2, Sibling(cur);
    assert Placed(w, |records|, leaves, cur) && Placed(w, |records|, leaves, s);
    if w'[p] != -1 {
      AboveStep(if w'[p] == w[cur] then cur else s, leaves + w'[p]);
    }
    forall j | 1 <= j < 2 * leaves ensures Placed(w', |records|, leaves, j) {
      assert Placed(w, |records|, leaves, j);
    }
    forall k | 0 <= k < leaves ensures Leaf(heap', w', |records|, leaves, k) {
      assert Leaf(heap, w, |records|, leaves, k);
    }
  }

  lemma PlayedSettles<R(!new)>(cmp: (R, R) -> int, records: seq<R>, heap: seq<int>, w: seq<int>, heap': seq<int>,
                        w': seq<int>, leaves: nat, cur: nat)
    requires TotalPreorder(cmp) && Sized(heap, w, |records|, leaves) && SettledBelow(cmp, records, heap, w, leaves, cur)
    requires Played(cmp, records, heap, w, heap', w', cur)
    requires 2 <= cur < 2 * leaves && Sibling(cur) < 2 * leaves && heap[cur / 2] == w[Sibling(cur)]
    requires Placed(w, |records|, leaves, cur) && Placed(w, |records|, leaves, Sibling(cur))
    ensures SettledBelow(cmp, records, heap', w', leaves, cur / 2)
  {
    var p := cur / 2;
    if w[cur] != -1 && heap[p] != -1 {
      assert Comparable(cmp, records[w[cur]], records[heap[p]]);
    }
    forall i | 1 <= i < leaves && (Above(i, p) ==> i == p) ensures Match(cmp, records, heap', w', i) {
      if i != p {
        assert Above(i, cur) ==> i == cur;
        assert Match(cmp, records, heap, w, i);
        assert 2 * i != p && 2 * i + 1 != p by {
          assert Above(p / 2, p / 2);
        }
      }
    }
  }

  lemma ReplayStep<R(!new)>(cmp: (R, R) -> int, records: seq<R>, heap: seq<int>, w: seq<int>, heap': seq<int>,
                     w': seq<int>, leaves: nat, x: nat, cur: nat,
                      h0: seq<int>, w0: seq<int>)
    requires TotalPreorder(cmp) && Replaying(cmp, records, heap, w, leaves, x, cur, h0, w0) && WonBy(h0, w0, leaves, x)
      && 2 <= cur
    requires Played(cmp, records, heap, w, heap', w', cur)
    ensures Replaying(cmp, records, heap', w', leaves, x, cur / 2, h0, w0)
  {
    KeptLoser(cmp, records, heap, w, leaves, x, cur, h0, w0);
    PlayedPlaces(cmp, records, heap, w, heap', w', leaves, cur);
    PlayedSettles(cmp, records, heap, w, heap', w', leaves, cur);
    ParentOpen(x, cur);
    forall j | 1 <= j < 2 * leaves && Open(x, cur / 2, j) ensures heap'[j] == h0[j] && w'[j] == w0[j] {
      assert Open(x, cur, j);
    }
  }

  /**
    Replays the matches of the overall winner after its record has been taken: `records'` holds the next record of the
    run, or `exhausted` tells that there is none.
   */
  method Replay<R(!new)>(cmp: (R, R) -> int, ghost records: seq<R>, records': seq<R>, exhausted: bool, leaves: nat,
                  h0: seq<int>, ghost w0: seq<int>)
    returns (heap: seq<int>, ghost w: seq<int>)
    requires TotalPreorder(cmp) && Tournament(cmp, records, h0, w0, leaves) && 0 <= h0[0] < |records| == |records'|
    requires forall k | 0 <= k < |records| && k != h0[0] :: records'[k] == records[k]
    ensures Tournament(cmp, records', heap, w, leaves)
    ensures heap[leaves..] == h0[leaves..][h0[0] := if exhausted then -1 else h0[0]]
  {
    var f := h0[0];
    var cur, winner := leaves + f, f;
    heap := h0;
    WonOnPath(cmp, records, h0, w0, leaves);
    HeapZeroLeaf(cmp, records, h0, w0, leaves);
    if exhausted {
      heap := heap[cur := -1];
      winner := -1;
    }
    w := w0[cur := winner];
    ReplayStarts(cmp, records, records', h0, w0, heap, w, leaves, winner);
    ghost var x, tail := cur, heap[leaves..];
    while cur != 1
      invariant Replaying(cmp, records', heap, w, leaves, x, cur, h0, w0) && w[cur] == winner && heap[leaves..] == tail
      decreases cur
    {
      var parent := cur / 2;
      ghost var h, v := heap, w;
      assert Placed(w, |records'|, leaves, cur);
      KeptLoser(cmp, records', heap, w, leaves, x, cur, h0, w0);
      if winner != -1 && (heap[parent] == -1 || cmp(records'[winner], records'[heap[parent]]) <= 0) {
      } else {
        var loser := winner;
        winner := heap[parent];
        heap := heap[parent := loser];
      }
      w := w[parent := winner];
      ReplayStep(cmp, records', h, v, heap, w, leaves, x, cur, h0, w0);
      cur := parent;
    }
    ghost var h := heap;
    heap := heap[0 := winner];
    ReplayEnds(cmp, records', h, w, heap, leaves, x, h0, w0);
  }

  lemma HeapZeroLeaf<R>(cmp: (R, R) -> int, records: seq<R>, heap: seq<int>, w: seq<int>, leaves: nat)
    requires Tournament(cmp, records, heap, w, leaves) && 0 <= heap[0] < |records|
    ensures heap[leaves + heap[0]] == heap[0] == w[leaves + heap[0]]
  {
    WinnerPath(cmp, records, heap, w, leaves, leaves + heap[0]);
    assert Leaf(heap, w, |records|, leaves, heap[0]);
  }

  lemma ReplayEnds<R>(cmp: (R, R) -> int, records: seq<R>, h: seq<int>, w: seq<int>, heap: seq<int>, leaves: nat,
                      x: nat, h0: seq<int>, w0: seq<int>)
    requires Replaying(cmp, records, h, w, leaves, x, 1, h0, w0) && heap == h[0 := w[1]]
    ensures Tournament(cmp, records, heap, w, leaves)
  {
    forall k | 0 <= k < leaves ensures Leaf(heap, w, |records|, leaves, k) {
      assert Leaf(h, w, |records|, leaves, k);
    }
    forall i | 1 <= i < leaves ensures Match(cmp, records, heap, w, i) {
      assert Above(i, 1) ==> i == 1;
      assert Match(cmp, records, h, w, i);
    }
  }
}
