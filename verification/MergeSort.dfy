/**
  The external merge sorter: records are written into sorted runs of bounded size, one file each, and read back in
  order through a loser tree over the heads of the runs.
 */
module MergeSort {
  import opened LoserTree

  ghost predicate SortedBy<R>(cmp: (R, R) -> int, s: seq<R>)
  {
    forall i, j {:trigger InOrder(cmp, s, i, j)} | 0 <= i < j < |s| :: InOrder(cmp, s, i, j)
  }

  ghost predicate InOrder<R>(cmp: (R, R) -> int, s: seq<R>, i: nat, j: nat)
  {
    i < |s| && j < |s| && cmp(s[i], s[j]) <= 0
  }

  /** A sorted sequence grows at the front by what goes before its elements. */
  lemma SortedCons<R>(cmp: (R, R) -> int, x: R, s: seq<R>)
    requires SortedBy(cmp, s) && forall j | 0 <= j < |s| :: cmp(x, s[j]) <= 0
    ensures SortedBy(cmp, [x] + s)
  {
    forall i, j | 0 <= i < j < |[x] + s| ensures InOrder(cmp, [x] + s, i, j) {
      assert i > 0 ==> InOrder(cmp, s, i - 1, j - 1);
    }
  }

  lemma SortedTail<R>(cmp: (R, R) -> int, s: seq<R>)
    requires SortedBy(cmp, s) && s != []
    ensures SortedBy(cmp, s[1..])
  {
    forall i, j | 0 <= i < j < |s[1..]| ensures InOrder(cmp, s[1..], i, j) {
      assert InOrder(cmp, s, i + 1, j + 1);
    }
  }

  lemma FirstIsLeast<R(!new)>(cmp: (R, R) -> int, s: seq<R>, x: R)
    requires TotalPreorder(cmp) && SortedBy(cmp, s) && x in s
    ensures cmp(s[0], x) <= 0
  {
    assert Comparable(cmp, x, x);
    var i :| 0 <= i < |s| && s[i] == x;
    assert i > 0 ==> InOrder(cmp, s, 0, i);
  }

  function InsertSorted<R>(cmp: (R, R) -> int, x: R, s: seq<R>): seq<R>
  {
    if s == [] || cmp(x, s[0]) <= 0 then [x] + s else [s[0]] + InsertSorted(cmp, x, s[1..])
  }

  /** What qsort_r leaves behind; only that it is sorted and a permutation is used. */
  function Sorted<R>(cmp: (R, R) -> int, s: seq<R>): seq<R>
  {
    if s == [] then [] else InsertSorted(cmp, s[0], Sorted(cmp, s[1..]))
  }

  lemma {:induction false} InsertSortedKeeps<R>(cmp: (R, R) -> int, x: R, s: seq<R>)
    ensures multiset(InsertSorted(cmp, x, s)) == multiset(s) + multiset{x}
  {
    if s != [] && cmp(x, s[0]) > 0 {
      InsertSortedKeeps(cmp, x, s[1..]);
      assert s == [s[0]] + s[1..];
    }
  }

  lemma {:induction false} InsertSortedSorts<R(!new)>(cmp: (R, R) -> int, x: R, s: seq<R>)
    requires TotalPreorder(cmp) && SortedBy(cmp, s)
    ensures SortedBy(cmp, InsertSorted(cmp, x, s))
  {
    if s == [] {
    } else if cmp(x, s[0]) <= 0 {
      forall j | 0 <= j < |s| ensures cmp(x, s[j]) <= 0 {
        FirstIsLeast(cmp, s, s[j]);
        assert Chained(cmp, x, s[0], s[j]);
      }
      SortedCons(cmp, x, s);
    } else {
      var r := InsertSorted(cmp, x, s[1..]);
      SortedTail(cmp, s);
      InsertSortedSorts(cmp, x, s[1..]);
      assert Comparable(cmp, x, s[0]);
      forall j | 0 <= j < |r| ensures cmp(s[0], r[j]) <= 0 {
        InsertSortedKeeps(cmp, x, s[1..]);
        assert r[j] in multiset(s[1..]) + multiset{x};
        if r[j] != x {
          FirstIsLeast(cmp, s, r[j]);
        }
      }
      SortedCons(cmp, s[0], r);
    }
  }

  lemma {:induction false} SortedSorts<R(!new)>(cmp: (R, R) -> int, s: seq<R>)
    requires TotalPreorder(cmp)
    ensures SortedBy(cmp, Sorted(cmp, s)) && multiset(Sorted(cmp, s)) == multiset(s)
  {
    if s != [] {
      SortedSorts(cmp, s[1..]);
      InsertSortedKeeps(cmp, s[0], Sorted(cmp, s[1..]));
      InsertSortedSorts(cmp, s[0], Sorted(cmp, s[1..]));
      assert s == [s[0]] + s[1..];
    }
  }

  // ---------------------------------------------------------------- all records of several runs

  /** The records of the first `n` runs. */
  ghost function FirstRuns<R>(runs: seq<seq<R>>, n: nat): multiset<R>
    requires n <= |runs|
  {
    if n == 0 then multiset{} else FirstRuns(runs, n - 1) + multiset(runs[n - 1])
  }

  /** The records of all runs. */
  ghost function All<R>(runs: seq<seq<R>>): multiset<R>
  {
    FirstRuns(runs, |runs|)
  }

  lemma {:induction false} SameRuns<R>(a: seq<seq<R>>, b: seq<seq<R>>, n: nat)
    requires n <= |a| && n <= |b| && forall k | 0 <= k < n :: a[k] == b[k]
    ensures FirstRuns(a, n) == FirstRuns(b, n)
  {
    if n > 0 {
      SameRuns(a, b, n - 1);
    }
  }

  lemma AddSwap<R>(a: multiset<R>, b: multiset<R>, c: multiset<R>)
    ensures (a + b) + c == (a + c) + b && a + (b + c) == (a + c) + b
  {
  }

  lemma HeadTaken<R>(run: seq<R>)
    requires run != []
    ensures multiset(run) == multiset{run[0]} + multiset(run[1..])
  {
    assert run == [run[0]] + run[1..];
  }

  lemma {:induction false} TakeOne<R>(a: seq<seq<R>>, b: seq<seq<R>>, x: R, k: nat, n: nat)
    requires k < n <= |a| == |b| && multiset(a[k]) == multiset{x} + multiset(b[k])
    requires forall i | 0 <= i < n && i != k :: a[i] == b[i]
    ensures FirstRuns(a, n) == FirstRuns(b, n) + multiset{x}
  {
    if k == n - 1 {
      SameRuns(a, b, k);
      AddSwap(FirstRuns(b, k), multiset{x}, multiset(b[k]));
    } else {
      TakeOne(a, b, x, k, n - 1);
      AddSwap(FirstRuns(b, n - 1), multiset{x}, multiset(b[n - 1]));
    }
  }

  /** Taking the head of one run takes one record from all. */
  lemma AllTake<R>(runs: seq<seq<R>>, k: nat)
    requires k < |runs| && runs[k] != []
    ensures All(runs) == All(runs[k := runs[k][1..]]) + multiset{runs[k][0]}
  {
    HeadTaken(runs[k]);
    TakeOne(runs, runs[k := runs[k][1..]], runs[k][0], k, |runs|);
  }

  lemma {:induction false} FirstHas<R>(runs: seq<seq<R>>, x: R, n: nat)
    requires n <= |runs|
    ensures x in FirstRuns(runs, n) <==> exists k | 0 <= k < n :: x in runs[k]
  {
    if n > 0 {
      FirstHas(runs, x, n - 1);
    }
  }

  lemma AllHas<R>(runs: seq<seq<R>>, x: R)
    ensures x in All(runs) <==> exists k | 0 <= k < |runs| :: x in runs[k]
  {
    FirstHas(runs, x, |runs|);
  }

  // ---------------------------------------------------------------- the size of the tree

  function Pow2(h: nat): (p: nat)
    ensures p >= 1
  {
    if h == 0 then 1 else 2 * Pow2(h - 1)
  }

  /** The height of the tree: the least power of two that holds `n` runs. */
  function Height(n: nat): (h: nat)
    requires n >= 1
    ensures n <= Pow2(h) && (h > 0 ==> Pow2(h - 1) < n)
  {
    if n == 1 then 0 else 1 + Height((n + 1) / 2)
  }

  lemma WholeRecords(mem: nat, size: nat)
    requires 0 < size <= mem
    ensures var n := (mem - mem % size) / size; 1 <= n && n * size <= mem < (n + 1) * size
  {
    var q := mem / size;
    var n := (q * size) / size;
    assert mem - mem % size == q * size;
    TimesGrows(n, q, size);
    TimesGrows(q, n, size);
    assert n == q;
  }

  lemma TimesGrows(a: nat, b: nat, size: nat)
    ensures a < b ==> (a + 1) * size <= b * size
  {
    if a < b {
      assert b * size == (a + 1) * size + (b - a - 1) * size;
    }
  }

  // ---------------------------------------------------------------- the sorter

  ghost predicate IsRun<R>(cmp: (R, R) -> int, s: seq<R>)
  {
    s != [] && SortedBy(cmp, s)
  }

  /** `files` but the last are finished runs, and the last one is being filled with `d`. */
  ghost predicate Filling<R>(cmp: (R, R) -> int, files: seq<seq<R>>, d: seq<R>, written: multiset<R>)
  {
    && files != []
    && (forall k | 0 <= k < |files| - 1 :: IsRun(cmp, files[k]))
    && written == FirstRuns(files, |files| - 1) + multiset(d)
  }

  /** Every file is a finished run. */
  ghost predicate Closed<R>(cmp: (R, R) -> int, files: seq<seq<R>>, written: multiset<R>)
  {
    written == All(files) && forall k | 0 <= k < |files| :: IsRun(cmp, files[k])
  }

  /** Closing the run that is being filled. */
  lemma CloseRun<R(!new)>(cmp: (R, R) -> int, files: seq<seq<R>>, d: seq<R>, written: multiset<R>)
    requires TotalPreorder(cmp) && d != [] && Filling(cmp, files, d, written)
    ensures Closed(cmp, files[|files| - 1 := Sorted(cmp, d)], written)
  {
    var fs := files[|files| - 1 := Sorted(cmp, d)];
    SortedSorts(cmp, d);
    assert |Sorted(cmp, d)| == |multiset(Sorted(cmp, d))| == |multiset(d)| == |d|;
    SameRuns(files, fs, |files| - 1);
  }

  lemma OpenRun<R>(cmp: (R, R) -> int, files: seq<seq<R>>, written: multiset<R>)
    requires Closed(cmp, files, written)
    ensures Filling(cmp, files + [[]], [], written)
  {
    SameRuns(files, files + [[]], |files|);
  }

  lemma FillMore<R>(cmp: (R, R) -> int, files: seq<seq<R>>, d: seq<R>, written: multiset<R>, r: R)
    requires Filling(cmp, files, d, written)
    ensures Filling(cmp, files, d + [r], written + multiset{r})
  {
  }

  /** The records of run `k` that are left are its current record and what is unread, in order. */
  ghost predicate RunLeft<R>(cmp: (R, R) -> int, left: seq<R>, record: R, unread: seq<R>, slot: int)
  {
    && SortedBy(cmp, left)
    && left == if slot == -1 then [] else [record] + unread
  }

  ghost predicate AllRunsLeft<R>(cmp: (R, R) -> int, left: seq<seq<R>>, records: seq<R>, unread: seq<seq<R>>,
                                 heap: seq<int>, leaves: nat)
  {
    && |left| == |records| == |unread| && leaves + |records| <= |heap|
    && forall k {:trigger left[k]} | 0 <= k < |left| :: RunLeft(cmp, left[k], records[k], unread[k], heap[leaves + k])
  }

  lemma FirstLeft<R>(cmp: (R, R) -> int, files: seq<seq<R>>, records: seq<R>, unread: seq<seq<R>>, heap: seq<int>,
                     leaves: nat)
    requires |files| == |records| == |unread| && leaves + |records| <= |heap|
    requires forall k | 0 <= k < |files| :: IsRun(cmp, files[k])
    requires forall k {:trigger files[k]} | 0 <= k < |files| :: files[k] == [records[k]] + unread[k]
    requires forall j | leaves <= j < leaves + |records| :: heap[j] == j - leaves
    ensures AllRunsLeft(cmp, files, records, unread, heap, leaves)
  {
    forall k | 0 <= k < |files| ensures RunLeft(cmp, files[k], records[k], unread[k], heap[leaves + k]) {
      assert IsRun(cmp, files[k]);
    }
  }

  /** Run `f` has moved on to its next record, or ended. */
  lemma NextLeft<R>(cmp: (R, R) -> int, left: seq<seq<R>>, records: seq<R>, unread: seq<seq<R>>, heap: seq<int>,
                    leaves: nat, f: nat,
                    records': seq<R>, unread': seq<seq<R>>, heap': seq<int>)
    requires AllRunsLeft(cmp, left, records, unread, heap, leaves) && f < |left| && heap[leaves + f] == f
    requires if unread[f] == [] then records' == records && unread' == unread
             else records' == records[f := unread[f][0]] && unread' == unread[f := unread[f][1..]]
    requires |heap'| == |heap| && heap'[leaves..] == heap[leaves..][f := if unread[f] == [] then -1 else f]
    ensures left[f] != [] && left[f][0] == records[f]
    ensures AllRunsLeft(cmp, left[f := left[f][1..]], records', unread', heap', leaves)
  {
    assert RunLeft(cmp, left[f], records[f], unread[f], heap[leaves + f]);
    SortedTail(cmp, left[f]);
    var left' := left[f := left[f][1..]];
    forall k | 0 <= k < |left'| ensures RunLeft(cmp, left'[k], records'[k], unread'[k], heap'[leaves + k]) {
      assert RunLeft(cmp, left[k], records[k], unread[k], heap[leaves + k]);
      assert heap'[leaves + k] == heap'[leaves..][k];
    }
  }

  /** The head of a run that is not exhausted, at the top of the tree, is not above any record that is left. */
  lemma LeftAbove<R(!new)>(cmp: (R, R) -> int, left: seq<seq<R>>, records: seq<R>, unread: seq<seq<R>>, heap: seq<int>,
                    w: seq<int>, leaves: nat, k: nat, x: R)
    requires TotalPreorder(cmp) && Tournament(cmp, records, heap, w, leaves)
      && AllRunsLeft(cmp, left, records, unread, heap, leaves)
    requires k < |left| && x in left[k]
    ensures 0 <= heap[0] < |records| && cmp(records[heap[0]], x) <= 0
  {
    assert RunLeft(cmp, left[k], records[k], unread[k], heap[leaves + k]);
    HeapZeroIsMinimal(cmp, records, heap, w, leaves, k);
    FirstIsLeast(cmp, left[k], x);
    assert Chained(cmp, records[heap[0]], records[k], x);
  }

  function LeavesFor(runs: nat): (n: nat)
    ensures runs <= n
  {
    if runs == 0 then 0 else Pow2(Height(runs))
  }

  /** Opens every run file and reads its first record. */
  method OpenRuns<R>(ghost cmp: (R, R) -> int, files: seq<seq<R>>) returns (records: seq<R>, unread: seq<seq<R>>)
    requires forall k | 0 <= k < |files| :: IsRun(cmp, files[k])
    ensures |records| == |unread| == |files|
    ensures forall k {:trigger files[k]} | 0 <= k < |files| :: files[k] == [records[k]] + unread[k]
  {
    records, unread := [], [];
    var i := 0;
    while i < |files|
      invariant 0 <= i <= |files| && |records| == |unread| == i
      invariant forall k {:trigger files[k]} | 0 <= k < i :: files[k] == [records[k]] + unread[k]
    {
      assert IsRun(cmp, files[i]);
      records, unread := records + [files[i][0]], unread + [files[i][1..]];
      i := i + 1;
    }
  }

  class Sorter<R(0, !new, ==)> {
    const cmp: (R, R) -> int
    /** How many records fill a run file. */
    const capacity: nat
    /** The run files; once `mapped`, the last one is still being filled through `data`. */
    var files: seq<seq<R>>
    var data: array<R>
    var mapped: bool
    var index: nat
    var isFull: bool
    var total: nat
    /** What is left to be read of each open run file, and the current record of each. */
    var unread: seq<seq<R>>
    var records: seq<R>
    var heap: seq<int>
    ghost var w: seq<int>
    ghost var written: multiset<R>
    /** The records of each run that have not been returned, the current one included. */
    ghost var left: seq<seq<R>>

    ghost predicate Writing()
      reads this, data
    {
      && TotalPreorder(cmp)
      && 1 <= capacity == data.Length
      && index <= capacity
      && total == |written|
      && if mapped then
           1 <= index && (isFull <==> index == capacity) && Filling(cmp, files, data[..index], written)
         else
           files == [] && isFull && index == 0 && written == multiset{}
    }

    /** `totalMem` and `recordSize` in bytes; a run holds as many whole records as fit. */
    constructor (totalMem: nat, recordSize: nat, compare: (R, R) -> int)
      requires 0 < recordSize <= totalMem && TotalPreorder(compare)
      ensures Writing() && written == multiset{} && fresh(data) && cmp == compare && !mapped
      ensures capacity * recordSize <= totalMem < (capacity + 1) * recordSize
    {
      var mem := totalMem - totalMem % recordSize;
      WholeRecords(totalMem, recordSize);
      cmp := compare;
      capacity := mem / recordSize;
      data := new R[mem / recordSize];
      files, mapped, index, isFull, total := [], false, 0, true, 0;
      unread, records, heap, w, left, written := [], [], [], [], [], multiset{};
    }

    /** Sorts the run in memory into its file. */
    method SortRun(n: nat)
      requires TotalPreorder(cmp) && 0 < n <= data.Length && Filling(cmp, files, data[..n], written)
      modifies `files
      ensures Closed(cmp, files, written) && files != []
    {
      CloseRun(cmp, files, data[..n], written);
      files := files[|files| - 1 := Sorted(cmp, data[..n])];
    }

    /** Sorts the full run, if there is one, and opens the next run file. */
    method NextFile()
      requires Writing() && isFull
      modifies this
      ensures fresh(data) && data.Length == capacity && index == 0 && mapped && !isFull
      ensures Filling(cmp, files, [], written) && written == old(written) && total == old(total)
    {
      if mapped {
        SortRun(index);
      }
      OpenRun(cmp, files, written);
      files := files + [[]];
      data := new R[capacity];
      mapped, isFull, index := true, false, 0;
    }

    /** Copies a record behind the others of the current run. */
    method Append(record: R)
      requires 0 <= index < capacity == data.Length && Filling(cmp, files, data[..index], written)
      modifies this, data
      ensures data == old(data) && mapped == old(mapped) && index == old(index) + 1
        && (isFull <==> old(isFull) || index == capacity)
      ensures written == old(written) + multiset{record} && total == old(total) + 1
      ensures Filling(cmp, files, data[..index], written)
    {
      ghost var d := data[..index];
      FillMore(cmp, files, d, written, record);
      data[index] := record;
      assert data[..index + 1] == d + [record];
      index, total, written := index + 1, total + 1, written + multiset{record};
      if index == capacity {
        isFull := true;
      }
    }

    /** Adds a record to the current run, and first opens a new run file if the current one is full. */
    method Write(record: R)
      requires Writing()
      modifies this, data
      ensures Writing() && mapped && (data == old(data) || fresh(data))
      ensures written == old(written) + multiset{record}
    {
      if isFull {
        NextFile();
        assert data[..index] == [];
      }
      Append(record);
    }

    ghost predicate Finished()
      reads this
    {
      && TotalPreorder(cmp)
      && total == |written|
      && Closed(cmp, files, written)
    }

    /** Sorts the last run and cuts its file to the records it holds. */
    method EndWrite()
      requires Writing()
      modifies this
      ensures Finished() && written == old(written) && (files == [] <==> !old(mapped))
    {
      if mapped {
        SortRun(index);
      }
    }

    ghost predicate Merging()
      reads this
    {
      && TotalPreorder(cmp)
      && records != []
      && Tournament(cmp, records, heap, w, LeavesFor(|records|))
      && AllRunsLeft(cmp, left, records, unread, heap, LeavesFor(|records|))
    }

    ghost predicate Reading()
      reads this
    {
      Merging() && total == |All(left)|
    }

    /**
      Opens the runs, reads the first record of each and builds the tree. The source divides by the number of runs, so
      there must be one.
     */
    method BeginRead()
      requires Finished() && files != []
      modifies this
      ensures Reading() && All(left) == old(written)
    {
      records, unread := OpenRuns(cmp, files);
      var tree; ghost var winners;
      tree, winners := Build(cmp, records, LeavesFor(|records|));
      FirstLeft(cmp, files, records, unread, tree, LeavesFor(|records|));
      heap, w, left := tree, winners, files;
    }

    /** After the record at the top has been taken: its run moves on, or ends, and its matches are replayed. */
    method Adjust()
      requires Merging() && 0 <= heap[0] < |records|
      modifies this
      ensures Merging() && total == old(total)
      ensures old(heap[0]) < |old(left)| && old(left[heap[0]] != [] && left[heap[0]][0] == records[heap[0]])
      ensures left == old(left)[old(heap[0]) := old(left[heap[0]])[1..]]
    {
      var f := heap[0];
      ghost var before, u, leaves := records, unread, LeavesFor(|records|);
      HeapZeroLeaf(cmp, records, heap, w, leaves);
      var exhausted := unread[f] == [];
      if !exhausted {
        records, unread := records[f := unread[f][0]], unread[f := unread[f][1..]];
      }
      var tree; ghost var winners;
      tree, winners := Replay(cmp, before, records, exhausted, LeavesFor(|records|), heap, w);
      NextLeft(cmp, left, before, u, heap, leaves, f, records, unread, tree);
      heap, w, left := tree, winners, left[f := left[f][1..]];
    }

    /** The next record in order. */
    method Read() returns (record: R)
      requires Reading() && total > 0
      modifies this
      ensures Reading() && total == old(total) - 1
      ensures old(All(left)) == All(left) + multiset{record}
      ensures NotAbove(cmp, record, old(All(left)))
    {
      SmallestOnTop();
      record := records[heap[0]];
      ghost var f, l := heap[0], left;
      Adjust();
      AllTake(l, f);
      total := total - 1;
    }

    /**
      While a record is left, the top of the tree is a run whose current record is not above any record that is left.
     */
    lemma SmallestOnTop()
      requires Reading() && total > 0
      ensures 0 <= heap[0] < |records| && NotAbove(cmp, records[heap[0]], All(left))
    {
      var x :| x in All(left);
      OnTop(x);
      forall y | y in All(left) ensures cmp(records[heap[0]], y) <= 0 {
        OnTop(y);
      }
    }

    lemma OnTop(x: R)
      requires Merging() && x in All(left)
      ensures 0 <= heap[0] < |records| && cmp(records[heap[0]], x) <= 0
    {
      AllHas(left, x);
      var k :| 0 <= k < |left| && x in left[k];
      LeftAbove(cmp, left, records, unread, heap, w, LeavesFor(|records|), k, x);
    }

    lemma TopHasRecord()
      requires Merging() && heap[0] != -1
      ensures 0 <= heap[0] < |left| && left[heap[0]] != []
    {
      assert Placed(w, |records|, LeavesFor(|records|), 1);
      HeapZeroLeaf(cmp, records, heap, w, LeavesFor(|records|));
      assert RunLeft(cmp, left[heap[0]], records[heap[0]], unread[heap[0]], heap[LeavesFor(|records|) + heap[0]]);
    }

    predicate IsEnd()
      reads this
    {
      total == 0
    }

    lemma NothingLeft()
      requires Reading() && total == 0
      ensures heap[0] == -1 && forall k | 0 <= k < |left| :: left[k] == []
    {
      forall k | 0 <= k < |left| ensures left[k] == [] {
        if left[k] != [] {
          AllHas(left, left[k][0]);
        }
      }
      if heap[0] != -1 {
        TopHasRecord();
      }
    }

    /** Reading ends exactly when every run is exhausted, and then the tree says so. */
    lemma EndsWhenExhausted()
      requires Reading()
      ensures IsEnd() <==> forall k | 0 <= k < |left| :: left[k] == []
      ensures IsEnd() <==> heap[0] == -1
    {
      if !IsEnd() {
        SmallestOnTop();
        TopHasRecord();
      } else {
        NothingLeft();
      }
    }
  }

  ghost predicate NotAbove<R(!new)>(cmp: (R, R) -> int, x: R, pool: multiset<R>)
  {
    forall y | y in pool :: cmp(x, y) <= 0
  }

  /** Writes every record of a non-empty input. */
  method WriteAll<R(0, !new, ==)>(sorter: Sorter<R>, input: seq<R>)
    requires sorter.Writing() && sorter.written == multiset{} && input != []
    modifies sorter, sorter.data
    ensures sorter.Finished() && sorter.written == multiset(input) && sorter.files != []
  {
    var i := 0;
    while i < |input|
      invariant 0 <= i <= |input| && sorter.Writing() && (sorter.data == old(sorter.data) || fresh(sorter.data))
      invariant sorter.written == multiset(input[..i]) && (i > 0 ==> sorter.mapped)
    {
      sorter.Write(input[i]);
      assert input[..i + 1] == input[..i] + [input[i]];
      i := i + 1;
    }
    assert input[..i] == input;
    sorter.EndWrite();
  }

  ghost predicate AllNotAbove<R(!new)>(cmp: (R, R) -> int, s: seq<R>, pool: multiset<R>)
  {
    forall i | 0 <= i < |s| :: NotAbove(cmp, s[i], pool)
  }

  lemma SortedGrows<R(!new)>(cmp: (R, R) -> int, s: seq<R>, x: R, pool: multiset<R>)
    requires SortedBy(cmp, s) && AllNotAbove(cmp, s, pool + multiset{x}) && NotAbove(cmp, x, pool + multiset{x})
    ensures SortedBy(cmp, s + [x]) && AllNotAbove(cmp, s + [x], pool)
  {
    forall i | 0 <= i < |s| ensures cmp(s[i], x) <= 0 && NotAbove(cmp, s[i], pool) {
      assert NotAbove(cmp, s[i], pool + multiset{x});
    }
    forall i, j | 0 <= i < j < |s + [x]| ensures InOrder(cmp, s + [x], i, j) {
      assert j < |s| ==> InOrder(cmp, s, i, j);
    }
  }

  /** Reads until the end. */
  method ReadAll<R(0, !new, ==)>(sorter: Sorter<R>) returns (out: seq<R>)
    requires sorter.Reading()
    modifies sorter
    ensures SortedBy(sorter.cmp, out) && multiset(out) == old(All(sorter.left))
  {
    out := [];
    while !sorter.IsEnd()
      invariant sorter.Reading() && multiset(out) + All(sorter.left) == old(All(sorter.left))
      invariant SortedBy(sorter.cmp, out) && AllNotAbove(sorter.cmp, out, All(sorter.left))
      decreases sorter.total
    {
      var r := sorter.Read();
      SortedGrows(sorter.cmp, out, r, All(sorter.left));
      out := out + [r];
    }
    assert |All(sorter.left)| == 0;
  }

  /** Writes every record and reads until the end: the same records, in order. */
  method SortAll<R(0, !new, ==)>(totalMem: nat, recordSize: nat, cmp: (R, R) -> int, input: seq<R>)
    returns (out: seq<R>)
    requires 0 < recordSize <= totalMem && TotalPreorder(cmp) && input != []
    ensures SortedBy(cmp, out) && multiset(out) == multiset(input)
  {
    var sorter := new Sorter(totalMem, recordSize, cmp);
    WriteAll(sorter, input);
    sorter.BeginRead();
    out := ReadAll(sorter);
  }
}
