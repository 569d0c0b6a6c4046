# A verified model of the RMDB storage and query engine

RMDB is a small relational database built from pages up. This project models the parts of it that are hard to get
right, proves what they promise, and shows exactly where the code falls short of its promise. Code that works by
changing state is modelled as classes and loops proved against specification functions; code that only computes is
modelled as functions.

| modules | what they model |
|---|---|
| `IndexNode`, `IndexTree`, `IndexSteps`, `IndexSearch`, `IndexInsert`, `IndexFirst`, `IndexLow`, `IndexHandle`, `IndexScan`, `IndexBuild`, `IndexLost`, `CreateIndex` | the B+ tree index: node search, splits up to a new root, the leaf chain, range scans, creating an index over the records of a table |
| `LoserTree`, `MergeSort` | the external merge sort: bounded sorted runs, merged through a loser tree |
| `Plans`, `PlanMeaning`, `IndexMatch`, `Planner`, `JoinPlanner`, `QueryPlan`, `NestedLoopJoin` | the planner's rewrites against what a query asks for, and the nested-loop executor that runs the plan |
| `Replacer`, `BufferPool`, `BufferPoolManager`, `BufferRuns` | the buffer pool with its LRU replacer, as a cache nobody can see, and whole runs of calls |
| `Bitmap`, `RecordFile`, `RecordFileHandle` | slotted record pages, the ordered list of pages with space, the record scan |
| `Rollback` | the three row operations, their write set, and aborting a transaction |
| `KeyOrder` | raw keys, values and the integer rank of a key |
| `Catalogue`, `CatalogueText`, `CatalogueReader`, `RawCodec`, `IndexHeader`, `LogRecords` | what is written to disk reads back the same |

The main results:

- **Index.** The whole shape of the tree (equal depth, parent fields, separators, occupancy, closed leaf chain) survives
  every insertion, with no condition. The order of the tree, and with it the answers, survive an insertion if and only
  if the insertion does not fill the first leaf with a median below the first separator of an internal root: the code
  never lowers that separator. The insertion that breaks this loses a stored key, and no later insertion repairs the
  order. Whether a whole run breaks it is decided by the keys alone, through the first leaf, the first separator and the
  start of the second leaf, which can be computed without the tree. So creating an index over a table without repeated
  keys always succeeds, and the index answers every key like the table if and only if the computed second leaf does not
  start below the first separator. That is so if no key is below the least of the first order + 1 distinct keys. A table
  in descending key order loses a key exactly from a length on that the order alone determines: 2 (order + 1) for an odd
  order, about a quarter less for an even one.
- **Sort.** Writing any non-empty input and reading until the end gives a sorted permutation, for any number of runs
  and any total preorder, because every replay keeps the whole tournament.
- **Planner.** Every plan denotes the cross product of the FROM tables filtered by the conditions as planned. They are
  the query's own conditions unless the first join condition leads from the second table back to the first one with an
  operator that is not symmetric: the code then exchanges the columns and keeps the operator. For every query, the plan
  denotes the query on all databases if and only if this does not happen, or the other conditions already make the two
  columns equal.
- **Buffer pool, record file, rollback.** Each refines one finite map; evictions, free lists, bitmaps and indexes
  cannot be seen through it. After any run of fetches, unpins, writes, flushes and deletions every page has the bytes
  last written to it, and the pins that its successful fetches and unpins add up to.

Conventions of the model. An index key is the integer rank of its bytes; `KeyOrder.KeyOrderIsRank` proves that
comparing raw keys is comparing ranks. The index and the record file are modelled over new pages that are zeroed, as
fresh frames are; `BufferPoolManager.Manager.NewPage` says what a reused frame holds instead. Page bytes, pins and
latches are modelled in the buffer pool only; the structures above it see a map of pages. Values that a query compares
are integers. The date word of `KeyOrder.PackDate` is a sum because its three bit fields do not overlap.

## Model

| member | source | states |
|---|---|---|
| `IndexNode.LowerBound` | src/index/ix_index_handle.cpp:22-33 | the search loop finds the first slot whose key is not below the target, in a node in any order |
| `IndexNode.UpperBound` | src/index/ix_index_handle.cpp:41-52 | the search loop finds the first slot whose key is above the target |
| `IndexNode.LeafLookup` | src/index/ix_index_handle.cpp:62-81 | answers with the rid stored under the key, or with nothing |
| `IndexNode.InternalLookup` | src/index/ix_index_handle.cpp:83-102 | follows the last separator not above the key; keys below all separators go to the first child |
| `IndexNode.FindChild` | src/index/ix_index_handle.h:195-205 | finds the slot that names a child |
| `IndexNode.NodePage.InsertPairs` | src/index/ix_index_handle.cpp:118-134 | moving the tail of both arrays up and copying a block in inserts the block at its place and changes nothing else |
| `IndexTree.Locate` | src/index/ix_index_handle.cpp:287-388 | every position of a level belongs to one page and one slot of it |
| `IndexTree.FlatUnique` | src/index/ix_index_handle.cpp:287-388 | a position of a level determines page and slot |
| `IndexTree.Kid` | src/index/ix_index_handle.cpp:784-792 | the child named by a slot is the page of the level below at the same position, and its parent field names the page of the slot |
| `IndexSteps.SplitKeepsShape` | src/index/ix_index_handle.cpp:287-322 | splitting a full leaf or internal page keeps the whole-tree invariant, with the new page waiting to be named by its parent |
| `IndexSteps.PutKeepsShape` | src/index/ix_index_handle.cpp:143-160 | adding an entry to a leaf, or the entry of the waiting page to its parent, keeps the invariant |
| `IndexSteps.RootKeepsShape` | src/index/ix_index_handle.cpp:337-388 | a new root over the split root keeps the invariant, one level higher |
| `IndexSteps.PendingParent` | src/index/ix_index_handle.cpp:337-388 | the parent field leads to the page that must name the waiting page, at the slot after its sibling |
| `IndexSearch.LookupIsFind` | src/index/ix_index_handle.cpp:232-278 | in an ordered tree the descent answers every key like a search of all leaf entries |
| `IndexSearch.BoundsAgree` | src/index/ix_index_handle.cpp:646-670 | the bounds found in the leaf the descent reaches are the bounds in the whole sorted sequence |
| `IndexSearch.SeparatorsBound` | src/index/ix_index_handle.cpp:232-248 | at every level of an ordered tree a separator other than the first is the first key of its whole subtree: exactly the keys of the subtrees before it are below it |
| `IndexSearch.SeparatorsAscend` | src/index/ix_index_handle.cpp:232-248 | the separators of every level ascend strictly, apart from the first one in a tree with keys below it |
| `IndexSearch.DescendWithin` | src/index/ix_index_handle.cpp:232-248 | the descent from a page ends in a leaf of the stretch that its subtree covers |
| `IndexInsert.InsertContents` | src/index/ix_index_handle.cpp:396-425 | an insertion adds its entry to the leaf entries and takes none away, whatever splits it causes |
| `IndexInsert.InsertKeepsOrder` | src/index/ix_index_handle.cpp:396-425 | the entry lands at its place in the sorted leaf sequence, and the tree stays ordered if and only if the insertion does not lower the first separator |
| `IndexInsert.InsertFindsAll` | src/index/ix_index_handle.cpp:396-425 | every stored entry can still be looked up if and only if the insertion does not lower the first separator |
| `IndexInsert.InsertAnswers` | src/index/ix_index_handle.cpp:258-278 | after an insertion that keeps the order, the new key has its rid and every other answer is as before |
| `IndexInsert.NotLowered` | src/index/ix_index_handle.cpp:396-425 | keys that are not below the first separator never lower it |
| `IndexInsert.FirstSeparator` | src/index/ix_index_handle.cpp:337-388 | the first separator is the smallest key when the root is first split, and never changes after that |
| `IndexInsert.DisorderedLoses` | src/index/ix_index_handle.cpp:232-278 | once the second leaf starts below the first separator, its first key is out of reach |
| `IndexHandle.Handle.constructor` | src/index/ix_manager.h:58-135 | a new index file is the leaf list header and one empty leaf, a valid empty index |
| `IndexHandle.Handle.MaintainChildren` | src/index/ix_index_handle.cpp:784-792 | the loop gives exactly the moved children their new parent |
| `IndexHandle.Handle.SplitPage` | src/index/ix_index_handle.cpp:287-322 | the upper half moves to a new right sibling; leaves are linked into the chain, children get their new parent |
| `IndexHandle.Handle.InsertPair` | src/index/ix_index_handle.h:169-171 | one pair enters a page at a position, through the two arrays of the page |
| `IndexHandle.Handle.CreateRoot` | src/index/ix_index_handle.cpp:337-388 | a new root names the two halves under the first key of each, and becomes their parent |
| `IndexHandle.Handle.Split` | src/index/ix_index_handle.cpp:287-322 | splitting the page in memory is splitting it in the tree, and keeps the shape |
| `IndexHandle.Handle.GrowRoot` | src/index/ix_index_handle.cpp:337-388 | a tree whose root was split becomes whole again, one level higher, with the same leaves |
| `IndexHandle.Handle.AddToParent` | src/index/ix_index_handle.cpp:337-388 | the separator of the new page enters the parent right behind the split page, found by searching for it |
| `IndexHandle.Handle.InsertIntoParent` | src/index/ix_index_handle.cpp:337-388 | names the new page in its parent, splitting upwards as far as needed or growing a new root, and leaves a whole tree with the same leaves |
| `IndexHandle.Handle.SplitUp` | src/index/ix_index_handle.cpp:337-388 | an overfull parent is split in turn, and the recursion up ends with a whole tree |
| `IndexHandle.Handle.FindLeafPage` | src/index/ix_index_handle.cpp:232-248 | the loop down the pages reaches the leaf of the abstract descent |
| `IndexHandle.Handle.GetValue` | src/index/ix_index_handle.cpp:258-278 | returns what the tree answers |
| `IndexHandle.Handle.AddEntry` | src/index/ix_index_handle.cpp:396-425 | putting an entry into its leaf and splitting where needed is an insertion into the tree, and the last leaf is kept up to date |
| `IndexHandle.Handle.InsertEntry` | src/index/ix_index_handle.cpp:396-425 | keeps the shape always; rejects exactly the keys it finds, unchanged; keeps order and answers if and only if the first separator is not lowered |
| `IndexBuild.BuildIndex` | src/system/sm_manager.cpp:246-275 | a whole run of insertions from an empty index ends in order if and only if no step lowers the first separator, and if and only if the first leaf computed from the keys holds; then every key has the rid of its first record and duplicates are reported exactly; without repeated keys nothing is refused, and every record can be found if and only if the index is in order |
| `IndexBuild.KeysDecide` | src/system/sm_manager.cpp:246-275 | the keys of the records alone decide whether any insertion of the run lowers the first separator |
| `IndexBuild.AboveFirstKeeps` | src/system/sm_manager.cpp:246-275 | a run whose keys are not below the first separator once the root is internal never lowers it |
| `IndexBuild.NoneBelowHolds` | src/system/sm_manager.cpp:246-275 | if no key is below the least of the first order + 1 distinct keys, the second leaf never starts below the first separator |
| `IndexBuild.NoneRejected` | src/system/sm_manager.cpp:260-264 | without repeated keys no record is refused, even after the order is lost |
| `IndexFirst.FirstLeafIs` | src/index/ix_index_handle.cpp:396-425 | the first leaf after an insertion: unchanged, with the entry at its place, or the lower half of that |
| `IndexFirst.GoesFirst` | src/index/ix_index_handle.cpp:232-248 | in an ordered tree exactly the keys below the start of the second leaf go to the first one |
| `IndexFirst.EnterFirst` | src/index/ix_index_handle.cpp:396-425 | an insertion into the first leaf of an ordered tree with an internal root lowers the first separator if and only if the computed first leaf stops holding; otherwise the tree has the computed first leaf again |
| `IndexFirst.HeldBefore` | src/index/ix_index_handle.cpp:396-425 | a table whose first leaf holds has held after every shorter part of it |
| `IndexLow.LowersMakesLow` | src/index/ix_index_handle.cpp:396-425 | the insertion that lowers the first separator leaves the first leaf and the start of the second below it |
| `IndexLow.StaysLow` | src/index/ix_index_handle.cpp:396-425 | no later insertion repairs that, since keys below the first separator keep going to the first leaf and all others pass it by |
| `IndexLow.LowLoses` | src/index/ix_index_handle.cpp:232-278 | an index that has lost its order and holds no key twice has lost the first key of its second leaf |
| `IndexLost.FilledNext` | src/index/ix_index_handle.cpp:396-425 | how many entries of the first leaf are below the first separator after each key of a descending table, and the one key that lowers it |
| `IndexLost.DescendingHolds` | src/system/sm_manager.cpp:246-275 | for every order above 2, descending keys lower the first separator if and only if there are at least as many as a bound given by the order |
| `IndexLost.BuildDescending` | src/system/sm_manager.cpp:246-275 | building the index of a table in descending key order refuses nothing, and finds every record if and only if the table is shorter than that bound |
| `IndexLost.LosesKey` | src/system/sm_manager.cpp:246-275 | eleven keys of the longest allowed length, order 6, inserted in descending order into an empty index: a stored key cannot be found |
| `CreateIndex.KeyHasLen` | src/system/sm_manager.cpp:253-258 | the key joined from a record's columns has the length of the key columns |
| `CreateIndex.TwinsAreShared` | src/system/sm_manager.cpp:250-265 | two insertions of the run have the same key rank exactly when two live records have the same key |
| `CreateIndex.ScanEntries` | src/system/sm_manager.cpp:246-258 | the scan yields one entry for every live record, ascending by rid, with the rank of its key |
| `CreateIndex.FirstIsRecord` | src/system/sm_manager.cpp:250-265 | without repeated keys, the first entry with the rank of a raw key is that of the record with this key, and there is none for a key no record has |
| `CreateIndex.Create` | src/system/sm_manager.cpp:227-276 | refuses exactly keys longer than 512 bytes; a table without repeated keys gets its index, which answers every raw key with the rid of its record and nothing else if and only if the keys in scan order keep the first leaf holding; in that case exactly the tables with a repeated key are refused |
| `IndexScan.LowerPlace` | src/index/ix_index_handle.cpp:646-654 | the cursor stands at the first entry not below the key, across leaf boundaries and in the empty tree |
| `IndexScan.UpperPlace` | src/index/ix_index_handle.cpp:662-670 | the cursor stands at the first entry above the key |
| `IndexScan.IxScan.Next` | src/index/ix_scan.cpp:17-29 | the cursor moves to the next entry in key order, into the next leaf where the leaf ends |
| `IndexScan.RangeScan` | src/index/ix_scan.cpp:17-29 | a range scan ends and visits exactly the entries from lo to hi, ascending, once each |
| `LoserTree.Build` | src/execution/external_merge_sort.h:140-169 | playing every match from the bottom leaves in each slot the loser of its two subtrees and in slot 0 the overall winner |
| `LoserTree.RootBeats` | src/execution/external_merge_sort.h:140-169 | in any such tournament the winner goes before the winner of every subtree |
| `LoserTree.WinnerPath` | src/execution/external_merge_sort.h:173-199 | the overall winner won every match on its way up, so replaying that path suffices |
| `LoserTree.HeapZeroIsMinimal` | src/execution/external_merge_sort.h:140-199 | slot 0 holds a run whose head is minimal among all runs that are not exhausted |
| `LoserTree.WonOnPath` | src/execution/external_merge_sort.h:185-190 | along the winner's path the stored loser is the winner of the subtree off the path |
| `LoserTree.ReplayStarts` | src/execution/external_merge_sort.h:173-184 | a changed head, or an exhausted run, leaves every match off its path settled |
| `LoserTree.ReplayStep` | src/execution/external_merge_sort.h:185-197 | one match of a replay settles its slot and disturbs no other |
| `LoserTree.Replay` | src/execution/external_merge_sort.h:173-199 | after the winner's record changes or its run ends, replaying one path restores the whole tournament |
| `MergeSort.SortedSorts` | src/execution/external_merge_sort.h:82-82 | the sort used for a run gives a sorted permutation |
| `MergeSort.Sorter.constructor` | src/execution/external_merge_sort.h:48-52 | a run holds the most whole records that fit the memory budget |
| `MergeSort.Sorter.Write` | src/execution/external_merge_sort.h:79-106 | adds the record to what has been written; a full run is sorted and closed first |
| `MergeSort.Sorter.EndWrite` | src/execution/external_merge_sort.h:108-122 | every run is sorted and together they hold exactly what was written |
| `MergeSort.Sorter.BeginRead` | src/execution/external_merge_sort.h:124-170 | everything written is left to be read and the tournament is set up |
| `MergeSort.Sorter.Adjust` | src/execution/external_merge_sort.h:173-199 | takes the head off the winning run and restores the tournament |
| `MergeSort.Sorter.Read` | src/execution/external_merge_sort.h:201-206 | returns a record that is not above any record left, and takes exactly that one away |
| `MergeSort.Sorter.EndsWhenExhausted` | src/execution/external_merge_sort.h:208-210 | the end is reported exactly when every run is exhausted |
| `MergeSort.ReadAll` | src/execution/external_merge_sort.h:201-210 | reading until the end gives everything that is left, sorted |
| `MergeSort.SortAll` | src/execution/external_merge_sort.h:79-210 | writing all records and reading to the end gives a sorted permutation of any non-empty input |
| `Plans.FlipHolds` | src/optimizer/planner.cpp:193-197 | exchanging the columns and mirroring the operator keeps the meaning of a condition |
| `Plans.SwapHolds` | src/optimizer/planner.cpp:281-286 | exchanging the columns alone keeps the meaning if and only if the operator is = or <> |
| `Plans.CompareIsValue` | src/common/common.h:295-313 | each of the six operators of a condition is the value operator of that name, and evaluating a condition is comparing with it |
| `Plans.HoldsMeans` | src/common/common.h:290-313 | a condition holds in a row exactly when the value operator holds between the value of its left column and its literal, or the value of its right column |
| `PlanMeaning.TreeMeaning` | src/optimizer/planner.cpp:239-386 | a join tree denotes the cross product of its tables, with multiplicities, filtered by all its conditions |
| `PlanMeaning.SameMeaning` | src/optimizer/planner.cpp:239-386 | a tree over the query's tables whose conditions say what the query's say denotes the query, in any join order |
| `IndexMatch.MatchLength` | src/optimizer/planner.cpp:57-68 | the loop over an index's columns finds its longest leftmost match |
| `IndexMatch.BestIndex` | src/optimizer/planner.cpp:55-73 | no index has a longer match than the chosen one |
| `IndexMatch.SplitConds` | src/optimizer/planner.cpp:40-52 | the two maps find a condition for exactly the columns that have an equality, or another comparison |
| `IndexMatch.Positions` | src/optimizer/planner.cpp:83-93 | the places of the matched conditions, one for each matched column |
| `IndexMatch.Reorder` | src/optimizer/planner.cpp:95-111 | the matched conditions come first and the result is a permutation |
| `IndexMatch.TurnAllHolds` | src/optimizer/planner.cpp:22-31 | turning conditions round towards the table keeps their conjunction |
| `IndexMatch.TurnAllTowards` | src/optimizer/planner.cpp:22-31 | a condition whose left column is in the table, or which has a literal, or has no column of the table on the right, stays as written; every other one has its columns exchanged and its operator mirrored |
| `IndexMatch.GetIndexCols` | src/optimizer/planner.cpp:16-113 | the result is a permutation of the conditions, each as written or turned towards the table; its front follows the index's columns, all equalities but perhaps the last, and no index matches further; conditions that all have their left column in the table stay as written, and the match is one of them |
| `Planner.PopConds` | src/optimizer/planner.cpp:148-164 | the erasing loop separates the conditions the scan takes from the others, both in order |
| `Planner.KeptHolds` | src/optimizer/planner.cpp:148-164 | the two parts say together what the conditions said |
| `Planner.KeptHas` | src/optimizer/planner.cpp:152-160 | the scan of a table takes exactly the conditions of its table with a literal and those between two columns of one table |
| `Planner.PopsOwn` | src/optimizer/planner.cpp:154-162 | a scan gets conditions on its own table only if and only if no condition compares two columns of another table |
| `Planner.PopsForeign` | src/optimizer/planner.cpp:154-162 | a comparison of two columns of b is handed to the scan of a |
| `Planner.PushResult` | src/optimizer/planner.cpp:166-203 | the result code says which sides are below, and 3 exactly when both are and the condition has been attached |
| `Planner.PushOk` | src/optimizer/planner.cpp:166-203 | the condition is attached at one join, its left column on the left side, the tree asks for it and for all it asked before, and its scans keep their conditions |
| `Planner.PushMeaning` | src/optimizer/planner.cpp:166-203 | the new tree denotes the old tree's rows filtered by the condition |
| `JoinPlanner.MakeScans` | src/optimizer/planner.cpp:244-257 | the scans take exactly the conditions that are not join conditions, and the join conditions are left in order; every scan gets only conditions on its own table if and only if no condition compares two columns of a table other than the first |
| `JoinPlanner.MakeScan` | src/optimizer/planner.cpp:245-256 | the scan of a table asks for its conditions, whatever index is chosen |
| `JoinPlanner.PopScan` | src/optimizer/planner.cpp:205-216 | finds the scan of a table, marks it and records its name |
| `JoinPlanner.JoinNext` | src/optimizer/planner.cpp:332-370 | one more join condition adds itself and the scans it brings in to what the tree asks for, nothing else |
| `QueryPlan.JoinFirst` | src/optimizer/planner.cpp:271-329 | the first join asks for the first join condition as it is planned |
| `QueryPlan.JoinOthers` | src/optimizer/planner.cpp:377-383 | every table is in the tree once at the end |
| `QueryPlan.JoinAll` | src/optimizer/planner.cpp:262-385 | the join tree holds every table and asks for the scans' conditions and all join conditions, the first one as planned |
| `QueryPlan.MakeOneRel` | src/optimizer/planner.cpp:239-386 | the plan joins every table once and asks for the conditions as planned; its scans can be run if and only if no condition compares two columns of a table other than the first, and then it denotes the query on every database if and only if the first join condition is not misread or the other conditions make its columns equal |
| `QueryPlan.PlannedMeansAsked` | src/optimizer/planner.cpp:281-286 | for every query, the conditions as planned ask for the same rows on all databases if and only if the first join condition is not misread or the other conditions make its two columns equal |
| `QueryPlan.PlannedIs` | src/optimizer/planner.cpp:281-286 | every condition is planned as written but the first one between two tables, and that one has its columns exchanged, with its operator kept, exactly when it leads from the second table back to the first |
| `QueryPlan.MisreadExample` | src/optimizer/planner.cpp:281-286 | b.x < a.x with 0 in a and 1 in b: nothing is asked for and the plan delivers a row |
| `NestedLoopJoin.Cursor.Step` | src/execution/executor_nestedloop_join.h:91-101 | the cursor moves to the next pair in row-major order or ends, and what lay ahead is the joined row of its pair, if the pair matches, and what lies ahead now |
| `NestedLoopJoin.Cursor.EvalConditions` | src/execution/executor_nestedloop_join.h:103-112 | tells whether all conditions hold, left columns read from the left row and right ones from the right row |
| `NestedLoopJoin.Cursor.Slide` | src/execution/executor_nestedloop_join.h:60-62 | skips pairs that do not match and loses none that does |
| `NestedLoopJoin.Cursor.BeginTuple` | src/execution/executor_nestedloop_join.h:50-69 | stands on the first matching pair, or has ended if an input is empty or nothing matches |
| `NestedLoopJoin.Cursor.NextTuple` | src/execution/executor_nestedloop_join.h:71-84 | goes on to the next matching pair and skips none |
| `NestedLoopJoin.RunJoin` | src/execution/executor_nestedloop_join.h:50-112 | driven to the end the cursor delivers exactly the matching pairs, once each, in row-major order |
| `NestedLoopJoin.AllMeetingIsFilter` | src/execution/executor_nestedloop_join.h:103-112 | with each condition's columns on their sides the executor's test is the condition on the joined row |
| `NestedLoopJoin.EvalRecord` | src/execution/executor_seq_scan.h:71-79 | tells whether all conditions hold of a record |
| `NestedLoopJoin.SeqScan` | src/execution/executor_seq_scan.h:56-79 | a scan delivers exactly the records that meet the conditions, in their order |
| `NestedLoopJoin.Execute` | src/execution/executor_nestedloop_join.h:50-112 | running a plan delivers the rows it denotes |
| `NestedLoopJoin.Answer` | src/optimizer/planner.cpp:239-386 | planning and running a query gives its answer unless its first join condition is misread and its columns can differ |
| `Replacer.LruReplacer.Victim` | src/replacer/lru_replacer.cpp:25-42 | removes the least recently unpinned frame, and fails only when there is none |
| `Replacer.LruReplacer.Pin` | src/replacer/lru_replacer.cpp:48-62 | takes the frame out and keeps the order of the others; frame numbers out of range are reported |
| `Replacer.LruReplacer.Unpin` | src/replacer/lru_replacer.cpp:68-84 | the frame becomes the most recent one, a second unpin changes nothing |
| `BufferPool.UnpinnedFrames` | src/storage/buffer_pool_manager.cpp:19-32 | a frame can be found if and only if some frame is not pinned |
| `BufferPool.LoadedOk` | src/storage/buffer_pool_manager.cpp:41-95 | bringing a page in keeps the frame invariant, the bytes of every other page and every pinned frame |
| `BufferPool.PinOk` | src/storage/buffer_pool_manager.cpp:79-85 | one more pin keeps the invariant, all bytes and every pinned frame |
| `BufferPool.LoadedPins` | src/storage/buffer_pool_manager.cpp:41-95 | a page that is brought in has one pin and every other page keeps its pins, so only a page without pins is put out |
| `BufferPool.FramePins` | src/storage/buffer_pool_manager.cpp:103-131 | a step in one frame changes the pins of the page in that frame only |
| `BufferPool.DeletePins` | src/storage/buffer_pool_manager.cpp:184-206 | deleting a page changes no page's pins |
| `BufferPool.WriteOk` | src/storage/page.h:71-73 | changing the bytes of a pinned page keeps the invariant |
| `BufferPool.FlushOk` | src/storage/buffer_pool_manager.cpp:138-154 | writing a page out and clearing its dirty bit keeps the invariant and all bytes |
| `BufferPool.UnpinOk` | src/storage/buffer_pool_manager.cpp:103-131 | giving a pin back keeps the invariant and all bytes, if the last holder of a changed page has called it dirty |
| `BufferPool.DeleteOk` | src/storage/buffer_pool_manager.cpp:184-206 | a deleted page's frame, on the free list and still in the replacer, is safe, and no bytes are lost |
| `BufferPoolManager.Manager.constructor` | src/storage/buffer_pool_manager.h:38-54 | a new pool has every frame on the free list and shows the disk |
| `BufferPoolManager.Manager.FindVictim` | src/storage/buffer_pool_manager.cpp:19-32 | takes the head of the free list, else the least recently unpinned frame; fails exactly when every frame is pinned |
| `BufferPoolManager.Manager.UpdatePage` | src/storage/buffer_pool_manager.cpp:41-59 | writes back a dirty page and hands the frame over, its bytes unchanged |
| `BufferPoolManager.Manager.FetchPage` | src/storage/buffer_pool_manager.cpp:69-95 | returns the frame with the last bytes written to the page, changes no page's bytes, moves no pinned frame, and fails only when every frame is pinned; the page has one pin more and every other page as many as before |
| `BufferPoolManager.Manager.WritePage` | src/storage/page.h:71-73 | a holder's write changes the bytes of that page only; every pin, frame and list stays |
| `BufferPoolManager.Manager.UnpinPage` | src/storage/buffer_pool_manager.cpp:103-131 | succeeds exactly on pinned pages and changes no bytes; the page's frame then has one pin less and is dirty if it was or is called so, every other frame is as before, and the frame goes to the front of the replacer's list, and is in that list, exactly when no pin is left |
| `BufferPoolManager.Manager.FlushPage` | src/storage/buffer_pool_manager.cpp:138-154 | afterwards the disk has the page's bytes and the frame is clean; every other frame and every pin stays |
| `BufferPoolManager.Manager.NewPage` | src/storage/buffer_pool_manager.cpp:161-177 | a page number never used before, pinned once, with the bytes the chosen frame held before; every other page keeps its bytes |
| `BufferPoolManager.Manager.DeletePage` | src/storage/buffer_pool_manager.cpp:184-206 | refuses exactly pinned pages; otherwise the page leaves the pool with its bytes on disk, and its zeroed frame goes to the end of the free list; every other frame and every pin stays |
| `BufferRuns.Step` | src/storage/buffer_pool_manager.cpp:69-206 | one call moves the pins of its page by one or not at all and changes bytes only by writing; an unpin or a write succeeds exactly on a pinned page, a deletion exactly on one that is not |
| `BufferRuns.Run` | src/storage/buffer_pool_manager.cpp:69-206 | after any run of calls each page has the pins it had, one more for each successful fetch and one less for each successful unpin, and the bytes last written to it; the pins at the time decide each unpin, write and deletion |
| `BufferRuns.PinsNext` | src/storage/buffer_pool_manager.cpp:69-131 | one more call keeps the account of the pins |
| `BufferRuns.HoldAndRelease` | src/storage/buffer_pool_manager.cpp:69-131 | a page fetched n times and unpinned n times has the pins it had before, like every other page; the fetches fail only if every frame is pinned |
| `Bitmap.SetAndReset` | src/record/bitmap.h:26-39 | setting or clearing a bit changes that bit and no other |
| `Bitmap.CountSet` | src/record/bitmap.h:26-34 | setting a clear bit or clearing a set one changes the population by one |
| `Bitmap.CountFull` | src/record/bitmap.h:37-39 | the population is the number of slots, or 0, exactly when all, or none, are set |
| `Bitmap.NextBit` | src/record/bitmap.h:49-56 | finds the first bit of the wanted kind behind a position, or the end |
| `RecordFile.PageFits` | src/record/rm_manager.h:47-50 | for every allowed record size header, bitmap and slots fit a page that holds a record, and one record more would leave no byte behind a header as long as the file's |
| `RecordFile.FreeList` | src/record/rm_file_handle.cpp:156-210 | the list starts at first_free_page_no, ends at num_pages and holds exactly the pages with a free slot; each count is its bitmap's population |
| `RecordFile.ChainAscends` | src/record/rm_file_handle.cpp:177-210 | the list is strictly ascending |
| `RecordFile.GrownOk` | src/record/rm_file_handle.cpp:138-172 | a new page becomes the whole list and brings no record |
| `RecordFile.StoredOk` | src/record/rm_file_handle.cpp:37-60 | storing a record keeps the invariant; a page that becomes full leaves the list |
| `RecordFile.RelinkedOk` | src/record/rm_file_handle.cpp:177-210 | linking a page in behind its predecessor keeps the list in order and every record |
| `RecordFile.ErasedOk` | src/record/rm_file_handle.cpp:81-96 | clearing a slot removes that record only |
| `RecordFile.OverwrittenOk` | src/record/rm_file_handle.cpp:104-112 | overwriting a slot changes that record only |
| `RecordFileHandle.FileHandle.constructor` | src/record/rm_manager.h:35-57 | a new file holds no record and no page but its header |
| `RecordFileHandle.FileHandle.GetRecord` | src/record/rm_file_handle.cpp:19-29 | the record of a live rid |
| `RecordFileHandle.FileHandle.InsertRecord` | src/record/rm_file_handle.cpp:37-60 | a rid that was not in use now holds the record, and nothing else changes |
| `RecordFileHandle.FileHandle.CreatePage` | src/record/rm_file_handle.cpp:156-172 | yields a page with space without changing a record |
| `RecordFileHandle.FileHandle.ReleasePage` | src/record/rm_file_handle.cpp:177-210 | the walk along the list ends and puts the page in its place |
| `RecordFileHandle.FileHandle.DeleteRecord` | src/record/rm_file_handle.cpp:81-96 | removes the record of that rid only |
| `RecordFileHandle.FileHandle.UpdateRecord` | src/record/rm_file_handle.cpp:104-112 | replaces the record of that rid only |
| `RecordFileHandle.RmScan.constructor` | src/record/rm_scan.cpp:19-50 | stands on the first live rid, or at the end if there is none |
| `RecordFileHandle.RmScan.Next` | src/record/rm_scan.cpp:55-79 | goes to the next live rid in page and slot order, or to the end |
| `RecordFileHandle.ScanAll` | src/record/rm_scan.cpp:19-94 | a scan delivers exactly the live rids, ascending, and ends |
| `Rollback.MoveThenBack` | src/transaction/transaction_manager.cpp:200-229 | moving a key and moving it back leaves a unique index exactly as it was, and in between it agrees with the records |
| `Rollback.BuildKey` | src/transaction/transaction_manager.cpp:169-175 | the loop joins the key columns of a record, which `Rollback.KeyBytes` spells out byte by byte |
| `Rollback.KeyBytes` | src/transaction/transaction_manager.cpp:169-175 | behind the bytes of the columns before it, a column's bytes in the key are the record's bytes at the column's offset |
| `Rollback.SameKeyMeans` | src/system/sm_manager.cpp:253-258 | two records have the same key exactly when every key column has the same bytes in both |
| `Rollback.AddThenRemove` | src/transaction/transaction_manager.cpp:161-178 | removing a key that was added restores the index |
| `Rollback.RemoveThenAdd` | src/transaction/transaction_manager.cpp:186-199 | adding back a key that was removed restores the index |
| `Rollback.UndoInsert` | src/transaction/transaction_manager.cpp:161-181 | undoing an insert restores the records and every index |
| `Rollback.UndoDelete` | src/transaction/transaction_manager.cpp:182-199 | undoing a delete restores the records and every index |
| `Rollback.UndoUpdate` | src/transaction/transaction_manager.cpp:200-229 | undoing an update restores the records and every index |
| `Rollback.AppliedKeeps` | src/execution/executor_update.h:53-57 | a byte of the record that no clause writes keeps its value |
| `Rollback.AppliedWrites` | src/execution/executor_update.h:53-57 | every other byte is the one that the last clause to write it puts there |
| `Rollback.RewrittenAllIs` | src/execution/executor_update.h:49-57 | after some rows have been updated exactly those have the clauses applied, once |
| `Rollback.Database.Insert` | src/execution/executor_insert.h:55-93 | refuses exactly records with a key some unique index holds, before anything is written; otherwise that table has the record and its keys, the log ends with the insert, and no other table changes |
| `Rollback.Database.Delete` | src/execution/executor_delete.h:40-68 | removes the record and its keys from that table only, and the log ends with the record that was there |
| `Rollback.Database.DeleteRows` | src/execution/executor_delete.h:39-70 | removes exactly the given records and their keys, logs each, and the log still leads back |
| `Rollback.Database.Update` | src/execution/executor_update.h:49-122 | refuses exactly rows whose changed key some unique index holds, unchanged; otherwise the record and the keys of that table change, and the log ends with both images |
| `Rollback.Database.UpdateRows` | src/execution/executor_update.h:42-125 | stops only at a row whose update would repeat a unique key, with exactly the rows before it updated and logged, and the log leads back all the same |
| `Rollback.Database.Undo` | src/transaction/transaction_manager.cpp:161-230 | the three undo cases with their loops over the indexes |
| `Rollback.Database.Abort` | src/transaction/transaction_manager.cpp:144-252 | after any operations, completed or stopped, every table and every index is exactly as when the transaction began |
| `KeyOrder.IntRoundTrip` | src/common/common.h:116-118 | a 32-bit int written as four bytes reads back |
| `KeyOrder.DecodeIntIs` | src/index/ix_index_handle.h:22-26 | four bytes are a two's complement number, the lowest byte first |
| `KeyOrder.StrRoundTrip` | src/common/common.h:122-127 | a NUL-free string padded with zeros to any width reads back |
| `KeyOrder.OperatorsAgree` | src/common/common.h:193-259 | the six comparison operators fit together: exactly one of <, = and > holds, and the other three are what they say |
| `KeyOrder.CompareStrLess` | src/common/common.h:224-252 | a string is below another exactly when it is a proper prefix of it or has the lower byte where they first differ |
| `KeyOrder.ColumnOrder` | src/index/ix_index_handle.h:20-38 | comparing two raw INT, DATE or zero-padded STRING columns is comparing the values they encode |
| `KeyOrder.IxCompare` | src/index/ix_index_handle.h:40-50 | the loop over the columns returns the sign of the first column that differs |
| `KeyOrder.KeyOrderIsRank` | src/index/ix_index_handle.h:40-50 | composite keys are totally ordered: the comparison is that of an integer rank, and 0 only for equal keys |
| `KeyOrder.DateOrder` | src/common/common.h:73-93 | packed dates are in calendar order |
| `KeyOrder.DateRoundTrip` | src/common/common.h:159-167 | a packed date can be taken apart again |
| `Catalogue.NumRoundTrip` | src/system/sm_meta.h:36-44 | a printed number reads back |
| `Catalogue.Reader.Word` | src/system/sm_meta.h:42-44 | reading a word skips blanks and takes exactly the next printed word |
| `CatalogueText.DbText` | src/system/sm_meta.h:207-213 | the printed catalogue is its words with blanks between them |
| `CatalogueText.ColText` | src/system/sm_meta.h:36-40 | a printed column is its six words |
| `CatalogueText.IndexText` | src/system/sm_meta.h:54-60 | a printed index is its head and the words of its columns |
| `CatalogueText.TabText` | src/system/sm_meta.h:145-155 | a printed table is its counts, columns and indexes |
| `CatalogueText.Sample` | src/system/sm_meta.h:36-60 | a column, an index head, an empty table and an empty catalogue, letter by letter |
| `CatalogueReader.ReadCol` | src/system/sm_meta.h:42-44 | a printed column reads back |
| `CatalogueReader.ReadCols` | src/system/sm_meta.h:160-164 | as many columns as were counted read back |
| `CatalogueReader.ReadIndex` | src/system/sm_meta.h:62-70 | a printed index reads back with all its columns |
| `CatalogueReader.ReadIndexes` | src/system/sm_meta.h:165-170 | as many indexes as were counted read back |
| `CatalogueReader.ReadTab` | src/system/sm_meta.h:157-172 | a printed table reads back with all columns and indexes |
| `CatalogueReader.ReadDb` | src/system/sm_meta.h:215-224 | a printed catalogue reads back as the same catalogue, for any number of tables |
| `IndexHeader.Serialize` | src/index/ix_defs.h:59-90 | writes every field in order and ends at the stored length |
| `IndexHeader.Deserialize` | src/index/ix_defs.h:92-128 | a buffer that begins with a header's bytes reads back as that header |
| `IndexHeader.RoundTrip` | src/index/ix_defs.h:59-128 | a header written and read is the same header |
| `IndexHeader.Layout` | src/index/ix_defs.h:59-90 | the place of every field in the page, four bytes each, column types before column lengths |
| `IndexHeader.NodeFits` | src/index/ix_manager.h:65-80 | for every allowed key length the order is at least 6 and a node with one spare entry is the most that fits a page |
| `LogRecords.PartsLen` | src/recovery/log_manager.h:106-117 | the length the constructor adds up is the number of bytes written |
| `LogRecords.HeaderLayout` | src/recovery/log_manager.h:33-39 | the type stands at byte 0, the lsn at 4, the length at 8, the transaction at 12 and the previous lsn at 16 |
| `LogRecords.BodyLayout` | src/recovery/log_manager.h:120-132 | behind the header stand the value's size and bytes, the page and slot of the rid, and the name's size in eight bytes and its bytes |
| `RawCodec.DecodeNatAdds` | src/recovery/log_manager.h:36-36 | a number without a sign is stored with the lowest byte first |
| `LogRecords.Serialize` | src/recovery/log_manager.h:120-132 | writes header, value, rid and table name one after the other |
| `LogRecords.Deserialize` | src/recovery/log_manager.h:134-144 | a buffer that begins with a record's bytes reads back as that record |
| `LogRecords.RoundTrip` | src/recovery/log_manager.h:106-144 | a constructed record written and read is the same record |

## Left out

- B+ tree deletion (`delete_entry`, `coalesce_or_redistribute` and what they call): the sibling's position is passed where the node's own is expected, so no tree invariant is kept. Rollback uses finite maps for its indexes.
- Merge join: after a match both sides move on, so it is not the join the nested loop computes.
- Index scan bounds: conditions are matched to index columns by position; `NestedLoopJoin.Execute` scans tables sequentially.
- Descending order in the sort executor: its flag is stored and not used.
- The rid-directed `insert_record`: as a record-file operation it leaves the record count alone; rollback uses its effect on the records.
- `flush_all_pages`: its loop also writes frames that hold no page.
- Floating-point columns and values: integers and strings only.
- Aggregation, HAVING, projection, the parser and the analyser: many small cases that would only add easy members.
- Locks, log flushing, recovery, sockets, files and directories: stubs, or input and output.
- PushConds: plans are values, so the shared plan nodes that the code updates in place are not modelled.
- Sorter.BeginRead: requires a run, because the code divides by the number of runs; an empty input is not handled by it.
- Manager.FetchPage: requires a page that is pooled or on disk and is not page 0 of file 0; the code throws in the middle of the call for a page the file does not have, and the zeroed id of deleted frames is that of page 0 of file 0.
- Manager.UnpinPage: requires that the last holder of a page that was written or created calls it dirty, as its callers do.
- Answer: requires that no condition compares two columns of a table other than the first in the FROM list; such a comparison goes to the scan of the first table, which does not have the columns. `QueryPlan.MakeOneRel` states exactly when that happens.
- Execute: a scan condition between two columns of the table is evaluated on both; the code's sequential scan asserts that the right side is a literal.
- EvalRecord: a condition between two columns of the table is evaluated on both; the code's sequential scan asserts that the right side is a literal.
- GetIndexCols: requires that no index lists a column twice.
- Positions: requires that no index lists a column twice.
- MakeScan: requires that no index lists a column twice.
- MakeScans: requires that no index lists a column twice.
- MakeOneRel: requires that no index lists a column twice.
- RangeScan: requires an index in order and a lower end that is not above the upper one; otherwise the scan starts behind its end and runs past the last leaf, which the code asserts against.
- FileHandle.DeleteRecord: requires a rid that holds a record, as a scan delivers it; the code does not look, and would count a record that is not there.
- FileHandle.UpdateRecord: requires a rid that holds a record, as a scan delivers it.
- Run: the calls fetch only pages that exist, and whoever changes a page calls it dirty when giving it back; new pages are not among the calls.
- HoldAndRelease: requires that a page with unreported changes is called dirty when it is given back.
- Manager.NewPage: requires that the new page is not page 0 of file 0, whose id the code gives to deleted frames.
- Database.DeleteRows: requires distinct rids, as a scan delivers them.
- Create: requires that each key column lies inside every record and has the length of its type, as the catalogue has it; the catalogue entry and the index file's name are not modelled, and a dropped index is one that is not returned.
