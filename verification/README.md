# A verified model of mpiP's data structures and statistics pipeline

mpiP profiles MPI programs. Every wrapped MPI call adds to a table of call-site statistics kept by the calling
thread; the tables of all threads are merged into one per rank; one rank, the collector, receives the records of all
ranks, turns program counters into source lines, numbers the call sites and adds everything up. This project models
that machinery in Dafny and proves what it promises:

- **Address ranges** (`RangeTree`, `ZeroOrder`, `Shape`, `RangeStore`, `AddrRangeMap`, `PatchedRanges`, `LineTables`,
  `AddrToSourceMap`, `FunctionMap`): the red-black tree with parent pointers, its two rotations, its insertion with
  re-balancing, the search, and the recursive pass that turns line-table points into ranges, all on heap records updated
  in place; and the same insertion as a recursive function, which the loop with its parent pointers refines.
- **The thread list** (`TsList`): the lock-free append and the single-consumer dequeue and traversal, as a machine
  over every interleaving of shared accesses.
- **The hash table** (`HashSpec`, `HashTable`) with its bucket array and linked chains, and the hash keys and
  comparators of all its users (`Keys`).
- **The statistics** (`Stats`, `Tables`, `StatTable`, `ThreadStats`, `MtStats`): recording a call, merging tables,
  threads that come and go.
- **The collector** (`SourceIds`, `CollectorSpec`, `SiteData`, `Collector`): the pc cache, the call-site ids, the two
  aggregate tables, the per-site times and the totals.
- **The whole profiler** (`Report`): from the calls of all threads of all ranks to the entries of the report.
- **Region names** (`Regions`) and **histogram bins** (`Histogram`).
- `Options` and `Powers` hold what several files share.

Code that works in place is a class or a method over arrays whose `ensures` tie the new state to a function on values;
the theorems are about those functions and about whole runs. Predicates named `Valid` say which records belong to an
object and which values they hold.

## Where the code and its intention part

- The wait loop of the list's dequeue (mpiP-tslist.c:91-92) is commented "wait for the pointer to appear" but spins
  while the pointer is there. `TsLists.MeantIsFifo` proves the list for the wait as commented;
  `TsLists.WrittenIsFifoIfCasSucceeds` proves the code as written for runs in which the compare-and-swap never fails;
  `TsLists.WrittenCasFailure` says what happens otherwise: the dequeue never returns, or a freed element can be written.
  `TsLists.WrittenRaceSpins` and `TsLists.WrittenRaceFaults` are runs with these two outcomes.
- The range-patching pass computes `maxAddress - 1` (pc_lookup_dwarf.c:643), which wraps to the top of the address
  space when address 0 was stored twice. Two entries at address 0 still do no harm: no insertion and no rotation puts the
  first of them below the second on the search path (`LineTables.TwoZerosAreHidden`). Three can do harm, as
  `AddrToSourceMaps.ThreeZeros` and the run `AddrToSourceMaps.ZeroStoredThrice` show, and need not, as
  `AddrToSourceMaps.ThreeZerosHidden` shows. `AddrToSourceMaps.AddrToSourceMap.RightAnswersIff` says, of the entries in
  the order they were added, exactly when all answers are right.
- The last patched range ends at 2^64 - 2, so the top address is never found.
- A function's range is stored with its end, which is the address after its last byte (`DW_AT_high_pc` in
  section 2.17.2 of the DWARF 4 standard). Adding takes ranges that touch as disjoint while the search takes ranges as
  closed, so where one function ends and the next begins either may be found (`FunctionMaps.FunctionMap.Find`).
- The call-site id table's comparator looks only at the id when the traceback depth is 0, while its hash looks only at
  the frames. "Equal elements hash alike" would fail there for keys with frames (`Keys.SrcIdHashAgreesIff`), but the
  profiler makes no such keys: with a depth of 0 the wrappers record no stack (make-wrappers.py:1079, 1092). For the keys
  it makes the pair is consistent at every depth (`SourceIds.MadeKeysConsistent`).
- A stack can have a NULL in its middle, where a frame could not be read (record_stack.c:78-82). The statistics of a rank
  keep such stacks apart by all their frames, the ids only by the frames before the NULL, so two records of one rank can
  meet in one entry of the table by call site, whose buffer of times has one slot per rank. `CollectorSpecs.MeetIff` says
  exactly when they meet, `CollectorSpecs.FitsBuffersIff` that a buffer overflows exactly when more records than slots
  belong to one entry, in whatever order they come, and `CollectorSpecs.UnreadFrameOverflows` is a report in which one
  does. `CollectorSpecs.ReportsFit` says that stacks without such NULLs never overflow a buffer.
- The comment at mpiP-callsites.c:318 says that several pcs of one source line are taken together; the comparator
  compares pcs as well (mpiP-callsites.c:196), so stacks that differ only in pcs get different ids.
- A region exit ignores its argument (the check is left to do at mpiP-API.c:128) and leaves the innermost region. A
  nested name that is too long for the buffer is cut off without terminator instead of being refused
  (mpiP-API.c:75-79); `Regions.ExitUndoesEnterIff` gives the exact condition under which an exit undoes an enter.

## Model

| member | source | states |
|---|---|---|
| `RangeTrees.InsertKeepsSeparated` | pc_lookup_dwarf.c:355-400 | inserting a range that overlaps none keeps the ranges sorted, each ending at or before the next one starts |
| `RangeTrees.InsertContents` | pc_lookup_dwarf.c:355-400 | the contents after an insertion are the old ones plus the new range |
| `RangeTrees.InsertPosMeaning` | pc_lookup_dwarf.c:358-399 | the place of a new range: everything before it starts below the range's end, everything from it on starts at or after |
| `RangeTrees.WalkLeft` | pc_lookup_dwarf.c:360-366 | a step to the left child keeps the walk's knowledge that all ranges around the hole lie on their side of the new range |
| `RangeTrees.WalkRight` | pc_lookup_dwarf.c:376-383 | the same for a step to the right child |
| `RangeTrees.WalkEnds` | pc_lookup_dwarf.c:358-399 | a walk that ends at an empty place has met no overlapping range anywhere in the tree, and the place is where the sorted order wants the range |
| `RangeTrees.WalkEndsFixing` | pc_lookup_dwarf.c:368-391 | the new red node put there starts the re-balancing loop's invariant |
| `RangeTrees.LeftRotationKeepsOrder` | pc_lookup_dwarf.c:235-273 | a left rotation keeps the in-order sequence, and a right rotation undoes it |
| `RangeTrees.RightRotationKeepsOrder` | pc_lookup_dwarf.c:276-314 | a right rotation keeps the in-order sequence, and a left rotation undoes it |
| `RangeTrees.PlugKeepsOrder` | pc_lookup_dwarf.c:235-314 | replacing a subtree by one with the same ranges keeps the order of the whole tree |
| `RangeTrees.RedParentHasParent` | pc_lookup_dwarf.c:411-416 | while the loop runs the grandparent exists and is black, so it is never a missing node that is dereferenced |
| `RangeTrees.PushKeepsFixing` | pc_lookup_dwarf.c:420-427 | red uncle: after recolouring, the only flaw left is two levels further up, with the same black counts and order |
| `RangeTrees.InnerLeftKeepsFixing` | pc_lookup_dwarf.c:431-435 | black uncle, inner grandchild: one left rotation makes it an outer grandchild and keeps the loop invariant |
| `RangeTrees.InnerRightKeepsFixing` | pc_lookup_dwarf.c:456-460 | the mirror image |
| `RangeTrees.OuterLeftKeepsFixing` | pc_lookup_dwarf.c:436-438 | black uncle, outer grandchild: recolouring and one right rotation remove the flaw |
| `RangeTrees.OuterRightKeepsFixing` | pc_lookup_dwarf.c:461-463 | the mirror image |
| `RangeTrees.FixedIsRedBlack` | pc_lookup_dwarf.c:411-468 | when the loop ends, blackening the root gives a red-black tree with the same ranges |
| `RangeTrees.HeightBound` | pc_lookup_dwarf.c:154-157 | 2 to the height is at most the square of the number of ranges plus one, that is, the height is at most 2 log2(n + 1) |
| `RangeTrees.LookupFinds` | pc_lookup_dwarf.c:473-512 | the search finds a stored range that contains the address exactly when there is one |
| `RangeTrees.SharedOnlyAtEnds` | pc_lookup_dwarf.c:360-376 | two stored ranges can both contain an address only where one ends and the other starts |
| `RangeTrees.GoodHeight` | pc_lookup_dwarf.c:403-409 | a tree without red-red edges and with equal black counts is at most twice as high as its black count |
| `ZeroOrders.LeftRotationTidy` | pc_lookup_dwarf.c:235-273 | among sorted points with at most two at address 0, a left rotation anywhere keeps the first one added from lying below the other on the search path |
| `ZeroOrders.OuterRotationTidy` | pc_lookup_dwarf.c:436-438 | so does the right rotation of an outer grandchild |
| `ZeroOrders.InnerRotationTidy` | pc_lookup_dwarf.c:456-460 | and that of an inner grandchild, which happens in a right subtree |
| `ZeroOrders.InsertTidy` | pc_lookup_dwarf.c:355-400 | and so does inserting a new point |
| `Shapes.WayLeft` | pc_lookup_dwarf.c:360-366 | a step of the walk to the left child is a step of the recursive insertion |
| `Shapes.WayRight` | pc_lookup_dwarf.c:376-383 | the same to the right |
| `Shapes.PushClimbs` | pc_lookup_dwarf.c:420-427 | the red-uncle pass of the loop leaves what mending every level above in turn, as the recursion does, will make |
| `Shapes.InnerLeftClimbs` | pc_lookup_dwarf.c:431-435 | so does the rotation of an inner grandchild |
| `Shapes.InnerRightClimbs` | pc_lookup_dwarf.c:456-460 | the mirror image |
| `Shapes.OuterLeftClimbs` | pc_lookup_dwarf.c:436-438 | so do the recolouring and rotation of an outer grandchild |
| `Shapes.OuterRightClimbs` | pc_lookup_dwarf.c:461-463 | the mirror image |
| `Shapes.LoopEnds` | pc_lookup_dwarf.c:411-468 | where the loop stops, the recursion has nothing left to mend |
| `RangeStores.LeftRotationLinked` | pc_lookup_dwarf.c:245-272 | the pointer writes of a left rotation leave records that hold the rotated tree, with all parent and child pointers consistent |
| `RangeStores.RightRotationLinked` | pc_lookup_dwarf.c:286-313 | the same for a right rotation |
| `RangeStores.AttachLinked` | pc_lookup_dwarf.c:370-391 | adopting the new node as a child gives records that hold the tree with the node in that place |
| `RangeStores.PushLinked` | pc_lookup_dwarf.c:423-425 | the three colour writes of the red-uncle case, on linked records |
| `RangeStores.LeftEdgeLinked` | pc_lookup_dwarf.c:436-437 | the two colour writes before the last rotation, on linked records |
| `RangeStores.RightEdgeLinked` | pc_lookup_dwarf.c:461-462 | the mirror image |
| `RangeStores.RangeSet` | pc_lookup_dwarf.c:643 | overwriting a node's range end changes the tree that the records hold in that node only |
| `RangeStores.Surroundings` | pc_lookup_dwarf.c:412-444 | parent, grandparent and uncle as the records give them |
| `AddrRangeMaps.AddrRangeMap.constructor` | pc_lookup_dwarf.c:185-190 | an empty map |
| `AddrRangeMaps.AddrRangeMap.LeftRotate` | pc_lookup_dwarf.c:235-273 | every field of every record after the pointer writes, and that all other records are untouched |
| `AddrRangeMaps.AddrRangeMap.RightRotate` | pc_lookup_dwarf.c:276-314 | the same for the right rotation |
| `AddrRangeMaps.AddrRangeMap.LeftRotateAt` | pc_lookup_dwarf.c:235-273 | at any position of a linked tree the pointer writes make the rotated tree at that position |
| `AddrRangeMaps.AddrRangeMap.RightRotateAt` | pc_lookup_dwarf.c:276-314 | the same for the right rotation |
| `AddrRangeMaps.AddrRangeMap.Family` | pc_lookup_dwarf.c:412-444 | what the loop reads through parent pointers are the nodes the tree has there |
| `AddrRangeMaps.AddrRangeMap.FixLeft` | pc_lookup_dwarf.c:416-440 | one pass of the loop, parent a left child: the invariant is kept and the flaw comes closer to the root |
| `AddrRangeMaps.AddrRangeMap.FixRight` | pc_lookup_dwarf.c:441-465 | one pass of the loop, parent a right child |
| `AddrRangeMaps.AddrRangeMap.Rebalance` | pc_lookup_dwarf.c:410-468 | from a new red node on, the loop ends with a linked red-black tree of the same ranges, of the shape that mending every level in turn gives |
| `AddrRangeMaps.AddrRangeMap.Descend` | pc_lookup_dwarf.c:357-399 | the walk from the root: refused exactly when a stored range overlaps, otherwise the place for the new node |
| `AddrRangeMaps.AddrRangeMap.Add` | pc_lookup_dwarf.c:320-469 | accepts a range exactly when it overlaps no stored one; then the map is a valid red-black tree whose sorted ranges are the old ones with the new one in its place, and whose shape and colours are those of the recursive insertion into the old shape; a refused range (the abort) changes nothing |
| `AddrRangeMaps.AddrRangeMap.Find` | pc_lookup_dwarf.c:473-512 | the iterative search on the records is the search on the tree |
| `PatchedRanges.PatchTreeIsPatchSeq` | pc_lookup_dwarf.c:599-646 | the recursive pass makes every range end just before the next start in address order, whatever the tree's shape |
| `PatchedRanges.PatchedSearchIsFloor` | pc_lookup_dwarf.c:473-512 | after patching, the search finds the last range that starts at or below the address, unless a wrapped range at address 0 is in its way |
| `PatchedRanges.PatchedSearchIsFloorIff` | pc_lookup_dwarf.c:636-643 | that exception exactly: the search finds the patched range of the floor for all addresses if and only if no wrapped range at address 0 is met |
| `PatchedRanges.UnhiddenZeroFound` | pc_lookup_dwarf.c:643 | a wrapped range that is met answers for address 0 with an end at the top of the address space |
| `PatchedRanges.UnhiddenZeroAt` | pc_lookup_dwarf.c:643 | its information is that of an entry at address 0 with another one after it in address order |
| `PatchedRanges.FloorNeverWraps` | pc_lookup_dwarf.c:636-643 | the range of a floor search never has a wrapped end |
| `PatchedRanges.PatchKeepsGood` | pc_lookup_dwarf.c:599-646 | patching keeps the colours and black counts |
| `LineTables.FloorMeaning` | pc_lookup_dwarf.c:516-530 | the reference search: the entry with the greatest address at or below, the first added among equals; none exactly when all are above |
| `LineTables.SortedIsSeparated` | pc_lookup_dwarf.c:591-592 | points added one by one, equal addresses included, stay sorted and disjoint |
| `LineTables.SortedFloor` | pc_lookup_dwarf.c:570-593 | the sorted points answer a floor search as the reference search over the entries does |
| `LineTables.PatchedFloorIsFloor` | pc_lookup_dwarf.c:650-667 | up to 2^64 - 2 the patched ranges carry the reference answer; the top address has none |
| `LineTables.OneZeroIsHidden` | pc_lookup_dwarf.c:643 | with at most one entry at address 0 no wrapped range is met |
| `LineTables.TwoZerosAreHidden` | pc_lookup_dwarf.c:320-469 | nor with two, in a tree that insertion has built |
| `LineTables.WrapsExactlyOnTwoZeros` | pc_lookup_dwarf.c:643 | some patched end wraps exactly when address 0 was stored at least twice |
| `LineTables.ZerosMeaning` | pc_lookup_dwarf.c:643 | the number of entries at address 0 |
| `LineTables.ZeroStartsMeaning` | pc_lookup_dwarf.c:819-993 | the number of tables whose first row is at address 0 |
| `LineTables.KeptBelow` | pc_lookup_dwarf.c:959-985 | the rows kept before a row lie strictly below it |
| `LineTables.KeptFloorIsLastRow` | pc_lookup_dwarf.c:925-993 | for a readable nondecreasing table, searching the kept rows gives the last row of the whole table at or below the address |
| `LineTables.KeptOfAllFloor` | pc_lookup_dwarf.c:819-993 | the same for what was kept of several tables |
| `LineTables.LastOfAllMeaning` | pc_lookup_dwarf.c:516-530 | of the last rows of all tables, the one with the greatest address, from the first table among equals |
| `LineTables.LastRowMeaning` | pc_lookup_dwarf.c:925-993 | the last row of a table at or below an address, by its position among the rows |
| `LineTables.AnswerRow` | pc_lookup_dwarf.c:516-530 | what is found among several tables, by the positions of table and row; none exactly when all rows are above |
| `AddrToSourceMaps.PatchRangesAux` | pc_lookup_dwarf.c:599-646 | the in-place recursion writes the patched tree and returns its first start |
| `AddrToSourceMaps.AddrToSourceMap.Add` | pc_lookup_dwarf.c:570-593 | adds a point; a point is never refused |
| `AddrToSourceMaps.AddrToSourceMap.PatchRanges` | pc_lookup_dwarf.c:650-667 | patches the whole map, empty or not |
| `AddrToSourceMaps.AddrToSourceMap.Find` | pc_lookup_dwarf.c:673-679 | after any sequence of additions and the patching pass: what is returned as a function of that sequence; it is the entry added with the greatest address at or below, the first among equals, and none exactly when all are above, if at most two of them are at address 0 (or the exact condition holds) |
| `AddrToSourceMaps.AnswersIff` | pc_lookup_dwarf.c:599-646 | for entries with different information, a patched tree gives the reference answer for every address if and only if no wrapped range at address 0 is met |
| `AddrToSourceMaps.AddrToSourceMap.RightAnswersIff` | pc_lookup_dwarf.c:570-679 | the same of the map that additions and the patching pass have made, with the condition on the sequence of entries added |
| `AddrToSourceMaps.AddrToSourceMap.SaveLine` | pc_lookup_dwarf.c:927-993 | a row is added, with its address, file name and line number, exactly when it is readable and the next row's address differs; fails exactly when the next address is needed and unreadable |
| `AddrToSourceMaps.AddrToSourceMap.SaveLines` | pc_lookup_dwarf.c:925-999 | the same for a whole table |
| `AddrToSourceMaps.OpenExecutable` | pc_lookup_dwarf.c:819-993 | all tables of an executable, then the patching pass |
| `AddrToSourceMaps.OpenAndFind` | pc_lookup_dwarf.c:819-993 | end to end, over the rows: reading any number of readable nondecreasing line tables and looking an address up returns the file name and line number of the row at or below it with the greatest address over all tables, the last such row of the first such table, and nothing exactly when all rows are above or the address is the top one, if at most two tables start at address 0 (or the exact condition holds) |
| `AddrToSourceMaps.PatchKeepsValid` | pc_lookup_dwarf.c:650-667 | patching leaves a red-black tree of the same nodes |
| `AddrToSourceMaps.ThreeZeros` | pc_lookup_dwarf.c:643 | any red-black tree of three points at address 0 answers 0 with the middle one |
| `AddrToSourceMaps.ThreeZerosHidden` | pc_lookup_dwarf.c:643 | six entries, three of them at address 0, for which the condition holds |
| `AddrToSourceMaps.ZeroStoredThrice` | pc_lookup_dwarf.c:643 | a run of the code in which the lookup of address 0 returns another entry than the first added |
| `FunctionMaps.FunctionMap.Add` | pc_lookup_dwarf.c:729-753 | accepts a function exactly when its range overlaps none, touching ends allowed |
| `FunctionMaps.FunctionMap.Find` | pc_lookup_dwarf.c:759-764 | finds a function whose closed range contains the address exactly when there is one, and the only one when the address is inside it |
| `TsLists.StepKeeps` | mpiP-tslist.c:38-112 | every step of every appender and of the consumer keeps the list's invariant, if the consumer does not hand over a missing link |
| `TsLists.RunKeeps` | mpiP-tslist.c:38-112 | the same for whole runs; no access to a freed element |
| `TsLists.SwapKeeps` | mpiP-tslist.c:44-46 | the tail swap adds the element to the order of the list |
| `TsLists.LinkKeeps` | mpiP-tslist.c:47 | the late link closes exactly the gap its swap left, even if the consumer has since cut the list |
| `TsLists.CasKeeps` | mpiP-tslist.c:81-97 | the compare-and-swap succeeds exactly on the last element; on failure a successor exists |
| `TsLists.StoreKeeps` | mpiP-tslist.c:71 | unlinking the first of several elements |
| `TsLists.FreeKeeps` | mpiP-tslist.c:98-101 | the freed element is no longer reachable by any thread, and its payload is returned |
| `TsLists.AppendedAreGiven` | mpiP-tslist.c:38-48 | with either wait, in every run, the payloads of the elements swapped in are those that the appends were given, in the order of the swaps, read off the actions alone |
| `TsLists.MeantIsFifo` | mpiP-tslist.c:38-102 | with the wait as the comment describes, in every run no freed element is touched, every link is there or about to be made, and the payloads that the appends were given, in tail-swap order, are those that dequeues returned, then what the consumer holds and what is in the list |
| `TsLists.WrittenIsFifoIfCasSucceeds` | mpiP-tslist.c:38-102 | the same for the code as written, in every run in which the compare-and-swap never fails |
| `TsLists.MeantLosesNothing` | mpiP-tslist.c:38-102 | with the wait as the comment describes, whatever point a run has reached, it can go on so that all appends finish and dequeues return every payload ever given to an append, in tail-swap order, and leave the list empty |
| `TsLists.WrittenLosesNothingIfCasSucceeds` | mpiP-tslist.c:38-102 | the same for the code as written after a run in which the compare-and-swap never fails, once no append, dequeue or traversal is in progress |
| `TsLists.AppendsFinish` | mpiP-tslist.c:38-48 | from every state the appends in flight can finish, whatever the consumer is doing |
| `TsLists.ConsumerAdvances` | mpiP-tslist.c:50-112 | then every access of the consumer brings it closer to its return |
| `TsLists.WrittenSpinsForever` | mpiP-tslist.c:92-94 | as written, once the link is there when the loop looks, the dequeue never returns |
| `TsLists.HandoverFaultsIff` | mpiP-tslist.c:92-96 | as written, a freed element can be written exactly when line 96 reads a link that is still missing |
| `TsLists.WrittenCasFailure` | mpiP-tslist.c:83-97 | as written, after a failed compare-and-swap one of these two happens, depending on whether the link is there |
| `TsLists.WrittenRaceFaults` | mpiP-tslist.c:83-97 | a complete run from the empty list in which the code as written writes a freed element |
| `TsLists.WrittenRaceSpins` | mpiP-tslist.c:83-94 | a complete run from the empty list after which the dequeue of the code as written never returns, whatever happens next |
| `TsLists.TraversalVisitsPrefix` | mpiP-tslist.c:104-112 | a traversal during appends visits a prefix of the list in swap order that includes every element linked, with all before it, when it began |
| `TsLists.QuietDequeue` | mpiP-tslist.c:50-102 | with no append in flight a dequeue returns the first element |
| `TsLists.Drains` | mpiP-mt-stats.c:53-60 | repeated dequeues then return every element left, in order, and leave the list empty |
| `HashSpecs.IndexIn` | mpiP-hash.c:130-138 | the first element of a chain that equals the key |
| `HashSpecs.InsertElements` | mpiP-hash.c:71-110 | an insert adds exactly its element |
| `HashSpecs.InsertedElements` | mpiP-hash.c:88-100 | an insert adds its element, or nothing when an equal one is stored |
| `HashSpecs.DeletedElements` | mpiP-hash.c:143-179 | a delete removes exactly the element a search would find |
| `HashSpecs.InsertKeepsPlaced` | mpiP-hash.c:86-107 | each element stays in its own bucket and no two are equal |
| `HashSpecs.DeleteKeepsPlaced` | mpiP-hash.c:156-177 | the same for a delete |
| `HashSpecs.SearchFinds` | mpiP-hash.c:112-141 | a search finds the stored element equal to the key, which is unique |
| `HashSpecs.SearchAfterInsert` | mpiP-hash.c:71-141 | after an insert the keys equal to the new element find it, every other search is as before |
| `HashSpecs.SearchAfterDelete` | mpiP-hash.c:112-179 | after a delete the keys equal to it find nothing, every other search is as before |
| `HashSpecs.ModelInsert` | mpiP-hash.c:71-110 | for a comparator that tells all keys apart the table is a finite map and an insert is a map update |
| `HashSpecs.ModelDelete` | mpiP-hash.c:143-179 | a delete is a map removal |
| `HashSpecs.ModelElements` | mpiP-hash.c:181-206 | gathering lists every value of the map exactly once |
| `HashSpecs.SizesAgree` | mpiP-hash.c:71-231 | over any sequence of inserts, deletes and drains, with an equivalence comparator that agrees with the hash, tables of any two sizes hold the same elements |
| `HashSpecs.RunSearches` | mpiP-hash.c:71-231 | over any such sequence, with such a comparator, a search finds what the operations alone say: the latest element that was inserted for an equal key when none was there and not taken out since |
| `HashSpecs.RunHolds` | mpiP-hash.c:71-231 | and the table holds exactly those elements, each once |
| `HashSpecs.RunIsMap` | mpiP-hash.c:71-231 | over any such sequence, with a comparator that tells all keys apart, the table is the finite map of the operations |
| `HashTables.HashTable.Open` | mpiP-hash.c:26-48 | opens an empty table; a size below 2 aborts |
| `HashTables.HashTable.FindEntry` | mpiP-hash.c:130-138 | the chain walk finds the first equal entry and the one before it |
| `HashTables.HashTable.Search` | mpiP-hash.c:112-141 | the search of the buckets |
| `HashTables.HashTable.InsertEntry` | mpiP-hash.c:86-109 | links an entry into its chain unless an equal element is there |
| `HashTables.HashTable.Insert` | mpiP-hash.c:71-110 | the insert of the buckets, its return code, and the count |
| `HashTables.HashTable.Unlink` | mpiP-hash.c:161-175 | unlinking an entry through the slot that points to it removes it from its chain and changes no other chain |
| `HashTables.HashTable.Delete` | mpiP-hash.c:143-179 | the delete of the buckets, the element returned, and the count |
| `HashTables.HashTable.GatherData` | mpiP-hash.c:181-206 | lists every element once, in table order, within `count` slots |
| `HashTables.HashTable.Drain` | mpiP-hash.c:208-231 | lists every element and leaves the table empty |
| `Keys.ThreadComparator` | mpiP-stats.c:143-163 | the comparator's loop decides equality of operation, rank and every frame |
| `Keys.ThreadHashKey` | mpiP-stats.c:129-141 | the hash key's loop computes a function of exactly those |
| `Keys.ThreadCompare` | mpiP-stats.c:143-163 | zero exactly for equal keys, so equal keys hash alike |
| `Keys.ThreadHashBits` | mpiP-stats.c:129-141 | bit by bit: the exclusive or of the seed, the operation, all frames and the rank |
| `Keys.ToNatBits` | mpiP-hash.c:84-85 | the hash as an unsigned number has the bits of the word |
| `Keys.SrcCompare` | mpiPi.c:35-50 | zero exactly for equal operation, call site and rank |
| `Keys.AggCompare` | mpiPi.c:61-75 | zero exactly for equal operation and call site |
| `Keys.OpCompare` | mpiPi.c:290-303 | zero exactly for equal operations |
| `Keys.CollectorOrders` | mpiPi.c:35-303 | the sign of each result: lexicographic by operation, call site and rank |
| `Keys.CollectorHashBits` | mpiPi.c:26-288 | bit by bit, which fields each hash mixes |
| `Keys.PcCacheCompare` | mpiP-callsites.c:128-143 | zero exactly for equal addresses, compared as signed |
| `Keys.PcCacheOrder` | mpiP-callsites.c:128-150 | the sign of the result, and the bits of the hash |
| `Keys.SrcIdEqual` | mpiP-callsites.c:152-201 | above depth 0 well-formed keys compare equal exactly when all their frames are the same |
| `Keys.StrOrder` | mpiP-callsites.c:173-193 | strings are ordered by the first character that differs, as unsigned characters; a proper prefix is less |
| `Keys.FramesOrder` | mpiP-callsites.c:166-198 | stacks are ordered by the first frame that differs: file name, line, function name, pc |
| `Keys.SrcIdHashAgreesIff` | mpiP-callsites.c:152-227 | on all keys, made by the profiler or not, "comparator zero implies equal hash" holds for this pair exactly when the traceback depth is above 0 |
| `Keys.DepthZeroDisagrees` | mpiP-callsites.c:160-164 | two keys, which the profiler does not make, with the same id whose hashes differ at depth 0 |
| `Keys.SrcIdComparator` | mpiP-callsites.c:152-201 | the loop over the frames, with its name, line and pc comparisons |
| `Keys.SrcIdHashKey` | mpiP-callsites.c:203-227 | the loops over the frames and over the characters of the names |
| `Keys.SrcIdHashBits` | mpiP-callsites.c:203-227 | bit by bit: the exclusive or of the seed and, frame by frame, the characters of both names and the line |
| `Stats.RecordMeaning` | mpiP-callsites.c:58-84 | after any sequence of calls a record holds their number, the sums of their durations, squared durations and sizes, the true minima and maxima, and the number of large messages |
| `Stats.MergeIsAll` | mpiP-callsites.c:88-105 | merging the records of two sequences of calls gives the record of all of them |
| `Stats.MergeIsLawful` | mpiP-callsites.c:88-105 | merging records is commutative and associative and a fresh record adds nothing |
| `Stats.UpdateIsMerge` | mpiP-callsites.c:58-105 | recording a call is merging in the record of that call alone |
| `Stats.SumsAreAdditive` | mpiP-callsites.c:88-103 | merging adds up counts, times and sizes |
| `Stats.CallsTable` | mpiP-stats.c:247-291 | in the table of a sequence of calls every call site has the record of exactly its calls |
| `Tables.AccumulateInMergeAll` | mpiP-mt-stats.c:154-161 | accumulating into any one of several tables accumulates into their merge |
| `Tables.SplitIndependence` | mpiP-mt-stats.c:142-162 | however a trace is split over tables, merging them gives the table of the whole trace |
| `Tables.OrderIndependence` | mpiP-mt-stats.c:142-162 | the table of a trace does not depend on the order of its entries |
| `Tables.AccumulateAllMerges` | mpiP-stats.c:499-514 | adding entries one by one merges their table |
| `Tables.ListingIsTable` | mpiP-stats.c:448-452 | a table is what its gathered entries add up to, in whatever order |
| `Tables.RenamedTable` | mpiPi.c:198-241 | entries under another naming of the keys add up to the renamed table |
| `Tables.SumTableOf` | mpiPi.c:198-250 | conservation: an additive measure of the table is its measure of the entries |
| `Tables.Regroup` | mpiPi.c:322-350 | adding up a table's entries under coarser keys, in whatever order they are listed, gives what the original entries add up to under those keys |
| `StatTables.Record.AddCall` | mpiP-callsites.c:58-84 | every field of a record after one call, from its duration and sizes |
| `StatTables.Record.AddAll` | mpiP-callsites.c:88-105 | every field of a record after a merge |
| `StatTables.StatTable.Locate` | mpiP-stats.c:281-288 | finds a key's record or creates it; no other record changes |
| `StatTables.StatTable.AddCall` | mpiP-stats.c:273-291 | one call accumulates under its key, and nothing else changes |
| `StatTables.StatTable.MergeFrom` | mpiP-stats.c:492-517 | the gather-and-merge loop gives the merge of the two tables and leaves the source as it was |
| `StatTables.StatTable.Insert` | mpiPi.c:198-211 | copies a record under a new key or adds it to the one there: in both cases it accumulates |
| `StatTables.StatTable.Gather` | mpiP-stats.c:448-452 | lists every record once |
| `StatTables.StatTable.Reset` | mpiP-stats.c:454-468 | empties the table |
| `ThreadStats.ThreadStat.CsUpd` | mpiP-stats.c:247-291 | a call is recorded exactly when the thread is not inside a call, the profiler is on, and the rank is watched |
| `ThreadStats.ThreadStat.CsMerge` | mpiP-stats.c:492-517 | merges another thread's table, which stays as it is |
| `ThreadStats.ThreadStat.CsReset` | mpiP-stats.c:454-468 | forgets the calls of a thread |
| `ThreadStats.ThreadStat.Exit` | mpiP-stats.c:232-235 | at the end of a wrapped call: takes back one decrement of the disabling counter |
| `ThreadStats.ThreadStat.Enter` | mpiP-stats.c:237-240 | at the start of a wrapped call: decrements the disabling counter, so that calls inside do not count |
| `MtStats.MtStat.GetTls` | mpiP-mt-stats.c:102-140 | every thread gets one handle, made and appended at its first call; nothing recorded is lost |
| `MtStats.MtStat.KeyDestruct` | mpiP-mt-stats.c:14-22 | a thread that ends records nothing more, and what it recorded still counts |
| `MtStats.MtStat.CsUpd` | mpiP-mt-stats.c:221-232 | a call recorded through any handle accumulates into the total of all handles |
| `MtStats.MtStat.Merge` | mpiP-mt-stats.c:142-162 | the rank's table becomes the merge of the handles that the traversal meets, the total when it meets all; the handles stay as they are |
| `MtStats.MtStat.CsReset` | mpiP-mt-stats.c:256-276 | all handles and the rank's table become empty |
| `MtStats.MtStat.constructor` | mpiP-mt-stats.c:64-83 | nothing recorded, no thread inside a call, and everything new |
| `MtStats.MtStat.Enter` | mpiP-mt-stats.c:312-315 | one level deeper for the thread (for all threads where they share the rank's statistics); nothing recorded changes |
| `MtStats.MtStat.Exit` | mpiP-mt-stats.c:307-310 | one level less |
| `MtStats.Leave` | make-wrappers.py:1119-1201 | the end of a wrapper: the call accumulates exactly if it was an outermost one, the profiler is on, the rank is watched, and its duration is not negative |
| `MtStats.Run` | mpiP-mt-stats.c:102-162 | for any run of calls that nest, overlap and are spread over threads that come and go, with the profiler switched on and off, resets and reports in between, and in either mode: the merged table is the one table of the calls recorded since the last reset, and the counters are the nesting depths |
| `MtStats.DepthMeaning` | make-wrappers.py:1084-1201 | the nesting depth is the number of calls entered less the number left since the thread's latest end, over all threads where they share the statistics |
| `MtStats.OnMeaning` | pcontrol.c:63-101 | the profiler is on as the latest switch says, or as it was at the start |
| `MtStats.RecordedMeaning` | make-wrappers.py:1119-1201 | the recorded calls are exactly those that leave depth 1 with the profiler on, the rank watched and a duration not negative, with no reset after, in their order |
| `MtStats.Profile` | mpiP-mt-stats.c:64-162 | the same from the start of the profiler |
| `MtStats.Happen` | pcontrol.c:24-101 | one event of such a run |
| `SourceIds.PcCache.QueryPc` | mpiP-callsites.c:245-304 | names, line and failure code, case by case on what the lookup finds: "[unknown]" for a missing name, and for the file name "??"; cached or not |
| `SourceIds.FramesOf` | mpiP-callsites.c:323-339 | the frames of a stack up to its first NULL are well-formed |
| `SourceIds.FramesLocated` | mpiP-callsites.c:323-339 | the frames one by one: before the first NULL the stack's pc with the names and the line that the lookup finds for it, empty from it on |
| `SourceIds.SameFrames` | mpiP-callsites.c:309-339 | two stacks have the same frames exactly when they agree up to the first NULL |
| `SourceIds.SourceConsistent` | mpiP-callsites.c:152-227 | above depth 0 the id table's comparator is an equivalence that agrees with its hash |
| `SourceIds.RecordedMakesKey` | mpiP-callsites.c:323-347 | the frames of a recorded stack, which is empty at depth 0, make a well-formed key, with no frames at depth 0 |
| `SourceIds.MadeKeysConsistent` | mpiP-callsites.c:152-227 | on such keys the comparator is an equivalence and equal keys hash alike, at every traceback depth |
| `SourceIds.CallSites.ResolveFrames` | mpiP-callsites.c:323-339 | the loop over the frames makes each of them so |
| `SourceIds.CallSites.AddEntry` | mpiP-callsites.c:347-366 | a new entry takes the next number, or at depth 0 the operation's |
| `SourceIds.CallSites.QuerySrc` | mpiP-callsites.c:309-373 | a known stack keeps its id, a new one gets the next number; at depth 0 the operation's number |
| `SourceIds.CallSites.DrainIds` | pcontrol.c:31-40 | a reset of the callsite data empties the id table and leaves the counter |
| `SourceIds.Happen` | mpiP-callsites.c:309-373 | one record or one reset |
| `SourceIds.Run` | mpiP-callsites.c:309-373 | over any run of records and resets (pcontrol.c:24-40): two ids are equal exactly when no reset is between them and the stacks agree up to the first NULL, new stacks get consecutive numbers in order of first arrival, and ids after a reset are above all earlier ones; at depth 0 the id is the operation's number |
| `SourceIds.NewAgainstOld` | mpiP-callsites.c:344-370 | the id of a new event against every id given before, whatever resets lie between |
| `SiteDatas.SiteData.Append` | mpiPi.c:236-240 | stores a time in the next slot; the slot must exist |
| `SiteDatas.SiteTable.Start` | mpiPi.c:222-227 | a new entry's buffer, with its first time |
| `SiteDatas.SiteTable.Append` | mpiPi.c:236-240 | a further time goes to its own entry's buffer only |
| `CollectorSpecs.Conserved` | mpiPi.c:184-261 | an additive measure of either table is its measure of the records |
| `CollectorSpecs.TaskTimesAddUp` | mpiPi.c:243-247 | the times of the ranks add up to the time of all records |
| `CollectorSpecs.SameEntry` | mpiPi.c:439-465 | the entry of a record is the same in whatever order the records arrive |
| `CollectorSpecs.RenamingsInverse` | mpiPi.c:439-465 | the ids of two orders of arrival are in one-to-one correspondence |
| `CollectorSpecs.BagsAreTimes` | mpiPi.c:222-240 | the times collected per entry, as bags |
| `CollectorSpecs.ArrivalOrder` | mpiPi.c:439-465 | any two orders of arrival give the same tables, up to that renaming, the same times per entry as bags, and the same times per rank |
| `CollectorSpecs.TotalsPermuted` | mpiPi.c:243-258 | the total of any measure of the records does not depend on the order either |
| `CollectorSpecs.RoomForNext` | mpiPi.c:222-240 | if no rank sends two records for an entry, a buffer of one slot per rank has room for the next |
| `CollectorSpecs.FitsBuffersIff` | mpiPi.c:222-240 | a buffer overflows exactly when more records than it has slots belong to its entry |
| `CollectorSpecs.FitsPermuted` | mpiPi.c:222-240 | so that does not depend on the order of arrival |
| `CollectorSpecs.OnceFits` | mpiPi.c:222-240 | then every record finds a free slot when it arrives |
| `CollectorSpecs.MeetIff` | mpiPi.c:184-240 | two records of a rank's table belong to the same entry of the table by call site exactly when they are of one operation and, at a traceback depth above 0, their stacks agree up to a common NULL |
| `CollectorSpecs.MeetingOverflows` | mpiPi.c:222-240 | two records of a rank that meet overflow the buffer in a report of that rank alone |
| `CollectorSpecs.UnreadFrameOverflows` | record_stack.c:76-94 | such a report: a stack whose first frame could not be read and one without frames |
| `CollectorSpecs.WholeStacksApart` | record_stack.c:76-94 | records whose stacks have only NULLs after the first never meet |
| `CollectorSpecs.OncePerRankIff` | mpiPi.c:439-465 | over the tables of all ranks, no entry gets two records of one rank exactly when no two records of a rank's table meet |
| `CollectorSpecs.ReportsFit` | mpiPi.c:439-465 | with stacks that have only NULLs after the first no buffer overflows, whatever the order of the messages |
| `CollectorSpecs.MessagesPermuted` | mpiPi.c:439-465 | messages in another order bring the same records |
| `CollectorSpecs.KnownIdsFit` | mpiP-callsites.c:344-370 | ids are equal exactly when the stacks agree up to the first NULL, or at depth 0 when the operations do |
| `Collectors.Totals.Add` | mpiPi.c:243-258 | every running total and counter after one record |
| `Collectors.TotalsMeaning` | mpiPi.c:243-250 | over any sequence of records the totals are the sums of the records' times, bytes, I/O and RMA |
| `Collectors.TaskTimeMeaning` | mpiPi.c:243-247 | the time of a rank is the sum of the times of its records |
| `Collectors.CountersMeaning` | mpiPi.c:250-258 | the number of records with a time, and the sums of messages and of calls over the records that sent bytes |
| `Collectors.Collector.Identify` | mpiPi.c:189 | the id of a record fits all ids given before |
| `Collectors.Collector.constructor` | mpiPi.c:413-437 | empty tables and totals, with the table of ids it is given, and everything else new |
| `Collectors.Collector.InsertCallsiteRecord` | mpiPi.c:184-261 | after any sequence of records every table, buffer and total is the function of the sequence that it should be |
| `Collectors.Collector.MergeResults` | mpiPi.c:439-465 | the same for the messages of all ranks in any order of arrival, given ranks below the number of ranks and, when times are kept per entry, a free slot for every record |
| `Collectors.TablesMeaning` | mpiPi.c:184-241 | an entry of either table is there exactly when a record has its operation and id (and rank), and is the merge of exactly those records; a call site's times are theirs |
| `CollectorSpecs.SitesByOp` | mpiPi.c:322-350 | adding up the call sites of each operation, in any order, gives the table by operation of all records |
| `CollectorSpecs.OperationEntry` | mpiPi.c:322-350 | and its entries are the merges of exactly the records of each operation |
| `Collectors.Collector.InsertMPIRecords` | mpiPi.c:306-354 | builds that table and leaves the collector as it is |
| `Collectors.Conservation` | mpiPi.c:184-261 | the sums of count, time, bytes, I/O and RMA over the table by rank, the table by call site and the records agree with each other and with the totals; the time is also the sum over the ranks |
| `Collectors.OrderOfArrival` | mpiPi.c:439-465 | two collectors that got the same records in any two orders hold the same tables and times per entry up to a one-to-one renaming of the ids, and the same times per rank, totals and counters |
| `Collectors.OrderOfMessages` | mpiPi.c:439-465 | the same for two collectors that got the same messages in any two orders |
| `Collectors.Report` | mpiPi.c:355-465 | a report from its start, with a table of ids of its own |
| `Collectors.ReportTwice` | mpiPi.c:439-465 | two reports of the same messages in any two orders hold the same results up to a one-to-one renaming of the ids; if no buffer overflows in one order none does in the other |
| `Reports.Send` | mpiPi.c:364-369 | a rank's message has one record for each entry of its table, with its operation, stack and statistics, and nothing else |
| `Reports.AllSentTable` | mpiPi.c:439-465 | the records that all ranks send, under any coarser key, add up to the calls of all ranks under that key |
| `Reports.ReportedCalls` | mpiPi.c:439-465 | each entry of the report, in whatever order the messages came, is the record of exactly the calls of all ranks and threads with its operation and stack (and rank), and each of these has an entry |
| `Reports.ReportRuns` | mpiPi.c:355-465 | the same from start to end: every rank runs with its threads and sends its table, and the collector merges what it gets |
| `Regions.RegionBuffer.Enter` | mpiP-API.c:38-90 | the outcome, the buffer's text, and whether it still has its terminator, for every name and every terminated buffer |
| `Regions.RegionBuffer.Exit` | mpiP-API.c:92-146 | cuts the text at its last dot, empties it, or aborts when it is empty |
| `Regions.RegionBuffer.StrNCpy` | mpiP-API.c:78-79 | what the bounded copy writes, padding included, and what it leaves |
| `Regions.RegionBuffer.StrRChr` | mpiP-API.c:129 | the last dot before the terminator |
| `Regions.PaddedText` | mpiP-API.c:70-79 | the copied text keeps a terminator exactly when it is shorter than the buffer |
| `Regions.LeftEntered` | mpiP-API.c:38-137 | cutting at the last dot takes off exactly the last dot-free name |
| `Regions.ExitUndoesEnterIff` | mpiP-API.c:38-137 | an exit undoes an enter exactly when the name has no dot and there is room for it |
| `Regions.Run` | mpiP-API.c:38-137 | over any run of enters with room and exits of open regions the buffer is always the open names joined by dots, and no call warns or aborts |
| `Histograms.GetBin` | mpiP-stats.c:15-36 | the halving loop finds the first bin whose label ends at or above the value, or the limit |
| `Histograms.BinLabel` | mpiP-stats.c:48-63 | the two ends of a label |
| `Histograms.LabelsMeet` | mpiP-stats.c:48-63 | the labels leave no gaps |
| `Histograms.LabelsAscend` | mpiP-stats.c:48-63 | the labels do not overlap |
| `Histograms.BinIsLabel` | mpiP-stats.c:15-63 | below the limit the bin is the one whose printed interval holds the value; the limit is reached exactly beyond all intervals |
| `Histograms.NegativeFirstBin` | mpiP-stats.c:25 | with a negative first bin the loop runs to the limit |
| `Histograms.SmallBins` | mpiP-stats.c:173-174 | with the first bin ending at 7 every 31-bit value falls in a bin up to 28 |
| `Histograms.UpdateDuration` | mpiP-stats.c:519-541 | the duration goes to the one cell whose two labels hold the communicator size and the message size, and that cell is inside the table |

## Left out

- Report printing and sorting (`report.c`), message output (`diag_msgs.c`), `pc_lookup.c`, stack walking
  (`record_stack.c`), the BFD, DWARF and unwinder libraries: foreign code. Source lookup is a deterministic function
  from an address to what is found; with lookup switched off it is the function that finds nothing. A line table is a
  sequence of rows whose three reads may each fail.
- MPI communication: the messages the collector receives are an arbitrary sequence of one message per rank.
- Memory ordering: the tail swap and the compare-and-swap are atomic and every access is sequentially consistent.
- Allocation failure, freeing of records and strings, floating-point rounding (doubles are reals, `DBL_MAX` as a
  minimum is a separate value), overflow of counters and of the topmost histogram label.
- `minRMA` and `maxRMA`, which merging does not touch, `tmpid`, `hash_id`, cookies, and the reset of
  `cumulativeRMA`, which mpiP-callsites.c:20-36 leaves out but which is zero in every record that is reset here.
- Record lookups for report printing (mpiP-stats.c:470-490).
- Timers, `cum_time`, and merging of the histogram tables, which accumulate again at every merge because only the
  call-site table is reset (mpiP-mt-stats.c:152); the reset at mpiP-stats.c:195 is a statement without effect.
- Collectors.Collector.InsertMPIRecords: takes the aggregate entries in the order they are gathered, without the `qsort` by operation (mpiPi.c:325-326), and does not set the copied record's call-site number (mpiPi.c:341); `CollectorSpecs.SitesByOp` holds for every order.
- Totals across several reports: only the totals of time and size are cleared between reports (mpiPi.c:436-437); the
  theorems start from empty tables and zeroed totals.
- Trace-file output, option parsing, what `pcontrol.c` does to timers, and wrapper generation beyond the way a wrapper
  enters, leaves and records (make-wrappers.py:1082-1201).
- The interning of file names in pc_lookup_dwarf.c:516-566; a file name is its text.
- HashSpecs.ModelInsert: like `ModelDelete`, `ModelElements` and `RunIsMap` it is about comparators that tell all keys apart, for which a finite map from keys is the meaning; `RunSearches` and `RunHolds` are about every equivalence.
- Histograms.UpdateDuration: takes message sizes below 2^31, because C leaves the conversion of larger doubles to `int` (mpiP-stats.c:532) undefined.
- TsLists.MeantIsFifo: is about the wait as commented, not as written; the three lemmas on the code as written say what it does.
- SiteDatas.SiteTable.Start: keeps the buffers in a map beside the aggregate table, keyed like it, instead of a pointer inside each record.
- MtStats.MtStat.Merge: takes the list of handles as a sequence and merges the first ones; which ones a traversal meets while others are appended is `TsLists.TraversalVisitsPrefix`. A thread that records while its table is merged is not part of this model.
- MtStats.Run: takes each event as a whole; the accesses of two threads to the shared list interleave in `TsLists` only.
- Collectors.Collector.MergeResults: where times are kept, takes reports in which no buffer overflows; the C code writes past the end of one that does.
- Regions.RegionBuffer.Enter: needs a terminated buffer, like `Regions.RegionBuffer.Exit`.
- Regions.RegionBuffer.Exit: needs a terminated buffer; after an enter that leaves the buffer without terminator the C code reads past it, which is not part of this model.
