# Verified models of Cilksan and Cilkscale

Cilksan finds determinacy races in Cilk programs; Cilkscale measures their work
and span. Both watch one serial, depth-first execution through compiler hooks
and answer questions about every parallel execution. This project models the
data structures and the algorithms that make those answers right, and proves
that they are. `dafny verify dfyconfig.toml` checks everything.

## The race detector

`StrandDag` unfolds the computation dag of a run from its control events and
knows nothing about bags. `SpBags` is the SP-bags algorithm as a machine on
labels: every strand has the S-bag of a frame, or the P-bag of one of its sync
regions. The invariant `Good` ties the labels to reachability in the dag, and
`SpBagsTheorem` says that in every run, with any number of sync regions, a
strand is in a P-bag exactly when it is logically parallel to the current one.
`SerialStrandIsOrdered` shows that the flags of the driver skip harmless
accesses only, and `FlagIsExact` that they are up exactly while a task is open
or a P-bag waits for a sync.

`RaceDetector` adds the accesses: one reader and one writer remembered for each
location, parallel entries left in place, redundant accesses dropped. With any
number of sync regions it reports nothing but races
(`SyncRegions.ReportsOnlyRaces`). It reports all of them when the regions of a
frame are synced in nested order, that is, when no sync leaves a strand in
another P-bag of its frame that is younger than one it merges
(`ReportsExactlyTheRaces`). One region per frame is always nested
(`OneRegionIsNested`). Nesting is also necessary: `NestedSyncs.ExactIffNested`
says that the report is exact for every placement of accesses in a run if and
only if the run is nested, and `TwoRegionsMissARace` is an example.

The abstract bags become real in three layers. `DisjointSet` holds the facts
about the reference-counted union-find: shape, ranks, counts, who owns which
root. `BagForest` is the class that updates it in place, with path compression
that frees nodes on the way. `Coupling` says how frames, nodes and shadow slots
stand for labels, and `Cilksan` is the tool itself: every hook is proved to make
exactly the step of the abstract machine, so `Execute` inherits the race
theorem. Freed nodes leave the heap, so "never touches a freed node" is part of
every method that verifies. `DSAllocator` is the slab allocator behind the
nodes, on the two 64-bit words of each slab; `WordBits` and `WordMasks` hold the
facts about words.

`ParallelLoop` is the loop frame that serves all iterations of a parallel loop,
with its 16-bit version. An access of the loop frame itself tests earlier
accesses exactly (`ParallelIffOtherIteration`); an access made inside a called
function does so exactly when the earlier access is not one of the body, of an
earlier iteration, since the version last wrapped (`CalleeTestExactly`), and
`CalleeMissesAnIteration` runs into the other case.

## The shadow memory

`ShadowLine`, `LineOps` and `ShadowDictionary` are the compressed byte map:
lines with a grain of their own, refined and coalesced, on pages that exist or
do not. Everything is stated on the byte view `View`. `ShadowScan` and
`ShadowUpdate` are the two iterators, which skip and overwrite runs of equal
entries; `ShadowChecks` the routines for reads and writes, slow and fast. The
addresses they report are those of a scan byte by byte: `NewsIn` for the check
alone, `RunsIn` for the check that updates.
`Occupancy` is the bitmap of bytes a strand has accessed already, on the same
pages, and `ShadowMemory` puts an access together from all of them.

An insertion into a line that is coarser than the access takes the index of the
entry to compare with before it refines the line. `SafeInsertion.SafeExactly`
says for which chunks that is harmless: insertions into lines of a grain keep
all parallel accesses, whatever the line remembers, if and only if the grain
describes the chunk, or the chunk starts in the line's first entry, or it ends
within the entry it starts in. `SafeRegion` is the condition on a region that
follows: it looks only at the two lines in which the region begins and ends.
On a safe region `UpdateRegion` is the byte-by-byte rule. For every region and
grain that is not safe, `UnsafeRegions.UpdateGoesWrong` builds a memory and runs
the update, which overwrites an access in parallel. Small aligned accesses, on
the fast path, are safe whatever the grains are.

`ByteRaces` joins the two halves: a detector that keeps its accesses in the
shadow memory and asks about them by the nodes they were recorded with. As long
as syncs are nested and regions safe, an access that is checked is reported if
and only if one of its bytes races with an earlier access
(`Detector.Access`), and the reported regions together cover all bytes with a
race, each of them holding one (`Detector.Valid`, kept by both methods).

## The reducer table

`OrderedProbing` explains ordered linear probing on a circular buffer,
`HyperTable` is the table in place and refines a map, `ReducerMerge` merges two
tables. An insertion keeps the table ordered if and only if no probe that comes
to its slot has come further than its own, and it carries no entry a full turn
(`InsertionKeepsOrderExactly`). An EMPTY slot is enough for that, and tables of
at least 128 buckets always have one (`LargeTablesKeepAnEmptySlot`). Small
tables need not: `FullTables.LoseAKey` is a sequence of insertions and removals
on a new table after which it holds a key that a probe no longer reaches.

## Cilkscale

`WeightedDag` defines longest paths, `SpanTracking` computes them online,
`ShadowFrames` shows that the hooks do just that: `CilkscaleMeasures` gives
work, span and burdened span for every run, with
span <= work and span <= burdened span <= span + burden * tasks. `ShadowReduce`
is about stolen continuations: `reduce` is associative, cutting a stretch of
hooks anywhere changes nothing after the next sync (`CutsDoNotMatter`), and
neither does the order in which the pieces are reduced (`AnyOrderMeasures`).
`Cilkscale` holds the growing stack and the hooks in place.

## Model

| member | source | states |
|---|---|---|
| StrandDag.StepWellFormed | cilksan/driver.cpp:289-346 | every control event extends the dag by edges from earlier strands only and keeps the frames' strands in range |
| StrandDag.ReachesTransitive | cilksan/driver.cpp:289-346 | reachability in the dag of a run is transitive |
| StrandDag.ReachesStable | cilksan/driver.cpp:289-346 | later events neither order nor unorder two strands that exist |
| SpBags.PastIsReachability | cilksan/cilksan.cpp:165-272 | the set of ancestors carried along with a run is reachability in its dag |
| SpBags.OpenAgrees | cilksan/cilksan.cpp:277-327 | starting a function or task keeps bags and dag in agreement |
| SpBags.ReturnAgrees | cilksan/cilksan.cpp:216-264 | merging a called child's S-bag into the parent's S-bag keeps bags and dag in agreement |
| SpBags.EndTaskAgrees | cilksan/cilksan.cpp:172-214 | merging a task's S-bag and all its P-bags into the parent's P-bag of that sync region does, too |
| SpBags.JoinAgrees | cilksan/cilksan.cpp:365-382 | so does merging one region's P-bag into the S-bag at a sync |
| SpBags.StepIsGood | cilksan/driver.cpp:289-346 | every hook keeps the SP-bags invariant, and is possible in the dag when it is possible in the tool |
| SpBags.BagsDecideParallelism | cilksan/dictionary.h:238-250 | a strand is in a P-bag exactly when it is parallel to the current strand, and in an S-bag exactly when it reaches it |
| SpBags.SpBagsTheorem | cilksan/cilksan.cpp:165-382 | the same at every moment of every run, for any number of sync regions |
| SpBags.StepKeepsFlagInvariant | cilksan/driver.cpp:289-341 | what the flags of the open frames say about spawns and P-bags, kept by every hook |
| SpBags.FlagDownEverywhere | cilksan/cilksan_internal.h:109-120 | when the top flag is down, no open frame has its flag up, is a task or holds a P-bag |
| SpBags.FlagDownSettles | cilksan/driver.cpp:596-611 | when the top flag is down, every strand so far is in an S-bag that no later event turns into a P-bag |
| SpBags.StepKeepsFlagsExact | cilksan/driver.cpp:289-611 | every hook keeps it that a frame's flag is up exactly if it was up on entry, a P-bag of the frame exists, or a task of it runs above |
| SpBags.FlagTellsOutstanding | cilksan/driver.cpp:607-610 | the flag on top is up if and only if some open frame is a task or holds a P-bag |
| SpBags.FlagIsExact | cilksan/driver.cpp:631-635 | the same at every moment of every run |
| SpBags.SerialStrandIsOrdered | cilksan/driver.cpp:627-640 | a strand that runs while the top flag is down is ordered with every strand of the whole run, and all frames are synced then |
| RaceDetector.StepKeepsAnswers | cilksan/cilksan.cpp:165-382 | an older access that the remembered one answers for is answered for after every hook, if a sync is in nested order (pseudotransitivity) |
| RaceDetector.StepKeepsPlaced | cilksan/cilksan.cpp:165-382 | every hook keeps strands in open frames and existing P-bags, and those in P-bags older than the strands of the frames above |
| RaceDetector.OneSuffices | cilksan/simple_shadow_mem.h:1583-1606 | the remembered access is in a P-bag exactly if some access it stands for is |
| RaceDetector.VerdictIsExact | cilksan/cilksan.cpp:676-692 | a check reports exactly when a conflicting earlier access is in a P-bag |
| RaceDetector.RememberKeepsRemembers | cilksan/simple_shadow_mem.h:1589-1605 | replacing accesses in series and leaving parallel ones in place keeps the remembered access representative |
| RaceDetector.SkippedTouchKeepsSound | cilksan/cilksan.cpp:708-713 | dropping an access of a serial execution, or one the strand repeats, loses nothing |
| RaceDetector.ActKeepsInvariant | cilksan/driver.cpp:289-346 | every access and every hook, syncs in nested order, keeps the invariant of the detector, including that its report is exact so far |
| RaceDetector.ReportsExactlyTheRaces | cilksan/cilksan.cpp:676-692 | after every run that syncs in nested order, a location is reported if and only if two parallel accesses to it exist, one of them a write |
| RaceDetector.OneRegionIsNested | cilksan/cilksan.cpp:365-382 | every run with at most one sync region per frame syncs in nested order |
| NestedSyncs.NestedIsExact | cilksan/cilksan.cpp:676-692 | if the control events of a run are nested, the report is exact wherever accesses are placed |
| NestedSyncs.UnnestedMisses | cilksan/simple_shadow_mem.h:1598-1603 | for every run and every next sync out of nested order there is a placement of two reads and a write for which a race is not reported |
| NestedSyncs.ExactIffNested | cilksan/simple_shadow_mem.h:1598-1603 | for every run of control events: the report is exact for all placements of accesses if and only if every sync is in nested order |
| SyncRegions.ReportsOnlyRaces | cilksan/cilksan.cpp:676-692 | after every run, with any number of sync regions in any order, whatever is reported is a race |
| SyncRegions.TwoRegionsMissARace | cilksan/simple_shadow_mem.h:1598-1603 | a run of nine actions with two regions, synced out of nested order, whose race is not reported |
| DisjointSet.RankIsLogarithmic | cilksan/disjointset.h:241-255 | a root of rank r heads a set into which at least 2^r nodes have been merged, so ranks are logarithmic |
| DisjointSet.LinkKeepsStructure | cilksan/disjointset.h:241-255 | linking by rank keeps shape, strictly increasing ranks, reference counts and set sizes |
| DisjointSet.ReparentKeepsStructure | cilksan/disjointset.h:193-215 | pointing a node at its root keeps all of it, with one reference loose on the old parent |
| DisjointSet.RemoveKeepsStructure | cilksan/disjointset.h:328-358 | freeing a node without references keeps all of it, with one reference loose on its parent |
| DisjointSet.CompressionKeepsBags | cilksan/disjointset.h:263-313 | compression leaves the bag of every surviving node and the ownership of roots as they were |
| DisjointSet.PathIsCompressed | cilksan/disjointset.h:288-309 | when the listed nodes point at the root, every surviving node of the path does |
| DisjointSet.NewSBagKeepsValid | cilksan/frame_data.h:85-91 | a new S-bag with its node keeps the forest valid and all nodes in their bags |
| DisjointSet.AbsorbedResolves | cilksan/spbag.h:79-92 | after a union exactly the nodes of the second bag resolve to the first |
| DisjointSet.CombinedThenDeleted | cilksan/cilksan.cpp:193-214 | combining and then deleting a bag moves exactly its nodes |
| DisjointSet.KeptByAnAccess | cilksan/disjointset.h:345-358 | every node without a bag of its own is kept alive by a recorded access in its set |
| BagForest.Forest.constructor | cilksan/disjointset.h:319-321 | the forest starts empty and valid |
| BagForest.Forest.DecRefCount | cilksan/disjointset.h:345-358 | dropping a reference frees exactly nodes nobody refers to, which are of no lower rank, up the parent chain |
| BagForest.Forest.InternalSetParent | cilksan/disjointset.h:193-215 | the node points at the root and its representative stays, the nodes freed have a higher rank than the node, the root survives |
| BagForest.Forest.FindSet | cilksan/disjointset.h:263-313 | returns the root; every node of the path that survives is the root or points at it; keeps every representative, bag and count, never follows a freed node, and walks at most log2 of the nodes ever created |
| BagForest.Forest.CompressPath | cilksan/disjointset.h:304-309 | the walk back points every surviving node of the list at the root, changes no other link, and keeps the structure although nodes of the list's end may be freed |
| BagForest.Forest.LinkRoots | cilksan/disjointset.h:241-255 | the root of higher rank stays, the rank grows on a tie, the two member sets become one |
| BagForest.Forest.NewSBag | cilksan/frame_data.h:85-91 | the new bag owns a new singleton set |
| BagForest.Forest.NewPBag | cilksan/frame_data.h:94-97 | the new bag is empty |
| BagForest.Forest.ResolveBag | cilksan/disjointset.h:373-402 | gives the bag of a node's set and its kind, compresses the node's path, and changes no node's bag |
| BagForest.Forest.Combine | cilksan/spbag.h:79-92 | merges exactly the two member sets and retags all of them, whether the first bag was empty, the second was empty, or both have nodes |
| BagForest.Forest.SetDs | cilksan/spbag.h:64-72 | the bag points at the new node, counts follow, the old node is freed if that was its last reference |
| BagForest.Forest.CombineSets | cilksan/disjointset.h:423-433 | union of two sets under the root of higher rank, and the retagging of that root that S-bags and P-bags do |
| BagForest.Forest.DeleteBag | cilksan/frame_data.h:121-153 | a bag that was merged or holds no access goes away, its node with it if nothing else refers to it; recorded accesses keep their nodes |
| BagForest.Forest.Record | cilksan/dictionary.h:121-151 | a slot of the shadow memory refers to the bag's node, the old node loses that reference, all bags stay |
| BagForest.Forest.MergeInto | cilksan/cilksan.cpp:193-214 | a bag's members join the other bag and the bag is gone |
| Coupling.PushCouples | cilksan/cilksan.cpp:277-327 | pushing a frame with a fresh S-bag keeps slots and frames in step with the labels |
| Coupling.MergeCouples | cilksan/cilksan.cpp:165-272 | merging two bags is the relabelling of the abstract machine |
| Coupling.DiscardCouples | cilksan/cilksan.cpp:186-226 | an S-bag whose used flag is down can be dropped: no recorded access is in it |
| Coupling.RecordCouples | cilksan/frame_data.h:251-258 | recording an access in the frame's S-bag remembers the current strand |
| Cilksan.Tool.constructor | cilksan/driver.cpp:240-256 | the tool starts with one frame and its flag down |
| Cilksan.Tool.StartNewFunction | cilksan/cilksan.cpp:277-327 | one frame more, with a fresh S-bag and null P-bags |
| Cilksan.Tool.MergeSBag | cilksan/cilksan.cpp:186-226 | the child's S-bag goes into the parent's bag if it was used, which marks a parent S-bag as used, and is dropped without touching any other bag otherwise; the labels are renamed either way |
| Cilksan.Tool.MergePBag | cilksan/cilksan.cpp:199-214 | one P-bag of the child goes into the parent's P-bag |
| Cilksan.Tool.ReturnFromDetach | cilksan/cilksan.cpp:172-214 | all bags of a task go into the parent's P-bag, which is created when it is missing |
| Cilksan.Tool.LeaveCilkFunction | cilksan/cilksan.cpp:344-351 | the child's S-bag goes into the parent's S-bag |
| Cilksan.Tool.CompleteSync | cilksan/cilksan.cpp:365-382 | the region's P-bag, if any, goes into the S-bag, which then counts as used |
| Cilksan.Tool.PreviousAccessInParallel | cilksan/dictionary.h:236-250 | the test on the union-find says whether the remembered strand's label is a P-bag |
| Cilksan.Tool.RecordAccess | cilksan/dictionary.h:124-137 | the slot now stands for the current strand |
| Cilksan.Tool.IsLocalSynced | cilksan/cilksan_internal.h:109-120 | for a frame that is not a loop frame: true exactly when no P-bag of the frame exists |
| Cilksan.Tool.FuncEntry | cilksan/driver.cpp:289-310 | makes exactly the step of the abstract machine, for functions with a frame and for those that are skipped |
| Cilksan.Tool.FuncExit | cilksan/driver.cpp:312-343 | makes exactly the step of the abstract machine |
| Cilksan.Tool.Spawn | cilksan/driver.cpp:468-526 | raises the flag, opens the task, leaves nothing occupied: the step of the abstract machine |
| Cilksan.Tool.TaskExit | cilksan/driver.cpp:534-593 | ends the task and starts the continuation with the flag up and nothing occupied: the step of the abstract machine |
| Cilksan.Tool.Sync | cilksan/driver.cpp:596-611 | completes the region: the step of the abstract machine; afterwards the flag is up if and only if some open frame is a task or holds a P-bag, and nothing is occupied |
| Cilksan.Tool.CheckAndUpdate | cilksan/simple_shadow_mem.h:1620-1656 | tells whether the remembered access is parallel, and replaces it exactly if it is not |
| Cilksan.Tool.CheckRace | cilksan/simple_shadow_mem.h:1513-1551 | tells whether the remembered access of the other kind is parallel |
| Cilksan.Tool.ShouldCheck | cilksan/driver.cpp:627-640 | an access is checked if and only if some open frame is a task or holds a P-bag and, on the slow path, the strand has not made it before |
| Cilksan.Tool.Load | cilksan/cilksan.cpp:600-626 | a read has the effect and the report of the abstract rule |
| Cilksan.Tool.Store | cilksan/cilksan.cpp:600-626 | a write has the effect and the report of the abstract rule |
| Cilksan.Execute | cilksan/cilksan.cpp:385-598 | the tool, run from its start on any program, reports only locations with a race, and all of them if the program syncs in nested order |
| DSAllocator.Allocator.constructor | cilksan/disjointset.h:530-535 | one free slab, no slot in use, the lists well linked |
| DSAllocator.Allocator.GetFreeDJSet | cilksan/disjointset.h:475-492 | returns null exactly if both words of the slab are full; otherwise marks exactly one slot that was not in use, the lowest of the slab |
| DSAllocator.Allocator.ReturnDJSet | cilksan/disjointset.h:495-514 | clears exactly that slot's bit in the slab's words |
| DSAllocator.Allocator.GetDJSet | cilksan/disjointset.h:551-576 | the slot handed out is the lowest free one of the slab at the head of the free list and is live now, every other slot is as before; a slab that has become full moves to the head of the full list, and a new slab takes the place of the last free one |
| DSAllocator.Allocator.FreeDJSet | cilksan/disjointset.h:578-613 | exactly that slot is given back, and its slab is at the head of the free list; no other slab changes its place |
| DSAllocator.PushedInFront | cilksan/disjointset.h:567-571 | pushing a slab keeps next and prev links consistent |
| DSAllocator.TakenOut | cilksan/disjointset.h:585-603 | bypassing a slab keeps next and prev links consistent |
| WordBits.MarksLowest | cilksan/disjointset.h:481-486 | or-ing a word with its successor sets exactly the bit at the index of the successor's trailing zeros |
| WordBits.FindsLowest | cilksan/disjointset.h:481-482 | the trailing zeros of a word's successor count the set bits in front of its first clear one |
| WordBits.SetsLowest | cilksan/disjointset.h:483-486 | or-ing the word with its successor sets that bit and no other |
| WordBits.ClearsIndex | cilksan/disjointset.h:506-513 | the mask of a slot clears exactly its bit |
| WordBits.AllSet | cilksan/disjointset.h:466-471 | a word is all ones exactly when every bit is set |
| WordBits.LastIsSet | cilksan/disjointset.h:463-463 | the initial word of a slab has exactly the bit set that stands for no slot |
| ParallelLoop.LoopFrame.Access | cilksan/frame_data.h:251-258 | an access of the body is recorded in the iteration bag with the current version, one of a callee in the callee's S-bag; no other access moves |
| ParallelLoop.LoopFrame.Leave | cilksan/cilksan.cpp:216-226 | a callee's accesses come back in the S-bag of its caller, or of the loop frame, with the version they had |
| ParallelLoop.LoopFrame.IterationEnd | cilksan/cilksan.cpp:475-524 | the S-bag moves to the P-bag, the version grows by one modulo 2^16, and on its wrap the iteration bag moves too |
| ParallelLoop.LoopFrame.ParallelIffOtherIteration | cilksan/frame_data.h:245-249 | for the loop frame, an earlier access tests parallel if and only if it belongs to another iteration, however often the version has wrapped |
| ParallelLoop.LoopFrame.CalleeTestExactly | cilksan/frame_data.h:245-249 | for a callee the test is right exactly when the earlier access is not in the iteration bag with an older version |
| ParallelLoop.CalleeMissesAnIteration | cilksan/frame_data.h:245-249 | a run in which a callee's access does not find the access of an earlier iteration parallel |
| ParallelLoop.LoopFrame.LoopEnd | cilksan/cilksan.cpp:526-552 | all accesses of the loop, and only these, end in the bag of the spawner |
| ParallelLoop.RunLoop | cilksan/cilksan.cpp:448-524 | over any run of the loop, the verdict on each access is whether it was made in another iteration |
| OrderedProbing.ContinueProbeComparesDisplacements | cilksan/hypertable.h:164-167 | the unsigned 32-bit comparison of differences compares cyclic displacements |
| OrderedProbing.StoppedProbeMisses | cilksan/hypertable.h:253-293 | a probe that meets an EMPTY slot or a richer entry proves that the key is nowhere in the table |
| OrderedProbing.TombstoneIsOutranked | cilksan/hypertable.h:385-416 | a tombstone whose run ends in front of an EMPTY slot or an entry that stops the probe may be reused: no probe that comes to it has come further |
| OrderedProbing.InsertionKeepsOrderExactly | cilksan/hypertable.h:352-462 | an insertion, in a table with or without an EMPTY slot, keeps the table ordered if and only if no probe that comes to its slot has come further than its own and no entry is carried a full turn |
| OrderedProbing.FullTurnLosesTheInsertedKey | cilksan/hypertable.h:438-462 | an entry carried back to its home slot stops the probe for the key just inserted |
| OrderedProbing.AnEmptySlotIsEnough | cilksan/hypertable.h:438-462 | with an EMPTY slot the shift always keeps the table ordered |
| OrderedProbing.EndIsOutranked | cilksan/hypertable.h:363-434 | where the probe of an insertion ends, no other probe has come further, if the table has an EMPTY slot |
| OrderedProbing.ShiftingHolds | cilksan/hypertable.h:441-458 | after the shift the buckets hold the old map with the new entry added |
| HyperTable.BucketArrayCreate | cilksan/hypertable.h:195-213 | no valid entry, a graveyard tombstone in every 33rd slot of a hash table and nowhere else, and so many EMPTY slots |
| HyperTable.GrowingLeavesRoom | cilksan/hypertable.h:340-347 | doubling leaves an EMPTY slot for each entry that is moved |
| HyperTable.RebuildingLeavesRoom | cilksan/hypertable.h:348-350 | so does rebuilding at the same size |
| HyperTable.ShrinkingLeavesRoom | cilksan/hypertable.h:505-506 | so does halving an underloaded table |
| HyperTable.LargeTablesKeepAnEmptySlot | cilksan/hypertable.h:171-192 | the load tests leave every table of at least 128 buckets an EMPTY slot |
| HyperTable.Table.ProbeForInsert | cilksan/hypertable.h:363-434 | finds the key if and only if it is in the map; otherwise gives the slot where the probe ends: EMPTY, a tombstone that may be reused, a richer entry, or the start after a full circle |
| HyperTable.Table.Enter | cilksan/hypertable.h:416-458 | the bucket goes into that slot, by replacing a free one or by the shift |
| HyperTable.Table.constructor | cilksan/hypertable.h:301-301 | an empty table of the least capacity |
| HyperTable.Table.FindLinear | cilksan/hypertable.h:242-251 | finds a bucket if and only if the key is in the map |
| HyperTable.Table.FindHash | cilksan/hypertable.h:253-293 | finds a bucket if and only if the key is in the map |
| HyperTable.Table.InsertLinear | cilksan/hypertable.h:319-337 | overwrites the bucket of the key, or appends the bucket behind the last one |
| HyperTable.Table.Find | cilksan/hypertable.h:306-312 | finds a bucket if and only if the key is in the map, and the bucket has the key's value |
| HyperTable.Table.SkipTombstones | cilksan/hypertable.h:386-394 | passes exactly one run of tombstones, and stops after a full circle |
| HyperTable.Table.ShiftUp | cilksan/hypertable.h:441-458 | the entries from the insertion point to the first EMPTY slot or tombstone move up by one, in any table that has a free slot |
| HyperTable.Table.InsertHash | cilksan/hypertable.h:352-462 | one insertion or overwriting in any hash table: the map is updated, the counters follow, and the table stays valid if and only if it stays ordered |
| HyperTable.Table.Insert | cilksan/hypertable.h:316-462 | returns true and updates exactly the key of the map, through linear mode, conversion, growth and rebuilds; a table with room stays valid, any other exactly if its buckets stay ordered |
| HyperTable.Table.Rebuild | cilksan/hypertable.h:216-240 | same map and occupancy in the new capacity, with no rebuild inside the rebuild |
| HyperTable.Table.MoveEntries | cilksan/hypertable.h:228-234 | each entry is moved once, always into a table with an EMPTY slot |
| HyperTable.Table.Remove | cilksan/hypertable.h:466-511 | tells whether the key was there and removes exactly that key |
| HyperTable.Table.RemoveFromLinear | cilksan/hypertable.h:467-489 | tells whether the key was in the small table and removes exactly that key: the last entry fills its place |
| HyperTable.Table.Clear | cilksan/hypertable.h:513-529 | the map is empty and the capacity least; a new array starts a new count |
| FullTables.LoseAKey | cilksan/hypertable.h:316-511 | a run from a new table to one of 8 buckets that holds a key and stops the probe for it |
| ReducerMerge.MergeTables | cilksan/reducers.cpp:197-256 | the table with fewer entries is merged into the other; the result is the union of the keys, each shared key reduced left then right into the left view whichever table is scanned |
| ReducerMerge.MergeTwoHyperTables | cilksan/reducers.cpp:187-256 | the same with missing or empty tables, which give the other table back; every right view of a shared key is freed exactly once and no other view is |
| ReducerMerge.MergeInto | cilksan/reducers.cpp:219-251 | the scan of the source array does this for every entry once |
| ReducerMerge.FindAndMerge | cilksan/reducers.cpp:230-250 | reduces the two views of a shared key in order and keeps the left view |
| ShadowLine.LgGrainsize | cilksan/simple_shadow_mem.h:130-152 | the coarsest grain at which the start of the chunk, and its end if it ends within the line, fall on a boundary |
| ShadowLine.Next | cilksan/simple_shadow_mem.h:103-114 | the next chunk is smaller and has the same end, so scans end |
| ShadowLine.Materialize | cilksan/simple_shadow_mem.h:303-308 | allocating a line changes no byte |
| ShadowLine.Refine | cilksan/simple_shadow_mem.h:310-347 | refining a line changes no byte, and scales its count rightly |
| ShadowLine.ValidsScale | cilksan/simple_shadow_mem.h:338-340 | replication multiplies the number of valid entries |
| ShadowLine.Put | cilksan/dictionary.h:124-133 | writing an access sets node and instruction, and keeps the version if the node was there |
| LineOps.SetLine | cilksan/simple_shadow_mem.h:379-444 | exactly the chunk's bytes of the line are set to the node and the instruction; the version stays if the node was there and the line is not reset; grain and count stay right |
| LineOps.ClearLine | cilksan/simple_shadow_mem.h:521-574 | exactly the chunk's bytes of the line are cleared; the count stays right, and a line that has become empty forgets its grain |
| LineOps.InsertLine | cilksan/simple_shadow_mem.h:449-518 | the bytes of one run are written, node, instruction and version: up to the line's end, or the first entry that is valid and unlike the one it compares with |
| LineOps.FineLineComparesRight | cilksan/simple_shadow_mem.h:477-494 | on a line that describes the access, the entry compared with is the one at the access |
| SafeInsertion.SafeExactly | cilksan/simple_shadow_mem.h:449-518 | for every chunk and grain: insertions keep all parallel accesses, for every content of the line and every test, if and only if the grain describes the chunk, the chunk starts in the first entry, or it ends within its own entry |
| SafeInsertion.SafeRun | cilksan/simple_shadow_mem.h:1195-1230 | a safe insertion overwrites one run of bytes that remember the same or nothing |
| SafeInsertion.PartIsSafe | cilksan/simple_shadow_mem.h:1581-1606 | a region's part of a line that meets the condition on parts is safe for the grain |
| SafeInsertion.PartIsUnsafe | cilksan/simple_shadow_mem.h:1581-1606 | in any other part the insertion at its start, or the one at the line's second entry, is not safe |
| ShadowDictionary.Dictionary.Set | cilksan/simple_shadow_mem.h:1166-1193 | exactly the bytes of the region are written, node, instruction and version, across lines and pages; exactly its pages are allocated |
| ShadowDictionary.Dictionary.Clear | cilksan/simple_shadow_mem.h:1233-1249 | exactly the bytes of the region are cleared, across lines and pages |
| ShadowDictionary.Dictionary.SkipNullPages | cilksan/simple_shadow_mem.h:1274-1287 | only bytes without an access are skipped |
| ShadowDictionary.Dictionary.SkipEmptyLines | cilksan/simple_shadow_mem.h:1289-1311 | only bytes without an access are skipped |
| ShadowScan.QueryIterator.constructor | cilksan/simple_shadow_mem.h:957-973 | starts on a line with an access, with none in front |
| ShadowScan.QueryIterator.NextAccess | cilksan/simple_shadow_mem.h:999-1029 | everything skipped has no access or repeats the previous one, and where it stops another access is |
| ShadowScan.CheckRace | cilksan/simple_shadow_mem.h:1513-1551 | the reports are exactly those of a scan byte by byte that reports each parallel access which differs from the last access before it; there is one if and only if some byte has a parallel access |
| ShadowScan.EveryParallelIsReported | cilksan/simple_shadow_mem.h:1517-1549 | every byte with a parallel access has a report of the same access there or before |
| ShadowScan.ReportsIncrease | cilksan/simple_shadow_mem.h:1517-1549 | the reports go up in address |
| ShadowScan.ReportsDiffer | cilksan/simple_shadow_mem.h:1028-1028 | between two reports of the same access there is another access |
| ShadowUpdate.UpdateIterator.constructor | cilksan/simple_shadow_mem.h:1091-1107 | starts at the region's first byte |
| ShadowUpdate.UpdateIterator.Insert | cilksan/simple_shadow_mem.h:1195-1230 | one stretch of bytes is written, over lines and pages, and ends at an access unlike the first; it is one run of equal accesses if the rest of the region is safe |
| ShadowUpdate.UpdateIterator.NextLocation | cilksan/simple_shadow_mem.h:1134-1163 | passes bytes that remember the same; the rest stays safe |
| ShadowUpdate.UpdateRegion | cilksan/simple_shadow_mem.h:1581-1606 | for a safe region: every byte with no access or one in series gets node and instruction of the new access, and its version unless the node was there; every parallel one stays, no other byte changes |
| UnsafeRegions.UpdateGoesWrong | cilksan/simple_shadow_mem.h:1195-1230 | for every region and grain that is not safe: a memory on which the update overwrites an access in parallel |
| ShadowChecks.CheckRead | cilksan/cilksan.cpp:674-682 | a read updates the readers of a safe region byte by byte; for every region, the reports are those of the scan of the writers |
| ShadowChecks.CheckAndUpdateWrite | cilksan/simple_shadow_mem.h:1618-1656 | for a safe region, checking and updating the writers in one pass does what the two rules say, and reports exactly the first byte of each run of the same parallel access |
| ShadowChecks.RunsAreRight | cilksan/simple_shadow_mem.h:1634-1650 | these reports are of bytes with a parallel access, and there is one if and only if there is such a byte |
| ShadowChecks.EveryRunIsReported | cilksan/simple_shadow_mem.h:1634-1650 | every byte with a parallel access lies in the run of a reported one |
| ShadowChecks.RacesOfWriteAreRight | cilksan/cilksan.cpp:684-692 | every address reported for a write was written or read in parallel, and there is one if and only if some byte was |
| ShadowChecks.CheckWrite | cilksan/cilksan.cpp:684-692 | for a safe region, a write updates the writers and reports the runs of parallel writes, then those of the scan of the readers |
| ShadowChecks.GetLineMustExist | cilksan/simple_shadow_mem.h:927-940 | the line gets the finer of its grain and that of the access; no byte changes |
| ShadowChecks.UpdateEntry | cilksan/simple_shadow_mem.h:1695-1722 | updating the one entry is the byte rule on all bytes of the access, with node, instruction and version |
| ShadowChecks.CheckReadFast | cilksan/simple_shadow_mem.h:1658-1740 | for small aligned accesses the fast path has the effect and exactly the reports of the general rule, whatever the lines' grains |
| ShadowChecks.CheckWriteFast | cilksan/simple_shadow_mem.h:1742-1829 | for small aligned accesses the fast path has the effect and exactly the reports of the general rule, whatever the lines' grains; readers that need a scan are reported first |
| WordMasks.MaskShows | cilksan/simple_shadow_mem.h:655-660 | the mask has exactly the bits of the region that lie in the word |
| WordMasks.MaskSets | cilksan/simple_shadow_mem.h:668-668 | or-ing it in sets exactly those bits |
| WordMasks.FreshShows | cilksan/simple_shadow_mem.h:665-666 | the test for unoccupied bits is right |
| Occupancy.Bits.SetOccupiedOnPage | cilksan/simple_shadow_mem.h:650-675 | marks exactly the region's bytes up to the page's end and tells whether one was free |
| Occupancy.Bits.SetOccupied | cilksan/simple_shadow_mem.h:1315-1334 | marks exactly the region's bytes, is true exactly if one of them was free, and leaves no page of the region absent |
| Occupancy.Bits.ClearOccupied | cilksan/simple_shadow_mem.h:1352-1357 | clearing the words that were noted leaves no byte occupied |
| ShadowMemory.Memory.CheckRacesAndUpdateRead | cilksan/cilksan.cpp:704-721 | a read whose bytes were all read by the strand changes nothing; any other is recorded and checked as above |
| ShadowMemory.Memory.CheckRacesAndUpdateWrite | cilksan/cilksan.cpp:704-721 | the same for a write |
| ShadowMemory.Memory.RecordRead | cilksan/cilksan.cpp:600-626 | a read of any size and alignment, on the fast or the slow path: when it is checked, what it remembers and which addresses it reports |
| ShadowMemory.Memory.RecordWrite | cilksan/cilksan.cpp:600-626 | the same for a write |
| ByteRaces.UpdateStands | cilksan/simple_shadow_mem.h:1581-1606 | the rule for bytes and the rule for locations keep shadow memory and detector in step |
| ByteRaces.MemoryFinds | cilksan/simple_shadow_mem.h:1513-1551 | the shadow memory finds a parallel access in a region if and only if some byte's remembered strand is in a P-bag |
| ByteRaces.RegionRuns | cilksan/cilksan.cpp:704-721 | an access to a region, checked or not, makes the detector's steps for all its bytes |
| ByteRaces.RunsAreJudged | cilksan/cilksan.cpp:676-692 | in every nested run, a byte races with an access of the running strand if and only if its remembered strands say so, and a byte the strand repeats was reported before |
| ByteRaces.RegionReported | cilksan/cilksan.cpp:676-692 | an access keeps it that the reported regions cover all bytes with a race, and each has one |
| ByteRaces.Detector.Control | cilksan/driver.cpp:289-346 | a control event keeps shadow memory, detector and reports in step |
| ByteRaces.Detector.Access | cilksan/cilksan.cpp:600-626 | while syncs are nested and regions safe, an access that is checked is reported if and only if one of its bytes races with an earlier access |
| WeightedDag.NoPathIsLonger | cilkscale/cilkscale.cpp:439-447 | no path through the timed dag is longer than the number computed for its end |
| WeightedDag.SomePathIsAsLong | cilkscale/cilkscale.cpp:439-447 | and some path is as long |
| SpanTracking.StepIsTracked | cilkscale/cilkscale.cpp:226-450 | two numbers per frame, updated at each event, stay the longest paths to the frame's strand and to its unsynced tasks |
| ShadowFrames.HooksMakeTheStep | cilkscale/cilkscale.cpp:226-450 | the hooks called for an event make one step of the accounting |
| ShadowFrames.StepAccounts | cilkscale/cilkscale.cpp:226-450 | one event keeps work, span and burdened span of all open frames right |
| ShadowFrames.MeasuresTheCurrentStrand | cilkscale/cilkscale.cpp:226-450 | at any moment the bottom frame's span and burdened span are the longest paths to the current strand, and its work plus that of the unsynced tasks and the open frames is the work so far |
| ShadowFrames.MeasuresTheWholeRun | cilkscale/cilkscale.cpp:426-447 | when all is synced, they are the work, span and burdened span of the whole dag |
| ShadowFrames.CilkscaleMeasures | cilkscale/cilkscale.cpp:226-450 | for every well-nested program, with span <= work and span <= burdened span <= span + burden * tasks |
| ShadowReduce.ReduceIsAssociative | cilkscale/shadow_stack.h:155-198 | reduce is associative on bottom frames |
| ShadowReduce.IdentityExactly | cilkscale/shadow_stack.h:151-153 | the identity is a left identity for spawner frames, and a right one exactly for frames whose longest child covers the continuation |
| ShadowReduce.OneCut | cilkscale/shadow_stack.h:151-198 | one piece run from the identity and reduced agrees with the serial run at the next sync |
| ShadowReduce.CutsDoNotMatter | cilkscale/shadow_stack.h:151-198 | so does any sequence of pieces reduced from left to right |
| ShadowReduce.AnyOrderIsLeftToRight | cilkscale/shadow_stack.h:155-198 | reducing the pieces in any order gives the frame that reducing them from left to right gives |
| ShadowReduce.AnyOrderMeasures | cilkscale/shadow_stack.h:151-198 | pieces reduced in any order agree with the uncut run at the next sync, and so does any view that a sync cannot tell apart |
| ShadowReduce.FramesBelowStay | cilkscale/shadow_stack.h:112-147 | a stretch of hooks that returns to its frame leaves the frames below alone |
| Cilkscale.ShadowStack.Push | cilkscale/shadow_stack.h:117-140 | one new frame; a full array is doubled and keeps all others |
| Cilkscale.ShadowStack.Pop | cilkscale/shadow_stack.h:142-147 | returns and removes the bottom frame |
| Cilkscale.ReduceStacks | cilkscale/shadow_stack.h:155-198 | the left bottom frame becomes the reduction of the two, other frames stay |
| Cilkscale.Tool.FuncEntry | cilkscale/cilkscale.cpp:227-263 | the hook in place is the hook of the accounting; functions that may not spawn change nothing |
| Cilkscale.Tool.FuncExit | cilkscale/cilkscale.cpp:266-298 | the hook in place is the hook of the accounting |
| Cilkscale.Tool.Detach | cilkscale/cilkscale.cpp:301-316 | the hook in place is the hook of the accounting |
| Cilkscale.Tool.Task | cilkscale/cilkscale.cpp:319-338 | the hook in place is the hook of the accounting |
| Cilkscale.Tool.TaskExit | cilkscale/cilkscale.cpp:341-369 | the hook in place is the hook of the accounting |
| Cilkscale.Tool.DetachContinue | cilkscale/cilkscale.cpp:372-406 | charges the burden, or does what a sync does when unwinding |
| Cilkscale.Tool.BeforeSync | cilkscale/cilkscale.cpp:409-423 | the hook in place is the hook of the accounting |
| Cilkscale.Tool.AfterSync | cilkscale/cilkscale.cpp:426-450 | the hook in place is the hook of the accounting |
| Cilkscale.Measure | cilkscale/cilkscale.cpp:226-450 | the tool run on any program returns its total work, its longest path and its longest burdened path |

## Left out

- RaceDetector.ReportsExactlyTheRaces: for runs that sync in nested order; with others the statement is false, and NestedSyncs.ExactIffNested gives the exact condition over all placements of accesses. For a run out of nested order with its accesses fixed, only SyncRegions.ReportsOnlyRaces is claimed.
- RaceDetector.ReportsExactlyTheRaces: parallel loops are not events of its runs; the loop frame is treated on its own, for bodies without spawn or sync.
- ParallelLoop.LoopFrame.Access: bags are sets of accesses and combining them is union, which is what BagForest.Forest.Combine guarantees.
- Cilksan.Tool.FuncExit: a called function has no P-bag when it returns, as the compiler ensures and cilksan/driver.cpp:332-335 assumes; the merge of leftover P-bags, which does not test for null, is not modelled.
- Cilksan.Tool.LeaveCilkFunction: the same as Cilksan.Tool.FuncExit, whose work it does.
- Cilksan.Tool.IsLocalSynced: not for loop frames, for which the source answers false; they are the subject of ParallelLoop, whose bodies do not sync.
- Cilksan.Tool.TaskExit: the unwind destination of a detach, with its implicit sync, is not an event of the model.
- Cilksan.Tool.MergePBag: a child's P-bag is deleted right after it is merged, not at the end of the function; nothing reads it in between.
- BagForest.Forest.SetDs: the pointer is assigned before the old node's reference is dropped, where the source does it after; DecRefCount does not read the pointer.
- BagForest.Forest.DecRefCount: the node leaves the heap before its parent's count is dropped; the source runs the destructor first and releases the memory after.
- Cilksan.Tool.Load: one location at a time; accesses to regions are ByteRaces.Detector.Access, where the test for parallel accesses is given and has the property that Cilksan.Tool.PreviousAccessInParallel proves of the union-find. The two are not one class.
- ShadowUpdate.UpdateRegion: the byte rule for safe regions; UnsafeRegions.UpdateGoesWrong shows for each other region and grain that some memory breaks it, not that every memory does, because equal entries can hide the error.
- ShadowDictionary.Dictionary.Set: lines are values put back into a map and pages a set, not pointers; addresses are unbounded and regions do not start at null.
- ShadowUpdate.UpdateIterator.NextLocation: the caller has allocated all pages of the region, as cilksan/cilksan.cpp:614 and cilksan/cilksan.cpp:712 do through Occupancy.Bits.SetOccupied, so the early return on an absent page does not arise.
- Occupancy.Bits.SetOccupied: the word map stands for the arrays of the pages; a shift by several places is a repeated shift by one (WordMasks.ShiftOneMore).
- HyperTable.Table.Insert: the capacity stays below 2^26 before doubling, so that the 32-bit load tests do not overflow; what later operations do on a table that has lost its order is not modelled.
- HyperTable.Table.InsertHash: the hash is any function of the key, reduced modulo the capacity.
- HyperTable.Table.Find: keys are valid, neither the EMPTY nor the deleted key.
- ReducerMerge.MergeTwoHyperTables: reduce functions and frees are recorded, not executed; both tables have room to insert, as every table of this interface has that has 128 buckets or more, or no tombstones that removals left; for the others FullTables.LoseAKey shows that an insertion can lose a key. The deletion of the source table is not modelled.
- ReducerMerge.MergeTables: needs the same room as ReducerMerge.MergeTwoHyperTables.
- ReducerMerge.MergeInto: needs the same room in the table merged into.
- DSAllocator.Allocator.GetDJSet: slabs live in a map by number and nodes take 32 bytes, so a slab has 127 slots; the destructor is not modelled.
- Cilkscale.Measure: several sync regions per frame only as far as each sync waits for all outstanding tasks of its frame, since the tool has one number per frame for them; tasks sync before they end (asserted at cilkscale/cilkscale.cpp:358), times are naturals supplied with the events; timers, probes and output are not modelled.
- ShadowReduce.CutsDoNotMatter: scheduling is the choice of the cuts and of the order of reductions; the runtime that steals is not part of this model.
- Lock sets, locked accesses and lockers: their set operations are not exact, and deduplication ignores them.
- The reduction of local views at syncs (cilksan/reducers.cpp:147-184): calls into functions of the program.
- Allocation and free hooks, libc and pthread interposers: long lists of thin wrappers.
- Report contents, call stacks, symbolisation, plotting and debugger scripts.
- Detection of stack switches, statistics, free lists of bags and of shadow lines.
- The CSI runtime tables and cilkiaf: table plumbing and an external library.
