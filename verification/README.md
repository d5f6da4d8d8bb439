# The collector, in Dafny

A model of the Boehm-Demers-Weiser garbage collector (version 8.3, with the Samsung changes) and
proofs about it.  Every module stands for one part of the collector:

| file | what it models |
|---|---|
| `MarkHeap.dfy`, `Marker.dfy` | objects, blocks and roots; the six-state marker with its bounded mark stack, overflow recovery, dirty pages, and a mutator that stores between any two loads and allocates and frees between steps |
| `ParallelMark.dfy`, `ParallelEnd.dfy`, `ParallelCycle.dfy` | the parallel marker: stealing, giving back, and agreeing that no work is left, which is always possible; its cycles within a collection |
| `FreeLists.dfy`, `HeapTiles.dfy`, `HeapUse.dfy`, `BlackList.dfy`, `BlockSearch.dfy`, `BlockHeap.dfy` | the heap-block allocator |
| `HeaderIndex.dfy`, `BlockIndex.dfy` | the two-level header index with forwarding counts, the header cache, `GC_base`; the index kept in step with the allocator |
| `ChainTable.dfy`, `Finalize.dfy` | weak-link and finalizer tables, and finalization |
| `StopWorld.dfy` | the signal handshake that stops the world |
| `Exclusions.dfy`, `RangeScan.dfy`, `SizeMap.dfy` | root exclusions, the byte-level scan of ranges and bitmaps, size classes |

Code that changes state is a class whose methods change its fields, with an invariant and an exact
account of the new state; concurrent code is a state machine in which each shared access, or each
section under a lock, is one step.  Larger proofs are about values: snapshots of the fields and
small lemmas about them.

What is assumed about parts that are not modelled: a page is one heap block; reading the dirty bits
takes a snapshot of the pages written since the last time and clears them, and a store sets the bit
of its page; block headers and index nodes can always be allocated; atomic accesses happen in one
order.  The stop function, the growth of the mark stack and the policy that limits splitting are
left open.

## What the proofs found

- *Identical signals.*  `GC_suspend_all` passes over a thread whose last stop count is the current
  one.  Suppose that the suspend and the restart signal are the same, and that a signal of the
  client, not blocked in the handler, wakes a waiting thread early.  Then its restart signal can be
  taken for a new suspend signal; the thread acknowledges, is passed over, and its acknowledgement
  is taken for that of another thread.  `StopWorld.EarlyUnsafe` gives the interleaving, and
  `StopWorld.SafeExactlyIf` the exact condition: without one of the two premises the handshake is
  safe in every run.
- *Unordered finalizers.*  Without Java finalization, what an object with an unordered finalizer
  points to is not kept for it (`Finalization.PlainDrops`, `Finalization.PlainClosed`).
- *Waiting finalizers.*  An entry to be finalized when unreachable that was queued by one collection
  and not yet invoked is withdrawn by the next one, because the queue makes its object reachable
  (`Finalization.Withdrawn`).  If the object was registered again meanwhile, its key gets into the
  table twice (`Finalization.RegisteredAgain`).  With Java finalization on, the table stays a map
  exactly if no object that waits is registered elsewhere (`Finalization.RevivedIsMap`,
  `Finalization.BackApartIff`, and the contract of `Finalize`); no entry is lost either way.
- *Ranges.*  The backward scan counts positions from the end of a range, so a range whose length is
  no multiple of the alignment is scanned at other positions (`RangeScans.EndsAgree`).
- *Exclusions.*  The overlap check that a comment calls incomplete is complete, given a sorted table
  (`Exclusions.OverlapIs`).
- *Selected roots.*  `GC_push_selected` subtracts stack pointers as unsigned words, so an empty mark
  stack counts as nearly full and the whole range is pushed; the model follows the code.

## Model

| member | source | states |
|---|---|---|
| `Marking.Marker.PushEntry` | mark.c:1628-1640 | A push on a full mark stack throws away the topmost entries, keeps the new one, and makes the mark state invalid; otherwise it only adds the entry. |
| `Marking.GoodPush` | mark.c:682-703 | The marking invariant survives a push, with or without overflow and whatever entries are discarded. |
| `Marking.GoodMark` | include/private/gc_pmark.h:238-344 | Setting a mark bit and pushing the object's words keeps the marking invariant. |
| `Marking.Marker.PushContents` | include/private/gc_pmark.h:144-150 | Exactly the target becomes marked; nothing else changes if it was marked; the invariant is kept and nothing scheduled is lost unless marking became invalid. |
| `Marking.GoodStore` | include/private/gc_pmark.h:431-438 | Any store of the running mutator keeps the marking invariant, because it dirties its page (invariant I of the header file). |
| `Marking.Marker.Store` | include/private/gc_pmark.h:431-438 | One store between two loads of the marker: only that word changes, it holds the target if that is an object, its page gets dirty unless it is in a stack, and the invariant is kept. |
| `Marking.AllocatedGood` | allchblk.c:1324-1333 | An object allocated while marking is in progress, new block or not, keeps the marking invariant: its pages count as dirty. |
| `Marking.Marker.Allocate` | allchblk.c:1305-1343 | Allocation between mark steps succeeds exactly if the place is free; then the object is in its block with cleared words, its pages count as dirty, it is marked exactly if uncollectable, nothing else changes, and the invariant is kept. |
| `MarkHeap.CanPlaceIs` | allchblk.c:1305-1343 | The place is free: a new address in a block of the same kind and size that is not full, or in a new block that meets no other; away from roots and stacks; pointer-free kinds have no words to scan. |
| `Marking.FreedGood` | malloc.c:821-842 | A large object may be freed while it is on the mark stack: without the entries that start in it, all that others need is still scheduled. |
| `Marking.Marker.DropEntries` | malloc.c:829-841 | The compaction in place takes exactly the entries that start in the object off the stack and keeps all others, as often as they were there. |
| `Marking.Marker.Free` | malloc.c:817-843 | Explicit freeing of a large object between mark steps: object, block, mark, its stack entries and the pointers to it are gone, nothing else is, and the invariant is kept. |
| `Marking.Marker.FindDeferred` | mark.c:1034-1071 | The backward search for a deferred pointer stops at the last pointer of the range or at its start, and everything behind it needs no marking any more, although the mutator runs. |
| `Marking.Marker.ScanWords` | mark.c:1005-1116 | Scanning a range that was taken off the stack marks all its targets: the invariant holds without the range. |
| `Marking.Marker.MarkTop` | mark.c:834-892 | Taking off an entry, splitting long ranges, keeps the invariant, and without a new mark the work on the stack gets strictly less. |
| `Marking.Marker.MarkFrom` | mark.c:705-1121 | A whole call keeps the invariant under any interleaved stores; without a new mark the work on a nonempty stack gets strictly less. |
| `Marking.Marker.PushMarked` | mark.c:2246-2313 | All marked objects of the block are scheduled unless marking became invalid, and with room for a block's objects there is no overflow. |
| `Marking.Marker.PushNextMarked` | mark.c:2385-2403 | After the next block the scan pointer may move past it without losing anything; it moves strictly forward. |
| `Marking.Marker.PushNextMarkedDirty` | mark.c:2407-2449 | The same for the next block that lies on a page of the dirty snapshot. |
| `Marking.Marker.PushNextMarkedUncollectable` | mark.c:2457-2488 | The same for the next uncollectable block. |
| `Marking.Marker.PushSelected` | mark.c:1663-1706 | All words of the range on pages of the dirty snapshot are scheduled, by parts or all at once, unless marking became invalid. |
| `Marking.Marker.PushAllEager` | mark.c:1946-1991 | Word by word, everything the range points to gets marked; the range itself need not be scheduled. |
| `Marking.Marker.PushAllStack` | mark.c:1996-2016 | A stack range is scheduled whole or scanned eagerly; the invariant holds without it afterwards. |
| `Marking.Marker.PushStaticRoots` | mark_rts.c:987-1092 | After the static roots were pushed, whole or only their dirty pages, the invariant no longer depends on them; with room there is no overflow. |
| `Marking.Marker.PushRootsAndAdvance` | mark.c:397-408 | The state becomes MS_ROOTS_PUSHED, or stays invalid, and the invariant of the new state holds. |
| `Marking.Marker.GrowStack` | mark.c:1546-1594 | The emptied stack has its old capacity or twice that; failing to grow is silent. |
| `Marking.InitiateGood` | mark.c:355-379 | Starting a collection from the dirty snapshot, or from cleared marks, establishes the invariant of the new state. |
| `Marking.Marker.InitiateGc` | mark.c:355-379 | From MS_NONE the dirty set becomes the snapshot; from MS_INVALID marking goes on, also with marked objects and entries on the stack; the invariant of the new state holds. |
| `Marking.Marker.ClearMarks` | mark.c:343-353 | An object is marked afterwards exactly if it was marked and its block is of one of the two uncollectable kinds; the stack is empty and the state invalid. |
| `Marking.RescanLess` | mark.c:536-564 | Every step of overflow recovery marks a new object, or reaches a later phase, or a later block. |
| `Marking.MarkFromLess` | mark.c:1628-1640 | A step that marks from the stack decreases the measure over unmarked objects, phase, scan position and stack. |
| `Marking.Marker.StepInvalid` | mark.c:536-564 | Overflow recovery keeps the invariant and makes progress, given room for one block's objects and the root entries. |
| `Marking.Marker.MarkSome` | mark.c:440-570 | The six-state machine: every call keeps the invariant under interleaved stores, returns TRUE exactly in MS_NONE, and otherwise decreases a lexicographic measure. |
| `Marking.FinishedMarksAll` | mark.c:440-570 | In MS_NONE with the world stopped and nothing dirty, every object reachable from the roots and from marked objects is marked. |
| `Marking.Marker.StoppedMark` | alloc.c:984-1091 | Without a stop function it terminates; on success everything reachable is marked, and nothing outside a given closed set. |
| `Marking.Marker.TryToCollect` | alloc.c:694-798 | A full collection that is not abandoned ends, and then an object is marked exactly if a path of pointers leads to it from a root or from an uncollectable object that was marked before, however often the stack overflowed. |
| `Marking.Marker.MarkALittle` | alloc.c:861-876 | The steps that the deficit leaves are made while the mutator runs; each makes progress; with a deficit that is too large nothing is done. |
| `Marking.Marker.CollectALittle` | alloc.c:853-908 | Any call keeps the invariant, whatever the mutator stores; one that ends the collection has marked everything reachable; every other one, given room on the mark stack, uses up an attempt, or makes progress in marking, or lowers the deficit. |
| `Marking.Marker.FinishCollection` | alloc.c:709-720 | Given room on the mark stack, calling it until no collection is in progress ends, even if the mutator goes on storing, and then everything reachable is marked. |
| `ParallelMarking.TakeKeeps` | mark.c:1220-1256 | Stealing an entry by load and later clear loses nothing, even if two helpers get it. |
| `ParallelMarking.CompareKeeps` | mark.c:1363-1392 | Advancing GC_first_nonempty keeps every slot below it empty. |
| `ParallelMarking.DepositKeeps` | mark.c:1259-1289 | Copying a local stack back loses no entry, unless there is no room for them. |
| `ParallelMarking.StepReturns` | mark.c:1259-1289 | If there is room, the returned entries are on top of the shared stack, all of them and in their order, the helper keeps the rest, and marking stays valid. |
| `ParallelMarking.StepInvalid` | mark.c:1270-1286 | A step makes marking invalid exactly if it pushes on a full local stack, or returns entries for which the shared stack has no room. |
| `ParallelMarking.RunInvalid` | mark.c:1363-1472 | Marking is invalid after a run exactly if some step of it met one of the two limits. |
| `ParallelMarking.ScanKeeps` | mark.c:1316-1330 | Marking races and local overflow lose no work unless marking becomes invalid. |
| `ParallelMarking.TailKeeps` | mark.c:1320-1330 | Giving back a local stack that is half full loses no work. |
| `ParallelMarking.GivingKeeps` | mark.c:1331-1349 | Returning the lower half of a local stack loses no work, also if the answer to the locked test for inactive helpers is out of date by then. |
| `ParallelMarking.IdleMeansNoWork` | mark.c:1412-1446 | If no helper is active and the shared stack is empty, there is no work anywhere. |
| `ParallelMarking.WaitingKeeps` | mark.c:1412-1446 | A helper leaves only when no work exists anywhere. |
| `ParallelMarking.JoinKeeps` | mark.c:1508-1538 | A helper may join at any time while help is wanted. |
| `ParallelMarking.RunKeeps` | mark.c:1363-1472 | In every interleaving: slots below GC_first_nonempty are empty, the counters are exact, and each pointer to an unmarked object is on the shared stack or held by an active helper, unless marking is invalid. |
| `ParallelMarking.ParallelMarksAll` | mark.c:1478-1506 | When a parallel cycle is over, everything reachable is marked or MS_INVALID has been raised. |
| `ParallelEnds.NextMove` | mark.c:1363-1446 | In every state in which the cycle is not over, some helper has a step that decreases a measure over helpers, slots, unmarked objects and work. |
| `ParallelEnds.CanFinish` | mark.c:1478-1506 | Whatever the helpers have done so far, the cycle can be completed: they can agree that no work is left, and all leave. |
| `ParallelCycles.RunIn` | mark.c:1363-1472 | In every interleaving, helpers mark and hold nothing outside a closed set that contains what they started from. |
| `ParallelCycles.StartInit` | mark.c:1478-1494 | A marker that has pushed the roots, with the world stopped and nothing dirty, hands over a state from which a parallel cycle may start. |
| `ParallelCycles.StartIs` | mark.c:1478-1494 | That state has the entries of the mark stack in their order, its capacity, and all threads idle. |
| `ParallelCycles.EndGood` | mark.c:500-513 | What a finished cycle leaves satisfies the invariant of MS_NONE, or of MS_INVALID if that was raised. |
| `ParallelCycles.ParallelExact` | mark.c:1478-1506 | A cycle in which MS_INVALID was not raised has marked exactly what is reachable from the roots and from the objects marked before. |
| `ParallelCycles.StepParallel` | mark.c:500-513 | MS_ROOTS_PUSHED with parallel markers, for any schedule that ends: the invariant of the marker is kept; it ends in MS_INVALID exactly if some step met a limit, and in MS_NONE with exact marks otherwise. |
| `FreeLists.FlIndexMonotone` | allchblk.c:113-122 | Bigger blocks are on no earlier list, and lists below UNIQUE_THRESHOLD hold a single size. |
| `FreeLists.FlIndexClasses` | allchblk.c:113-122 | Which sizes share a list: none below 32, those from 32 to 39, then each eight from a multiple of eight up to 255, then all others. |
| `FreeLists.UnlinkOk` | allchblk.c:436-458 | Unlinking a block leaves every doubly linked list intact and drops exactly that block. |
| `FreeLists.PushOk` | allchblk.c:511-544 | Pushing an unlisted block leaves every list intact and adds exactly that block. |
| `FreeLists.ReplaceOk` | allchblk.c:895-915 | Putting one block in the place of another leaves every list intact. |
| `HeapTiles.FlipRuns` | allchblk.c:561-603 | Mapping or unmapping one block changes the number of maximal unmapped runs by exactly the delta that the code computes. |
| `HeapTiles.GeoCut` | allchblk.c:895-925 | Cutting a mapped block keeps the tiling, the mapping state and the number of unmapped runs. |
| `HeapTiles.GeoJoin` | allchblk.c:1407-1422 | Joining two free neighbours in the same mapping state does so too. |
| `BlackList.IsBlackListed` | blacklst.c:221-256 | The word-skipping scan finds exactly the first stack-black-listed block, or reports that the run may be used, exactly if it may. |
| `BlackList.HashSame` | include/private/gc_priv.h:1202 | Two blocks share a bit exactly if they are a multiple of the table size apart. |
| `BlackList.FindNonBl` | allchblk.c:1055-1078 | The first aligned place that is not black-listed over the effective size, and none exactly if there is none. |
| `BlockSearch.FitsBetter` | allchblk.c:1027-1053 | The answer is yes exactly if the successor is smaller and has room at its first aligned place, not black-listed. |
| `BlockSearch.Consider` | allchblk.c:1165-1262 | Exactly when a block is passed over; a chosen place is the first usable aligned one; a block that would do, and need not be mapped and split, is passed over only for a successor that will. |
| `BlockHeaps.BlockHeap.constructor` | allchblk.c:61-90 | Empty lists and counters satisfy the invariant for the empty heap. |
| `BlockHeaps.BlockHeap.RemoveFromFlAt` | allchblk.c:436-458 | The block leaves its list, the free-byte counter follows, and the rest of the invariant stays. |
| `BlockHeaps.BlockHeap.AddToFl` | allchblk.c:511-544 | The block gets on the list of its size, flagged free, and the counter follows. |
| `BlockHeaps.BlockHeap.RunsDelta` | allchblk.c:561-603 | The computed delta is the change of the number of unmapped runs. |
| `BlockHeaps.BlockHeap.FlipMapping` | allchblk.c:644-668 | Mapping or unmapping a whole free block keeps flag, memory and run counter in step. |
| `BlockHeaps.BlockHeap.FreeBlock` | allchblk.c:1368-1452 | Freeing keeps the heap invariant and coalesces with both neighbours as the code decides; in a heap where nothing is unmapped no two free blocks become adjacent. |
| `BlockHeaps.FreedFree` | allchblk.c:1368-1452 | Freeing a block makes exactly its units free and leaves all other blocks in use alone, whatever is merged. |
| `BlockHeaps.FreedCoalesced` | allchblk.c:1403-1443 | Below the merge limit, freeing leaves no two adjacent free blocks that are both mapped. |
| `BlockHeaps.BlockHeap.SplitBlock` | allchblk.c:895-925 | The back part takes the place of the block on its list, the front goes to the list of its size; tiling and counters hold. |
| `BlockHeaps.SplitOk` | allchblk.c:895-925 | List membership, size classes and free-byte counters after a split, with only the back part possibly on a wrong list. |
| `BlockHeaps.BlockHeap.Take` | allchblk.c:850-881 | The first units are taken into use, the rest gets on its list, and the counters drop by what was taken, also from a wrong list. |
| `BlockHeaps.BlockHeap.Carve` | allchblk.c:1267-1340 | Exactly the requested units of one free block stop being free; blocks in use stay as they are; the invariant holds, and a heap without adjacent free blocks stays so. |
| `BlockHeaps.BlockHeap.DropInChunks` | allchblk.c:1085-1106 | A dropped block becomes one-unit blocks in use; the lists lose exactly it; free plus dropped memory is conserved. |
| `BlockHeaps.BlockHeap.AllocNth` | allchblk.c:1148-1343 | A result is an aligned, usable place inside one free block of this list; without a result no block left on the list would have done, black list included, unless one was passed over so as not to map and split it; blocks of other lists stay as they are. |
| `BlockHeaps.BlockHeap.AllocFromFreeLists` | allchblk.c:935-979 | A block of exactly the right size is preferred, then the smallest list with a suitable block; for every split limit and mode, failure means that no free block of the lists up to the limit would have done, except on a list where one was spared so as not to map and split it; memory is conserved. |
| `BlockHeaps.BlockHeap.MergeNext` | allchblk.c:716-747 | Merging two free neighbours of any mapping state keeps the invariant and the set of free units. |
| `BlockHeaps.BlockHeap.MergeUnmapped` | allchblk.c:672-754 | It terminates after a sequence of merges of two neighbours, in each of which the larger one decides whether the result is mapped; the set of free units is kept, and afterwards no free block can be merged with its successor; below the merge limit none has a free successor. |
| `BlockHeaps.BlockHeap.MergeForAlloc` | allchblk.c:763-838 | It succeeds by making one free block, big enough, of one chain of free blocks that was not yet big enough without its last one, mapped exactly if all of them were; if it gives up, no chain is long enough, and nothing changed. |
| `BlockHeaps.BlockHeap.AllocBlock` | allchblk.c:981-1009 | Ignoring the black list, a request succeeds exactly if the heap has an aligned free stretch that is long enough, however it is cut into blocks; with it, for every split limit and mode, failure says of the final blocks what the search says. |
| `BlockHeaps.NoRoom` | allchblk.c:981-1009 | If no free block is big enough and no chain of free blocks is, there is no aligned free stretch for the request anywhere. |
| `BlockHeaps.BlockHeap.UnmapOld` | allchblk.c:621-670 | Only idle free blocks are unmapped, in the order of the lists, and all of them unless the next one would exceed the limit of unmapped runs, which is kept. |
| `BlockHeaps.BlockHeap.GrowHeap` | alloc.c:1641-1731 | New memory, without block numbers 0 and 1, becomes free, coalesced with what is there; the invariant holds. |
| `HeaderIndexes.HeaderIndex.GetIndex` | headers.c:217-268 | A bottom index exists afterwards; hash chains and the ascending list stay right; no lookup changes. |
| `HeaderIndexes.HeaderIndex.InstallHeader` | headers.c:270-291 | The block becomes known to the index and the cache holds nothing stale. |
| `HeaderIndexes.HeaderIndex.InstallCounts` | headers.c:293-317 | Every number inside the block gets its distance from the start, capped at the largest count, and no other lookup changes. |
| `HeaderIndexes.HeaderIndex.RemoveHeader` | headers.c:319-329 | The block disappears from the index and the cache. |
| `HeaderIndexes.HeaderIndex.RemoveCounts` | headers.c:331-352 | All counts of the block are gone, also if there were none. |
| `HeaderIndexes.HeaderIndex.SetFields` | allchblk.c:1368-1404 | A block that becomes free leaves the header cache. |
| `HeaderIndexes.HeaderIndex.FindStart` | include/private/gc_priv.h:4478-4489 | Following the counts ends at the start of the block that owns the number. |
| `HeaderIndexes.HeaderIndex.NextBlock` | headers.c:381-415 | The nearest block at or above, free ones counted or not; none exactly if there is none. |
| `HeaderIndexes.HeaderIndex.PrevBlock` | headers.c:417-449 | The nearest block that starts at or below; none exactly if there is none. |
| `HeaderIndexes.HeaderIndex.BlockEndingAt` | allchblk.c:471-489 | The block that ends just there; none exactly if there is none. |
| `HeaderIndexes.HeaderIndex.ApplyToAllBlocks` | headers.c:357-379 | Every block in use is visited exactly once, and nothing else. |
| `HeaderIndexes.HeaderIndex.CacheMiss` | headers.c:46-95 | The miss path finds the header that the blocks alone determine, and only then fills the cache. |
| `HeaderIndexes.HeaderIndex.Lookup` | include/private/gc_hdrs.h:150-161 | With the cache in any state that installs, removals, frees and lookups lead to, the answer is that of the blocks alone, never a free block. |
| `HeaderIndexes.ResolvedIff` | headers.c:46-95 | What the blocks determine: the block that starts there, if in use; or, with interior pointers on, the large block in use that the address lies in, unless it is off-page or the address is behind the object. |
| `HeaderIndexes.ObjectResolves` | headers.c:46-95 | With interior pointers on, an address inside an object resolves to the block of that object exactly if the block is not off-page or the address is in its first unit. |
| `HeaderIndexes.HeaderIndex.Base` | misc.c:455-495 | An object start is returned exactly if the address lies in an object slot of a block in use, and then it is that slot. |
| `HeaderIndexes.BaseIs` | misc.c:479-492 | The arithmetic finds the slot that holds the address, for small and large objects and for the unused tail of a block. |
| `BlockIndexes.EndingAt` | allchblk.c:471-489 | In an index that describes the heap, the search finds the block of the heap that ends there, and none exactly if there is none. |
| `BlockIndexes.FreeBlock` | allchblk.c:1368-1452 | Freeing with both coalescings, on heap and index: every index operation is legal, the index describes the heap afterwards, and the headers of all other blocks in use are unchanged. |
| `BlockIndexes.MergeNext` | allchblk.c:716-747 | Merging free neighbours keeps the index in step with the heap and the headers of blocks in use. |
| `BlockIndexes.CarveHeaders` | allchblk.c:1267-1323 | The header steps of an allocation are legal and leave the index of the blocks after the cut: disjoint, large objects counted, free blocks not; the new header has exactly the requested object size and the off-page flag, and the headers of blocks in use are unchanged. |
| `BlockIndexes.NewObjects` | allchblk.c:1305-1323 | In the new block an address lies in an object exactly if it lies in a whole slot of the requested size, and then in that one. |
| `BlockIndexes.GrowHeap` | alloc.c:1641-1731 | Growing the heap, with its coalescing, keeps the index in step and the headers of blocks in use. |
| `ChainTables.ChainTable.Grow` | finalize.c:104-167 | Twice as many buckets and the same map; without memory nothing changes. |
| `ChainTables.ChainTable.Register` | finalize.c:186-273 | The map gains or replaces one pair; status, entry count and growth are right; out of memory leaves the map alone. |
| `ChainTables.ChainTable.Retry` | finalize.c:229-268 | After the out-of-memory handler, in whatever table is found then, the key gets its value and duplicates are reported. |
| `ChainTables.ChainTable.Unregister` | finalize.c:302-332 | The map loses one key and its value is returned, if it was there. |
| `ChainTables.ChainTable.Move` | finalize.c:632-689 | The pair moves to the new key, or the right status is reported and nothing changes. |
| `ChainTables.ChainTable.Replace` | finalize.c:837-990 | Registering, replacing or removing a finalizer changes one key and reports the old value. |
| `ChainTables.PushRep` | finalize.c:261-269 | Pushing an entry with a new key keeps each key once in the bucket of its hash. |
| `ChainTables.RemoveRep` | finalize.c:314-330 | Unlinking an entry does so too. |
| `ChainTables.PushFits` | finalize.c:1304-1308 | After a push some map fits the table exactly if the key was not in it. |
| `Finalization.Finalizer.Drain` | finalize.c:379-387 | Everything reachable from the scheduled objects gets marked, nothing else, and marking stays closed under pointers. |
| `Finalization.Finalizer.MarkFo` | finalize.c:740-829 | Each of the four mark procedures marks exactly what its order asks for. |
| `Finalization.Finalizer.MarkFromTable` | finalize.c:1189-1207 | Marks are exactly what is reachable from live objects and from what ordered finalizable objects point to. |
| `Finalization.Finalizer.Enqueue` | finalize.c:1208-1253 | Exactly the unmarked registered objects leave the table, each once, to the front of the queue. |
| `Finalization.Finalizer.MarkQueued` | finalize.c:1255-1271 | With Java finalization, marks are exactly what is reachable from before and from the queued objects, except those that wait to be unreachable. |
| `Finalization.Finalizer.Revive` | finalize.c:1273-1314 | Waiting objects that are marked go back to the table, the others are marked and stay queued, in order; no entry is lost; the table stays a map exactly if what goes back has new keys, each once. |
| `Finalization.Finalizer.Finalize` | finalize.c:1164-1339 | The whole outcome: queue, table and marks as functions of the state before; a short link survives exactly if its object was marked before and its location is not in an object that is unmarked at the end, a long link likewise with the final marks, and exactly the locations of links whose object was not are cleared; table and queue together hold the same entries; the table is a map afterwards exactly if Java finalization is off or no waiting object was registered again. |
| `Finalization.RevivedIsMap` | finalize.c:1273-1314 | Some map fits the buckets after the last pass exactly if the keys that go back are new and distinct, and then it is the expected one. |
| `Finalization.BackApartIff` | finalize.c:1273-1314 | That is so exactly if, before the call, the objects that wait in the queue were registered nowhere else. |
| `Finalization.RegisteredAgain` | finalize.c:1301-1308 | A state in which it is not: an object that waits and was registered again ends up in the table twice. |
| `Finalization.Withdrawn` | finalize.c:1283-1308 | A waiting entry of an earlier collection is withdrawn from the queue and is in the table again. |
| `Finalization.FinalizationOrder` | finalize.c:1194-1271 | A queued object is neither live nor reachable by one or more pointers from any registered object that asks for order (except itself, with the ignore-self order). |
| `Finalization.QueuedUnlessReached` | finalize.c:1208-1253 | A registered object is queued exactly if it is not reachable from roots, live objects or what ordered objects point to. |
| `Finalization.QueuedStaysAlive` | finalize.c:1255-1271 | With Java finalization everything reachable from a queued object is marked. |
| `Finalization.UnreachableLast` | finalize.c:1273-1314 | An object to be finalized when unreachable stays queued only if no other queued object can reach it. |
| `Finalization.PlainClosed` | finalize.c:1216-1218 | Without Java finalization, marks are closed under pointers exactly if each unordered object that is not kept points only to objects that are kept or registered. |
| `Finalization.PlainDrops` | finalize.c:1216-1218 | A heap in which that fails: an unordered finalizable object whose referent is not kept. |
| `Finalization.NothingLost` | finalize.c:1273-1314 | The last pass neither loses nor invents an entry: table and queue hold the same multiset. |
| `Finalization.Disappear` | finalize.c:1097-1162 | In the first pass exactly the links to marked objects stay and exactly the locations of the others are cleared; in the dangling pass exactly those whose location is outside the heap or in a marked object stay, and none is cleared; values do not change. |
| `Finalization.LinksAlive` | finalize.c:1317-1326 | A link survives both passes exactly if its object is marked in the first and its location is outside the heap or in an object that is marked in the second. |
| `StopWorld.RunInv` | pthread_stop_world.c:341-456 | With different signals, in every interleaving the semaphore counts exactly the acknowledgements that are out, and every thread is in an old stop, on its way, or stopped. |
| `StopWorld.DistinctSafe` | pthread_stop_world.c:1112-1173 | With different signals, when GC_stop_world has returned every thread that was sent a signal has published its stack pointer for the current even stop count. |
| `StopWorld.DistinctReachesAll` | pthread_stop_world.c:1013-1057 | With different signals no thread is passed over as already stopped. |
| `StopWorld.StaysStopped` | pthread_stop_world.c:411-428 | A stopped thread stays in the handler, with its stack pointer, until the stop count changes. |
| `StopWorld.OneRun` | pthread_stop_world.c:341-456 | With one signal and no early wake-ups, in every interleaving the semaphore counts exactly the acknowledgements of the current stop or restart. |
| `StopWorld.OneSignalSafe` | pthread_stop_world.c:1112-1173 | With one signal, and if nothing else wakes a waiting thread, GC_stop_world is safe too. |
| `StopWorld.NestedReturn` | pthread_stop_world.c:342-366 | Then a suspend handler that interrupts a waiting one always returns at once. |
| `StopWorld.EarlyUnsafe` | pthread_stop_world.c:1022-1025 | With one signal and an early wake-up, an interleaving in which GC_stop_world returns while a signalled thread still runs. |
| `StopWorld.SafeExactlyIf` | pthread_stop_world.c:1112-1173 | The handshake is safe in all interleavings exactly if the signals differ or no signal of the client can wake a waiting thread. |
| `StopWorld.CanStop` | pthread_stop_world.c:1112-1173 | In every safe mode, from any point of any run the world can get stopped. |
| `StopWorld.CanGoOn` | pthread_stop_world.c:411-428 | From there it can get restarted, with every thread out of its handler. |
| `StopWorld.CanComplete` | pthread_stop_world.c:341-456 | So every run can be continued to a completed stop and then to a completed restart with all threads running. |
| `Exclusions.ExclusionTable.NextExclusion` | mark_rts.c:511-534 | The bisection returns the first range that ends after the address, and none exactly if none does. |
| `Exclusions.ExclusionTable.Exclude` | mark_rts.c:536-581 | The table stays sorted and disjoint and covers exactly the new range more; overlap is reported exactly if there is one, and a full table exactly if a new entry was needed. |
| `Exclusions.OverlapIs` | mark_rts.c:546-551 | The single comparison decides whether any range overlaps. |
| `Exclusions.ExclusionTable.Push` | mark_rts.c:613-633 | The pushed pieces are nonempty, ascending and disjoint, and their union is the root minus all exclusions. |
| `RangeScans.ScanBack` | mark.c:1034-1071 | The backward loop looks at each position from the end once, up to a candidate. |
| `RangeScans.ScanRange` | mark.c:979-1116 | If the length is a multiple of the alignment, every aligned position with a whole pointer is looked at exactly once, and exactly the candidates among them are pushed, once. |
| `RangeScans.EndsAgree` | mark.c:995-998 | Counting positions from the end gives the aligned positions exactly if the length is a multiple of the alignment. |
| `RangeScans.SerialSplit` | mark.c:875-891 | Splitting off the front of a long range puts every position into exactly one part. |
| `RangeScans.ParallelSplit` | mark.c:850-873 | Halving a range for sharing puts every position into a part. |
| `RangeScans.MarkRange` | mark.c:834-892 | With all splitting, every position is looked at exactly once serially and at least once in parallel, and exactly the candidates are pushed. |
| `RangeScans.ClearLowest` | mark.c:807 | Clearing by bits and bits minus one removes the lowest set bit and only that. |
| `RangeScans.ScanBitmap` | mark.c:790-821 | The bit-clearing loop visits the slots that a scan one by one visits, in the same order. |
| `RangeScans.ScanBitmapWords` | typd_mlc.c:857-905 | The same for a bitmap of several words, of which the last may have more bits than there are slots. |
| `RangeScans.ScanSlots` | finalize.c:770-785 | The scan one by one visits exactly the slots whose bits are set. |
| `SizeMaps.SizeMap.constructor` | misc.c:260-276 | Tiny sizes are filled, each with the granules it needs, and the sections are as long as promised. |
| `SizeMaps.SizeMap.Extend` | malloc.c:135-191 | One stretch of entries that holds the requested one is filled, the others stay; the first choice is at most an eighth above the request; every filled entry has enough granules for its size and the extra byte and at most MAXOBJGRANULES; the size is the largest for the number of objects per block of the evened first choice. |
| `SizeMaps.FilledSections` | malloc.c:130-134 | If every filled section that ends at n is at least n/4 long, as the comment promises, that holds after one more stretch is filled. |
| `SizeMaps.WidenedKeeps` | malloc.c:177-181 | The final rounding up keeps the number of objects per block and the bounds. |

## Left out

- Marking.Marker.MarkSome: the branch with parallel markers is `ParallelCycles.StepParallel`, beside the serial machine whose termination is proved; mark bits are a set and the mark stack is a sequence; typed descriptors other than lengths, the free-list marks of the header and the callbacks of the marker are not modelled.
- Marking.Marker.GrowStack: does not say when the allocation of a larger stack succeeds, because the source tolerates failure silently.
- Marking.Marker.CollectALittle: does not model the time limit and the stop function beyond a number of polls; the start of an incremental collection and the decision in `GC_maybe_gc` are left out.
- Marking.Marker.Free: only large objects; small ones go to free lists, which are not modelled.  A word that still holds the address of a freed object counts as no pointer until it is stored again.
- Marking.Marker.PushMarked: the unrolled variants for objects of one, two and four granules are not modelled, they only repeat the general one.
- Marking.Marker.PushAllEager: does not set dirty bits for manually managed virtual dirty bits, nor look for compressed pointers in the halves of a word.
- Finalization.Finalizer.MarkFo: marks with an unbounded work list, so mark stack overflow inside a finalizer trace is not modelled.
- Finalization.Finalizer.Finalize: leaves out toggle references, the count of finalized bytes, and the running of finalizers.
- ChainTables.ChainTable.Replace: the allocation of the new entry is taken not to run a collection that puts the same key back.
- ChainTables.ChainTable.Grow: leaves out the collection that may precede growth of a large table.
- BlockIndexes.CarveHeaders: speaks of the cuts that `SplitBlock` and `Take` make, not of a whole search; dropping of black-listed blocks has no header steps here.
- BlockHeaps.BlockHeap.AllocBlock: stops where the source would collect and try again.
- BlockHeaps.BlockHeap.AllocNth: assumes that header allocation succeeds; leaves out the search restriction for pages that mix pointer-free and other blocks.
- BlockHeaps.BlockHeap.UnmapOld: the age of a block is a parameter, because it comes from the collection counter.
- HeaderIndexes.HeaderIndex.Base: works on byte addresses that are natural numbers, without the end of the address space.
- StopWorld.SafeExactlyIf: only those nested handlers are modelled that return at once; without early wake-ups there are no others, and the interleaving that shows the failure needs no others.
- StopWorld.CanComplete: says that a stop and a restart can always be completed, not that every fair schedule completes them.
- ParallelEnds.CanFinish: says that a cycle can always be completed, not that every fair schedule completes it.
- StopWorld.DistinctSafe: leaves out resending of lost signals and suspension of single threads by the client.
- RangeScans.ScanBitmapWords: which slots are visited; the test of the value in a slot is left out.
- Lazy sweeping, reclaiming of objects inside blocks, thread-local free lists and the size-class allocator above blocks.
- Dynamic loading, thread registration, the platform-dependent ways to find stacks and roots, and the implementations of dirty-page tracking.
- Weak memory ordering: every access is one step of a sequentially consistent execution.
- Debugging support, leak finding, back graphs, statistics, logging and environment variables, which would only add easy members.
