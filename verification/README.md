# LPS runtime: verified model

A Dafny model of the parts of the LPS sandbox runtime that keep state consistent behind its back, with proofs.

**The address-space tracker** (`PageMap`, `AddressSpace`, `AddressSpaceRuns`). The tracker is a sorted doubly linked list of
page regions with a movable cursor. It is modelled on the heap, node by node, with the pointer surgery, the overlap cases of
an unmap and the cursor updates as coded, and proved against a finite map from pages to mapping information: unmapping is map
subtraction, a fixed mapping is map override, a mapping is placed exactly when there is room at or above the lowest mapping,
and the cursor never dangles and never changes a page map. `ProgramBreak` is the `sys_brk` state machine on top.

**Pipes over the round-robin scheduler**. `PipeMachine` (with `PipeSteps`) is a state machine whose steps are the stretches of
runtime code between two context switches; a blocked call resumes at its loop head. One invariant (`PipeInvariant`) covers
thread conservation, no lost wakeups, ownership and the byte stream, and yields the run theorems of `PipeRuns` and
`PipeCalls`: round-robin order, what it means when the scheduler returns, what whole reads and writes do. `PipeGraphs`, `PipeFinish`,
`PipeSetups` and `PipeTraps` say exactly which host programs always finish: those whose pipes form a forest with no process
left out. `PipeDriver` holds the code itself (ring buffer, counters that wrap at 2^64, copy and wake loops, and the linked
queues of `IntrusiveQueue`) and proves it to be the steps of the machine.

**Path normalisation** (`PathMeaning`, `PathCounters`, `PathText`, `PathRelative` for the meaning; `PathWalk`,
`PathWalkJoined`, `PathNormalize`, `PathRelativize` for the code). The normaliser uses no stack: two counters decide which
segments survive. It is proved equal to a stack evaluator, to preserve lexical meaning (section 4.13 of XBD in POSIX.1-2017,
without symbolic links), to be idempotent and to be canonical; the relative path joined to its base gives the target back; and
the buffer functions return the full length and leave the longest fitting prefix.

**Two allocators and queues** (`BoxMap`, `BoxRuns`, `RingQueue`). One-chunk boxes over a bit vector, with the boxes a client
holds over any series of calls, and the ring deque with the global-to-local hand-off of a worker.

`dafny verify dfyconfig.toml` checks everything.

Results worth knowing before using the code, each proved here:

- A host program always finishes exactly when its pipes form a forest and no pipe leads between an added process and one that
  is not (`PipeTraps.FinishesIffForest`). Pipelines do; two processes with a pipe each way need not
  (`PipeTraps.PingPongMayHang`), nor does a pipe whose other process is never added (`PipeTraps.MissingWriterHangs`).
- `cwk_path_get_relative` followed by a join gives the normalised target for all absolute paths. For two relative paths it
  does so exactly when the target is not the empty text and the normal form of the base has no more leading `..` than that of
  the target (`PathRelative.RoundTrip`); it fails from `..` to `a` (`PathRelative.RoundTripFails`).
- `mm_mapat` aborts on its own assertion exactly for an aligned range of no pages inside the space
  (`AddressSpace.AddrSpace.MapAtCb`).
- `mm_mapany` of a length that rounds to no pages puts an empty node in front of the cursor's node, or of the head, returns
  that node's address, and leaves a list that is no longer well formed (`AddressSpace.AddrSpace.MapAny`).
- `mm_unmap` of a length that wraps to no pages leaves the page map alone, but calls back with an empty piece if a region
  reaches the address; which region it names can depend on the cursor (`PageMap.EmptyHitIff`, `PageMap.CursorIrrelevantIff`,
  `PageMap.CursorShows`). The box's callback aborts on such a piece (`ProgramBreak.Proc.BoxUnmap`).
- The gap below the lowest mapping is never offered by `mm_mapany` (`AddressSpaceRuns.LowGapNotOffered`).
- `sys_brk` clamps a request at the maximum and then asserts that it is below it, so a request for the maximum or more aborts,
  and no other (`ProgramBreak.Proc.SysBrk`). A request below it can map the page past the maximum over another mapping
  (`ProgramBreak.Proc.GrowthPastMaximum`).
- `ring_pop` on a full ring returns nothing, so a full global queue hands no task to a worker (`RingQueue.HandOff`), and
  `ring_push` on a full ring overwrites the oldest elements and breaks the count (`RingQueue.Ring.Push`).

Where `mmap.h` says that `mm_mapat` returns -1 on error, the code returns -22 for a range outside the space; the model follows
the code.

## Model

| member | source | states |
|---|---|---|
| `PageMap.CarveAllPages` | lps-core/mmap.c:285-387 | unmapping is map subtraction: exactly the pages of the range go, every other page keeps its information |
| `PageMap.CarveAllWellFormed` | lps-core/mmap.c:316-381 | what unmapping leaves is again sorted, disjoint, in bounds and free of empty regions |
| `PageMap.HitAllPages` | lps-core/mmap.c:316-381 | the pieces handed to the callback denote the old page map cut down to the range, information included |
| `PageMap.HitAllShape` | lps-core/mmap.c:316-381 | those pieces are non-empty, ascend, are pairwise disjoint and lie in the range |
| `PageMap.MappedInfo` | lps-core/mmap.h:53-87 | a page inside a region is mapped, with that region's information |
| `PageMap.FreeIffUnmapped` | lps-core/mmap.c:156-168 | a run is free between the regions exactly when none of its pages is mapped |
| `PageMap.InsertPages` | lps-core/mmap.c:170-192 | a region put where the run is free adds exactly its pages |
| `PageMap.InsertWellFormed` | lps-core/mmap.c:185-192 | a region put between its neighbours keeps the list sorted, disjoint and in bounds |
| `PageMap.EmptyHitIff` | lps-core/mmap.c:302-352 | an unmap that rounds to no pages calls back exactly when some region reaches the boundary, wherever the cursor is, and then once, with an empty piece and that region's information |
| `PageMap.CursorIrrelevantIff` | lps-core/mmap.c:302-352 | which region that is depends on the cursor exactly when two regions with different information meet at the boundary |
| `PageMap.CursorShows` | lps-core/mmap.c:302-352 | two regions and two cursors for which the reports differ |
| `AddressSpace.AddrSpace.constructor` | lps-core/mmap.c:116-129 | a new space is valid and maps nothing |
| `AddressSpace.AddrSpace.LinkBefore` | lps-core/mmap.c:74-86 | the pointer updates leave a consistent doubly linked list with the node in front of the given one |
| `AddressSpace.AddrSpace.LinkAfter` | lps-core/mmap.c:88-99 | the same, behind the given node |
| `AddressSpace.AddrSpace.Unlink` | lps-core/mmap.c:101-114 | the pointer updates leave a consistent list without the node |
| `AddressSpace.AddrSpace.InsertBefore` | lps-core/mmap.c:74-86 | list and regions both gain the node at that place, and the cursor stays on the list |
| `AddressSpace.AddrSpace.InsertAfter` | lps-core/mmap.c:88-99 | list and regions both gain the node at that place, and the cursor stays on the list |
| `AddressSpace.AddrSpace.Remove` | lps-core/mmap.c:101-114 | list and regions both lose the node; the cursor must be off it first |
| `AddressSpace.PagesToBytes` | lps-core/mmap.c:54-66 | pages to bytes and back, as done around the inner unmap, loses nothing inside an addressable space |
| `AddressSpace.Rounding` | lps-core/mmap.c:54-66 | an address lies on the page it is truncated to; a length takes the least number of pages that cover it, or none if rounding up wraps |
| `AddressSpace.BytesToPages` | lps-core/mmap.c:48-66 | 64-bit byte counts give page numbers whose sums never wrap |
| `AddressSpace.AddrSpace.ScanStart` | lps-core/mmap.c:302-313 | the scan starts at the last node from the cursor backwards that begins at or below the range, or at the head |
| `AddressSpace.ScanReady` | lps-core/mmap.c:302-313 | so everything before it is out of the way: what is skipped lies below the range |
| `AddressSpace.AddrSpace.RetreatCursor` | lps-core/mmap.c:323-324 | after the update the cursor is null or a node in front of the scan, never the node about to be freed |
| `AddressSpace.AddrSpace.DropNode` | lps-core/mmap.c:317-327 | first case: the region disappears, the scan stands on the next node, the cursor is off the freed node |
| `AddressSpace.AddrSpace.SplitNode` | lps-core/mmap.c:328-352 | second case: the region becomes the zero, one or two pieces outside the range |
| `AddressSpace.AddrSpace.TrimAbove` | lps-core/mmap.c:353-362 | third case: the region keeps what lies below the range |
| `AddressSpace.AddrSpace.TrimBelow` | lps-core/mmap.c:363-374 | fourth case: the region keeps what lies above the range |
| `AddressSpace.AddrSpace.Pass` | lps-core/mmap.c:378-380 | last case: a region below the range is left as it is |
| `AddressSpace.AddrSpace.UnmapStep` | lps-core/mmap.c:316-381 | one turn of the loop: the region is replaced by what the range leaves of it and the piece inside is reported, an empty one for a range of no pages |
| `AddressSpace.AddrSpace.UnmapFrom` | lps-core/mmap.c:315-381 | the loop replaces region after region, stops only where nothing further can change, and reports exactly the pieces |
| `AddressSpace.AddrSpace.UnmapPages` | lps-core/mmap.c:297-387 | the final list, and the report of a non-empty range, are functions of the regions alone, so there the cursor is only a hint; the report of an empty range is given exactly, cursor included |
| `AddressSpace.AddrSpace.UnmapCb` | lps-core/mmap.c:285-387 | error exactly on misalignment, zero length or a range outside the space; otherwise map subtraction and an exact report, also for a length that wraps to no pages |
| `AddressSpace.AddrSpace.SearchGap` | lps-core/mmap.c:154-168 | the search stops at the lowest gap of the wanted size at or above its start, or there is none; for no pages it stops where it starts |
| `AddressSpace.AddrSpace.Claim` | lps-core/mmap.c:170-197 | the new mapping is put in that gap with the cursor in front of it, and the list stays valid exactly unless the mapping has no pages |
| `AddressSpace.AddrSpace.MapAnyFrom` | lps-core/mmap.c:150-200 | lowest fit from the given node, or no change and no fit; for no pages an empty node in front of the given one |
| `AddressSpace.AddrSpace.MapAnyPages` | lps-core/mmap.c:202-212 | succeeds exactly when a free run lies at or above the lowest mapping, whatever the cursor; a run at or above the cursor is preferred, and the lowest is taken; the run is free and the only change; for no pages it always succeeds, at the node of the cursor or the head |
| `AddressSpace.AddrSpace.MapAny` | lps-core/mmap.c:202-212 | the same in bytes for every 64-bit length: an aligned address, at or above the cursor if possible, or -1 exactly when there is no such run; a length of no pages leaves an empty node, at the address given, and breaks the list |
| `AddressSpace.AddrSpace.FindPlace` | lps-core/mmap.c:261-268 | the insertion search always finds its place, from the cursor or from the head |
| `AddressSpace.AddrSpace.PlaceSorted` | lps-core/mmap.c:253-269 | the new node goes between its neighbours |
| `AddressSpace.AddrSpace.InsertMapping` | lps-core/mmap.c:241-271 | with the range free, exactly its pages are added |
| `AddressSpace.AddrSpace.MapAtCb` | lps-core/mmap.c:221-272 | map override: the old page map with the range replaced; aborts exactly for a range of no pages inside the space; errors exactly as coded |
| `AddressSpace.AddrSpace.MapAtPages` | lps-core/mmap.c:231-271 | the inner unmap fails exactly for no pages, and otherwise the range carries the new information and nothing else changes |
| `AddressSpaceRuns.RoomAgrees` | lps-core/mmap.c:150-168 | the tracker finds room exactly when the page map has a free run at or above its lowest page |
| `AddressSpaceRuns.Serve` | lps-core/mmap.c:150-387 | one request is answered exactly as its arguments and the page map demand, errors included, and changes the page map as its answer says |
| `AddressSpaceRuns.ServeAll` | lps-core/mmap.c:150-387 | over any series of requests every answer is the right one where it is given, the page map is the replay of requests and answers, and the list, cursor included, stays valid |
| `AddressSpaceRuns.MappingSurvives` | lps-core/mmap.h:53-87 | over whole runs a mapped page keeps its information until an unmap or a fixed mapping covers it |
| `AddressSpaceRuns.LowGapNotOffered` | lps-core/mmap.c:154-160 | a space with free pages below its lowest mapping in which nothing can be placed |
| `ProgramBreak.Proc.constructor` | lps-linux/proc.c:49-60 | a loaded process has an empty heap |
| `ProgramBreak.Proc.BoxMapAt` | lps-core/box.c:56-76 | the range is mapped, or unmapped when the host refuses |
| `ProgramBreak.Proc.GrowthEnd` | lps-linux/sys/sys_mem.c:40-47 | mapping the difference in size from the rounded-up old break ends at the rounded-up new break, or exactly one page beyond it, by a test on the two sizes |
| `ProgramBreak.Proc.Grow` | lps-linux/sys/sys_mem.c:37-50 | growth maps exactly the pages from the old rounded-up break to that end, or unmaps them if the host refuses |
| `ProgramBreak.Proc.GrownKeepsHeap` | lps-linux/sys/sys_mem.c:37-50 | growth touches no page of the current heap, and covers the new one |
| `ProgramBreak.Proc.GrowthPastMaximum` | lps-linux/sys/sys_mem.c:37-50 | growth below the maximum takes the page past it, over whatever was there, exactly when the new break lies on the last page and the extra page is taken |
| `ProgramBreak.Proc.GrowthPastMaximumHappens` | lps-linux/sys/sys_mem.c:37-50 | moving from one byte to one byte below the maximum does so |
| `ProgramBreak.Proc.SysBrk` | lps-linux/sys/sys_mem.c:7-54 | -1 outside the box, abort exactly from the maximum to the end of the box, and from the break base to the maximum the break moves to the address, if the host agrees; the page map for each, and the heap stays mapped |
| `ProgramBreak.Proc.HeapBytesMapped` | lps-linux/sys/sys_mem.c:32-50 | every byte of the heap lies on a page mapped readable and writable, private and anonymous |
| `ProgramBreak.Proc.MapAny` | lps-core/box.c:78-94 | a mapping placed by the tracker never meets the heap, and is undone if the host refuses |
| `ProgramBreak.Proc.BoxUnmap` | lps-core/box.c:45-104 | map subtraction or the coded errors; aborts exactly for a length within a page of 2^64 at an aligned address that a region reaches |
| `ProgramBreak.Proc.Serve` | lps-linux/sys/sys_mem.c:7-54 | over any series of break moves and placed mappings the whole heap stays mapped, up to the first request at the maximum, which aborts |
| `PathMeaning.RelativeMeaning` | lps-linux/cwalk.c:631-705 | from every directory a relative path and its normal form lead to the same place, with "." and ".." read off the text |
| `PathMeaning.AbsoluteMeaning` | lps-linux/cwalk.c:631-705 | the normal form of an absolute path is the place it names, with excess ".." ignored at the root |
| `PathMeaning.NormIsCanonical` | lps-linux/cwalk.c:658-685 | a normal form is leading "..", only when relative, then names |
| `PathMeaning.NormIdempotent` | lps-linux/cwalk.c:631-705 | normalising a normal form changes nothing |
| `PathMeaning.NormDecidesMeaning` | lps-linux/cwalk.c:631-705 | two relative paths lead to the same place from every directory exactly when their normal forms are equal |
| `PathCounters.ForwardFollowsStack` | lps-linux/cwalk.c:430-465 | the forward counter is the number of names above a name on the stack, so it finds exactly the names that get popped |
| `PathCounters.BackwardCountsNames` | lps-linux/cwalk.c:388-428 | the backward counter goes positive exactly when a name is left for ".." to cancel |
| `PathCounters.RemovedIffNotOnStack` | lps-linux/cwalk.c:388-487 | a segment is removed exactly when its position is not on the final stack |
| `PathCounters.KeptIsStack` | lps-linux/cwalk.c:660-685 | the surviving positions, in order, are the final stack |
| `PathText.SplitJoined` | lps-linux/cwalk.c:667-684 | splitting joined segments gives them back |
| `PathText.SplitSlash` | lps-linux/cwalk.c:191-261 | a text is cut exactly at its slashes |
| `PathText.SplitRender` | lps-linux/cwalk.c:645-695 | reading a normalised path back gives its root and its normal form |
| `PathText.NormalizedIdempotent` | lps-linux/cwalk.c:1172-1182 | normalising the result again gives the same text, also for "", "." and "/" |
| `PathText.NormalizedMeaning` | lps-linux/cwalk.c:631-705 | the normalised text leads to the same place as the paths, from every directory |
| `PathText.NormalizedDecidesMeaning` | lps-linux/cwalk.c:631-705 | non-empty paths lead to the same place from everywhere exactly when they normalise to the same text |
| `PathText.NamesJoin` | lps-linux/cwalk.c:631-705 | paths of names, other than "." and "..", are joined by putting their names behind each other; no name is lost or changed |
| `PathText.NormalizedIsTidy` | lps-linux/cwalk.c:656-695 | a normalised path has no empty segment and no slash at its end |
| `PathText.NormalizedCorners` | lps-linux/cwalk.c:645-695 | the results for "", ".", "..", "/" and "/.." |
| `PathRelative.NormConcat` | lps-linux/cwalk.c:631-705 | joining continues from the normal form of the first path |
| `PathRelative.ReachesWhen` | lps-linux/cwalk.c:815-866 | up and down lead from base to target exactly when the path is absolute or the base has no more leading ".." than the target |
| `PathRelative.RoundTrip` | lps-linux/cwalk.c:779-900 | joining the base with the relative path gives the normalised target: always for absolute paths, and for relative ones exactly under the stated condition |
| `PathRelative.RoundTripFails` | lps-linux/cwalk.c:779-900 | two pairs of relative paths for which the round trip fails |
| `PathRelative.NoShorterWay` | lps-linux/cwalk.c:779-884 | no text with fewer segments leads from the base to the target |
| `PathRelative.RelativeEmptyIff` | lps-linux/cwalk.c:792-803 | the relative path is empty exactly when only one of the paths is absolute |
| `PathWalk.SpansSplit` | lps-linux/cwalk.c:220-261 | the spans the iterators walk hold the segments of the text |
| `PathWalk.FindNextStop` | lps-linux/cwalk.c:191-201 | the next separator or the end |
| `PathWalk.FindPreviousStop` | lps-linux/cwalk.c:203-218 | the start of the segment that ends here |
| `PathWalk.GetFirstSegmentWithoutRoot` | lps-linux/cwalk.c:220-261 | stands on the first segment, or reports that there is none |
| `PathWalk.GetNextSegment` | lps-linux/cwalk.c:1287-1323 | moves from segment k to k+1, or reports the end and stays |
| `PathWalk.GetPreviousSegment` | lps-linux/cwalk.c:1325-1354 | moves from segment k to k-1, or reports the beginning and stays |
| `PathWalkJoined.GetFirstSegment` | lps-linux/cwalk.c:1253-1266 | the first segment behind the root |
| `PathWalkJoined.RunToLast` | lps-linux/cwalk.c:263-281 | the last segment of a path |
| `PathWalkJoined.GetFirstSegmentJoined` | lps-linux/cwalk.c:283-304 | the first segment of all paths together, whichever path has it |
| `PathWalkJoined.GetNextSegmentJoined` | lps-linux/cwalk.c:306-343 | moves from segment n to n+1 of all paths together, across empty paths |
| `PathWalkJoined.GetPreviousSegmentJoined` | lps-linux/cwalk.c:345-386 | moves from segment n to n-1 of all paths together, across empty paths |
| `PathNormalize.SegmentType` | lps-linux/cwalk.c:1356-1369 | the character comparison tells "" and ".", "..", and everything else apart |
| `PathNormalize.BackWillBeRemoved` | lps-linux/cwalk.c:388-428 | computes the backward counter test over the joined walk |
| `PathNormalize.NormalWillBeRemoved` | lps-linux/cwalk.c:430-465 | computes the forward counter test over the joined walk |
| `PathNormalize.WillBeRemoved` | lps-linux/cwalk.c:467-487 | true exactly when the segment is not on the final stack |
| `PathNormalize.OutputSized` | lps-linux/cwalk.c:67-94 | the buffer holds the longest fitting prefix of the output so far; nothing at or past its size is written |
| `PathNormalize.TerminateOutput` | lps-linux/cwalk.c:138-148 | the longest prefix that leaves room for a NUL, then the NUL |
| `PathNormalize.OutputSegment` | lps-linux/cwalk.c:667-684 | a separator if there was output, then the segment |
| `PathNormalize.OutputSurvivors` | lps-linux/cwalk.c:656-685 | the output after the loop is the root and the joined normal form |
| `PathNormalize.JoinAndNormalizeMultiple` | lps-linux/cwalk.c:631-705 | returns the full length whatever the buffer size; the buffer holds the terminated prefix |
| `PathNormalize.Normalize` | lps-linux/cwalk.c:1172-1182 | the same for one path |
| `PathNormalize.Join` | lps-linux/cwalk.c:886-900 | the same for two paths |
| `PathRelativize.SkipInvisible` | lps-linux/cwalk.c:489-500 | stops at the next segment on the final stack, or at the end |
| `PathRelativize.SkipUntilDiverge` | lps-linux/cwalk.c:743-777 | both walks end just past their longest common visible prefix |
| `PathRelativize.OutputUps` | lps-linux/cwalk.c:825-844 | one ".." for each visible segment left in the base |
| `PathRelativize.OutputDowns` | lps-linux/cwalk.c:846-866 | then the visible segments left in the target |
| `PathRelativize.OutputRelative` | lps-linux/cwalk.c:805-866 | together the relative segments of the two normal forms |
| `PathRelativize.GetRelative` | lps-linux/cwalk.c:779-884 | returns the full length of the relative text; the buffer holds the terminated prefix |
| `PipeInvariant.ReadSlotOk` | lps-linux/sys/sys_pipe.c:32-66 | a stretch of a read keeps the pipe invariant and wakes only threads blocked on this pipe |
| `PipeInvariant.WriteSlotOk` | lps-linux/sys/sys_pipe.c:68-113 | the same for a stretch of a write |
| `PipeInvariant.CloseEffectOk` | lps-linux/sys/sys_pipe.c:115-139 | the same for closing an end |
| `PipeInvariant.StepKeepsInv` | lps-linux/sys/sys_pipe.c:32-210 | every step keeps: thread conservation, states that agree with queues, no lost wakeup, the byte stream, and that the owner of an open end has not left |
| `PipeRuns.InitialInv` | lps-linux/sys/sys_pipe.c:30-30 | static storage satisfies the invariant |
| `PipeRuns.RunKeepsInv` | lps-linux/sched.c:33-75 | so does every state a run reaches |
| `PipeRuns.NoLostWakeup` | lps-linux/sys/sys_pipe.c:39-135 | along every run readers wait only on an empty pipe with an open write end, writers only on a full one with an open read end, never both, and nobody on a closed pipe |
| `PipeRuns.ThreadsConserved` | lps-linux/sched.c:33-75 | along every run a thread that has not exited is in exactly one place, of the kind its state says |
| `PipeRuns.BlockedTrulyWaits` | lps-linux/sched.c:57-64 | a blocked thread is on a wait queue for a reason |
| `PipeRuns.StoppedState` | lps-linux/sched.c:33-55 | when the scheduler returns, every thread has exited or waits on a pipe that is truly empty or truly full with the other end open |
| `PipeRuns.RunningCanStep` | lps-linux/sys/sys_pipe.c:77-113 | a running thread is never stuck in runtime code |
| `PipeRuns.StepRunQueue` | lps-linux/sched.c:19-75 | only a dispatch takes from the run queue; everything else at most appends |
| `PipeRuns.MovesUp` | lps-linux/sched.c:33-75 | a queued thread moves up by one per dispatch, whatever is woken or re-queued meanwhile |
| `PipeRuns.DispatchedInTurn` | lps-linux/sched.c:33-55 | a thread at position k runs at exactly the (k+1)-th dispatch |
| `PipeGraphs.KnotOrForest` | lps-linux/sched.c:33-55 | processes that each wait on a pipe of their own for another of them rule out that the pipes form a forest |
| `PipeGraphs.ForestIffNoKnot` | lps-linux/sched.c:33-55 | pipes form a forest exactly when no group of processes can wait for each other in them |
| `PipeGraphs.PipelineIsForest` | apps/lps-chain/main.c:52-56 | a pipeline is a forest |
| `PipeFinish.LeftoversAreKnot` | lps-linux/sched.c:33-55 | the threads left when the scheduler returns wait for each other in a knot |
| `PipeFinish.ForestsFinish` | lps-linux/sched.c:33-55 | along every run, if the scheduler returns, the pipes in use form a forest and none has only one process added, then every thread has exited |
| `PipeSetups.SetUpRuns` | apps/lps-chain/main.c:55-61 | making the pipes first and adding the threads then, as the host programs do, is a run |
| `PipeSetups.WholeForestFinishes` | apps/lps-chain/main.c:55-64 | a set-up whose pipes form a forest between added processes always finishes |
| `PipeTraps.SpringTrap` | lps-linux/sys/sys_pipe.c:39-90 | from a set-up with a knot, or a pipe with one process missing, the run in which everyone has one turn and the trapped threads wait for ever |
| `PipeTraps.FinishesIffForest` | lps-linux/sched.c:33-55 | a set-up always finishes exactly when no pipe has only one of its processes added and the pipes form a forest |
| `PipeTraps.PipelinesFinish` | apps/lps-chain/main.c:55-64 | so pipelines of any length finish, in whatever order their threads are added |
| `PipeTraps.PingPongMayHang` | apps/lps-pipe/main.c:91-104 | and two processes with a pipe each way need not |
| `PipeTraps.MissingWriterHangs` | lps-linux/sys/sys_pipe.c:39-43 | a concrete run with a pipe whose writer is never added stops with its reader blocked |
| `PipeTraps.SelfPipeHangs` | lps-linux/sys/sys_pipe.c:212-243 | a concrete run in which a thread blocks on a pipe it made for itself |
| `PipeCalls.StreamIsFifo` | lps-linux/sys/sys_pipe.c:32-113 | along every run bytes received followed by bytes buffered are the bytes sent, at most 65536 of them buffered |
| `PipeCalls.ReadStretch` | lps-linux/sys/sys_pipe.c:39-65 | a read blocks exactly on an empty pipe with its write end open; otherwise it returns as many bytes as asked for and there, nothing only at the end of the stream, and lets the waiting writers run |
| `PipeCalls.WriteStretch` | lps-linux/sys/sys_pipe.c:77-112 | a write fails exactly when bytes remain and the read end is closed, blocks exactly when they do not fit, sends what fits, lets the waiting readers run, and returns only the full count |
| `PipeCalls.WholeWrite` | lps-linux/sys/sys_pipe.c:68-113 | along every run, across blocks and whatever runs in between: what a write has sent is its own bytes from the first on, uninterrupted; a count returned means all, a failure that the read end is closed and some are missing |
| `PipeCalls.WholeRead` | lps-linux/sys/sys_pipe.c:32-66 | along every run: nothing is received until the read returns, and then exactly what it returns; less than asked for only if that empties the pipe, nothing only if the write end is closed |
| `Basics.AroundTake` | lps-linux/sys/sys_pipe.c:49-61 | a chunk read up to the end of a ring is the front of its contents |
| `Basics.AroundPut` | lps-linux/sys/sys_pipe.c:97-107 | a chunk written up to the end of a ring extends its contents |
| `PipeDriver.CounterPosition` | lps-linux/sys/sys_pipe.c:50-59 | a counter that wraps at 2^64 still gives the right ring position |
| `PipeDriver.CountersMove` | lps-linux/sys/sys_pipe.c:45-107 | the fill level and the write position follow the wrapping counters |
| `PipeDriver.Scheduler.Block` | lps-linux/sched.c:57-64 | on linked queues: the thread is blocked and at the end of the wait queue, the other queues are undisturbed |
| `PipeDriver.Scheduler.Wake` | lps-linux/sched.c:66-75 | on linked queues: the whole wait queue moves to the run queue in order, runnable; no thread is on two queues and the other wait queue is undisturbed |
| `PipeDriver.Pipe.constructor` | lps-linux/sys/sys_pipe.c:154-166 | a new pipe is open at both ends and empty |
| `PipeDriver.Pipe.CopyOut` | lps-linux/sys/sys_pipe.c:45-61 | the copy loop takes exactly the first bytes off the pipe, across the ring boundary and counter wrap |
| `PipeDriver.Pipe.PutChunk` | lps-linux/sys/sys_pipe.c:97-107 | one copy appends exactly its bytes |
| `PipeDriver.Pipe.Fill` | lps-linux/sys/sys_pipe.c:77-108 | the copying turns of the write loop fill the pipe as far as bytes and space allow, across the ring boundary and counter wrap |
| `PipeDriver.Pipe.Read` | lps-linux/sys/sys_pipe.c:32-66 | the code from loop head to return or block, linked queues included, is the read step of the machine; it blocks exactly on an empty pipe with its write end open, and returns the first bytes, as many as asked for and there |
| `PipeDriver.Pipe.BlockFull` | lps-linux/sys/sys_pipe.c:83-91 | on a full pipe the readers move to the run queue and the writer joins its wait queue |
| `PipeDriver.Pipe.Write` | lps-linux/sys/sys_pipe.c:68-113 | the code from loop head to return or block, linked queues included, is the write step of the machine; -1 exactly when bytes remain and the read end is closed, a block exactly when they do not fit, and otherwise the full count |
| `PipeDriver.Pipe.Close` | lps-linux/sys/sys_pipe.c:115-139 | closing an end is the close step of the machine: that end is closed, the slot is free once both are, and the buffered bytes stay |
| `PipeDriver.FindSlot` | lps-linux/sys/sys_pipe.c:144-153 | the first slot not in use, or none exactly when all are |
| `IntrusiveQueue.Queue.constructor` | lps-linux/queue.h:10-15 | an empty queue |
| `IntrusiveQueue.Queue.Enqueue` | lps-linux/queue.h:17-26 | the object joins the end; links stay a ring through the dummy |
| `IntrusiveQueue.Queue.IsEmpty` | lps-linux/queue.h:28-32 | true exactly for the empty queue |
| `IntrusiveQueue.Queue.Dequeue` | lps-linux/queue.h:34-46 | the front object, or null exactly when empty |
| `IntrusiveQueue.TakeFrom` | lps-linux/queue.h:34-46 | taking from one of three queues leaves the others in order, and the object is then on none |
| `IntrusiveQueue.PutOn` | lps-linux/queue.h:17-26 | putting on one of three queues leaves the others in order |
| `RingQueue.Ring.constructor` | lps-linux/queue.c:20-41 | an empty ring |
| `RingQueue.Ring.PushOne` | lps-linux/queue.c:60-111 | appends unless full, and says which |
| `RingQueue.Ring.PopOne` | lps-linux/queue.c:137-181 | the front element, or none exactly when empty |
| `RingQueue.Ring.PopBack` | lps-linux/queue.c:183-225 | the last element, or none exactly when empty |
| `RingQueue.Ring.WriteBatch` | lps-linux/queue.c:122-128 | the loop writes the batch cell after cell, across the end of the buffer, until it ends or meets the head |
| `RingQueue.Ring.Push` | lps-linux/queue.c:113-135 | a batch goes in as far as it fits, in order; on a full ring it overwrites the oldest elements and pushes the count past the capacity |
| `RingQueue.Ring.Pop` | lps-linux/queue.c:227-245 | up to n elements from the front, and none when the ring is full |
| `RingQueue.HandOff` | lps-linux/sched.c:111-121 | no task is lost, duplicated or reordered, the push assertion holds, a task is found exactly when the global queue is neither empty nor full, and the worker takes one part in as many as there are cores, rounded down, and one more |
| `BoxMap.SetBitExact` | lps-core/boxmap.c:267-312 | setting a bit in bytes and shifts sets that bit and no other |
| `BoxMap.InUseAfter` | lps-core/boxmap.c:297-312 | so the set of chunks in use gains or loses exactly that chunk |
| `BoxMap.ExtAlloc.constructor` | lps-core/boxmap.c:242-265 | a new vector has no chunk in use |
| `BoxMap.ExtAlloc.IsFull` | lps-core/boxmap.c:314-322 | true exactly when every chunk is in use |
| `BoxMap.ExtAlloc.FindZeroes` | lps-core/boxmap.c:275-295 | the start of the lowest run of clear bits of the wanted length |
| `BoxMap.ExtAlloc.Alloc` | lps-core/boxmap.c:324-334 | the lowest free run of the wanted length, and only it, becomes used; nothing for a request of no chunks |
| `BoxMap.ExtAlloc.Put` | lps-core/boxmap.c:297-312 | exactly the chunks of the run change |
| `BoxMap.ExtAlloc.Free` | lps-core/boxmap.c:346-354 | the chunks of the run, and only they, become free |
| `BoxMap.SumIsLive` | lps-core/boxmap.c:92-100 | the active counts add up to the number of boxes in use |
| `BoxMap.Active` | lps-core/boxmap.c:92-100 | returns that number |
| `BoxMap.FindRoom` | lps-core/boxmap.c:190-211 | the first region with room, or none exactly when all are full |
| `BoxMap.Take` | lps-core/boxmap.c:201-211 | the chosen region gives a chunk that was not in use anywhere |
| `BoxMap.AddSpace` | lps-core/boxmap.c:225-233 | 0 exactly when every region is full; otherwise an aligned, unused chunk of some region, now in use |
| `BoxMap.CoversSame` | lps-core/boxmap.c:217-218 | the range test in bytes is the range test in chunks |
| `BoxMap.Release` | lps-core/boxmap.c:213-223 | the region holding the box frees exactly it |
| `BoxMap.RmSpace` | lps-core/boxmap.c:235-239 | the box, and only it, is no longer in use |
| `BoxRuns.FullIffCapacity` | lps-core/boxmap.c:190-199 | every region is full exactly when there are as many boxes as chunks in all regions |
| `BoxRuns.BoxInside` | lps-core/boxmap.c:324-334 | a box held lies inside one region, with all its bytes |
| `BoxRuns.BoxesDisjoint` | lps-core/boxmap.c:225-239 | boxes held are pairwise a chunk apart |
| `BoxRuns.Serve` | lps-core/boxmap.c:225-239 | one call keeps the boxes in use equal to the boxes held |
| `BoxRuns.ServeAll` | lps-core/boxmap.c:225-239 | over any series of requests and returns the boxes held are aligned, inside a region and pairwise disjoint, the active count is their number, and a box was refused exactly when as many were held as there are chunks |

## Left out

- `mm_unmap_non_original`, `mm_mark_original`, `mm_free`, `mm_querypage`, `mm_protect`: the first follows a link of a node it may have freed, the next two are a plain loop and a plain call, the last two have no definition.
- Failing allocations: `malloc` succeeds, so the paths that return for lack of memory are not modelled.
- AddressSpace.AddrSpace.constructor: requires a power-of-two page size from 2 to 2^30 and a space that ends a page below 2^64, because page sums wrap otherwise; the engine uses pages of 4096 bytes. `getpow` is not modelled.
- AddressSpaceRuns.Serve: excludes the requests on which the tracker aborts or puts an empty node on the list; what happens then is in the contracts of MapAtCb and MapAny.
- AddressSpaceRuns.ServeAll: the same.
- ProgramBreak.Proc.MapAny: requires a length of at least one page, since the tracker's list is broken otherwise. `sys_mmap` rejects a length of zero, but rounds a length within a page of 2^64 to zero.
- ProgramBreak.Proc.BoxUnmap: the host refuses a piece of no bytes and no other.
- ProgramBreak.Proc.SysBrk: the host's `mmap` is a parameter, and the loader's placement of the break region is the class invariant.
- ProgramBreak.Proc.Serve: placed mappings of no pages are excluded, as for MapAny.
- Concurrency of `queue.c`: only the sequential effect of each ring operation is stated; the flags that choose which locks to release do not match the locks taken.
- The steal loop of the multi-core scheduler, whose early exit is commented out.
- BoxMap.ExtAlloc.Alloc: requires a free run of the wanted length, since the scan is given a chunk count where it expects bytes and leaves the vector otherwise.
- BoxMap.AddSpace: boxes of one chunk, the only size the engine asks for; a region that is not full need not have a run of several chunks. Reserving regions from the operating system is not modelled.
- File descriptors: reference counts, duplication and explicit close; pipe ends are closed when their owner exits, in any order.
- Timer preemption inside runtime code: a thread is preempted only in user code.
- PipeTraps.FinishesIffForest: is about programs that make no further pipes once started; a thread that makes a pipe for itself can always block on it (PipeTraps.SelfPipeHangs).
- `get_next_runable`, `rrschedadd` and the loop of `rrschedstart`: single queue calls around the context switch; they are the steps Dispatch, Spawn and Preempt of the machine.
- Windows style paths, extension and basename editing, style guessing, intersection, and calls whose buffer overlaps a path.
- Integer widths in `cwalk.c`: counters and lengths are unbounded.
- ELF loading, stack images, system-call dispatch, host wrappers, bound registers, context switching and assembly.
