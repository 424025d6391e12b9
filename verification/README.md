# rocSHMEM verification project

rocSHMEM is an OpenSHMEM runtime for GPUs: processing elements (PEs) own
symmetric memory, form teams, and move and reduce data from inside GPU kernels.
This project models the parts of it that carry concurrent, bit-level or
arithmetic obligations, and proves what they keep over every input, every
interleaving and every run.

| module | what it models |
|---|---|
| `RingAllreduce`, `RingEntry` | the ring all-reduce of the IPC backend as an asynchronous protocol: every PE's copy of its source, puts, flags, waits and reductions are separate steps, taken in any order |
| `DirectAllreduce` | the direct all-reduce of the IPC backend, in the same style and against the same reference result |
| `TeamFlags` | the direct all-reduce on the array of flags a team's operations share |
| `RingSequence`, `DirectSequence`, `TeamSync`, `SyncFirst` | two collective operations in a row on one team's flags |
| `CallSequence` | any number of them, each started when all PEs returned from the one before |
| `Barrier` | the barrier behind `sync`, `sync_all` and `barrier_all`, entered any number of times |
| `ReducePlan` | how `reduce` cuts a request into ring segments, a shorter ring and a direct rest, and where the direct algorithm puts its data |
| `ReduceResult` | what a whole `reduce` leaves in every PE's destination |
| `HeapModel`, `Pow2Bins` | the symmetric heap's power-of-two allocator, as functions on values and as the class that changes its bins in place |
| `HeapExact` | what set-up, splits and allocations leave in every bin |
| `HeapSymmetry` | the allocators of two PEs side by side |
| `Coalescer`, `CoalescedWave`, `Wave` | the wavefront message coalescer, with 64-bit words, 32-bit shuffles and `int` sizes |
| `WaveTickets` | wave-aggregated fetch-and-increment |
| `PoolBitmask`, `TeamProtocol`, `TeamCreation`, `TeamTracker` | the distributed allocator of team slots: the bytes, the protocol between PEs, and one PE's bookkeeping |
| `TeamArithmetic` | strided splits, membership, translation and the communicator split |
| `FreeList`, `ContextPool` | the device's linked free list and the pool of device contexts kept in it |
| `TicketMutex`, `TicketWrap` | the array-based queueing lock that guards the free list, without and with tickets that wrap around |
| `CooperativeCopy` | `memcpy`, `memcpy_wg` and `memcpy_wave` |
| `IndexStrategy`, `DeviceArray` | index strategies and the array loops that use them |
| `WaitUntil` | `wait_until`, `wait_until_any`, `wait_until_all` and `wait_until_some` over memory that changes meanwhile |
| `Arithmetic`, `Counting`, `Options` | lemmas on multiplication, division and counting, and the option type, used by the others |

How concurrency is modelled: a protocol is a deterministic step function, and a
run is any sequence of actor names.  A step of an actor that cannot move leaves
the state as it is, so every interleaving, including unfair ones, is a run.
Memory that others change is a function from time and place to a value, about
which nothing is assumed.

## What the proofs say about the code

Some properties one would expect do not hold of the code as written.  For each
the project gives an input that shows it and the condition under which the
property does hold.

- **All-reduce calls in a row.**  One call, ring or direct, is correct, free of
  races and free of deadlock on every schedule.  Each PE clears its flags when it
  leaves, without a barrier.  If another call on the team's flags follows at once, a
  neighbour's new flag can be cleared, and a PE then waits forever.  This can happen
  for every team of two or more PEs: in two ring calls (`RingSequence.CallsCanHang`),
  two direct calls (`DirectSequence.DirectCallsCanHang`), and a ring call followed by
  a direct one (`DirectSequence.RingThenDirectCanHang`).  `reduce` itself makes such
  calls when the request is not a whole number of segments.  With one PE nobody ever
  waits (`RingSequence.NothingToWaitFor`, `DirectSequence.AloneNeverWaits`,
  `DirectSequence.MixedAloneNeverWaits`).
- **The team's own `sync` does not help.**  It uses the same flags.  For every team of
  two or more PEs it can hang after a ring call (`TeamSync.TeamSyncCanHang`) and after
  a direct call (`TeamSync.DirectSyncCanHang`), and a ring call after it can keep a PE
  in it forever (`SyncFirst.SyncThenRingCanHang`).  With one PE none of this happens
  (`TeamSync.AloneNeverWaits`, `TeamSync.DirectAloneNeverWaits`,
  `SyncFirst.NoDeadlockWithoutIterations`).
- **A barrier on other memory does.**  Ring calls, direct calls and syncs, in any order,
  find their flags cleared if each starts after all PEs returned from the one before
  (`CallSequence.CallsStartClean`).  `barrier_all` has flags of its own; nobody leaves it
  before everybody has entered it (`Barrier.NobodyLeavesEarly`), and it ends
  (`Barrier.NoDeadlock`, `Barrier.ProgressIsBounded`).
- **Number of flags cleared.**  It follows the size of the world, not of the team.  The
  ring's reset stays in the team's own 256 flags exactly in worlds of up to 129 PEs
  (`ReducePlan.RingResetFitsIff`); beyond, it clears flags of the next team
  (`ReducePlan.NextTeamResetExample`).
- **`reduce`.**  With its calls so separated, every requested element ends as the
  reduction of that element of all sources (`ReduceResult.ReduceCorrect`).  A request
  that is too large for the direct algorithm but shorter than one segment makes the
  ring combine a whole segment: past the end of the request the old destinations of
  all PEs are combined (`ReducePlan.PlanTilesExactly`, `ReducePlan.ShortRequestExample`).
  The larger work buffer it counts on for long requests never makes a difference
  (`ReducePlan.PlanChoice`).
- **Work slots of the direct algorithm.**  They are numbered by world PE but the
  room is tested by team size, and not at all for the rest of a ring reduction.
  They stay in the team's slice exactly if the last PE's slot does
  (`ReducePlan.SlotsFitIff`, `ReducePlan.SubteamSlotExample`,
  `ReducePlan.RestSlotExample`).
- **Coalescer.**  The combined size passes through an `int`; it is right exactly
  if it fits (`Coalescer.SentSizeExact`, `Coalescer.LargeMessageExample`), and
  `Coalescer.LeaderSendsSpanIff` says exactly when a leader moves the right bytes.
  A wave that asks for fewer than 2^64 - 2^31 bytes moves the right bytes if and only if
  each of its leaders does (`CoalescedWave.WaveExactIff`).  At that total two leaders that
  both go wrong can be right together (`CoalescedWave.BoundIsTight`).
- **`memcpy_wg`, `memcpy_wave`.**  For odd sizes of 3 and more the last byte is
  not copied: the extra store rewrites a byte that is already there
  (`CooperativeCopy.BlockCopyIsMemcpyIff`).  The wave version also needs its active
  lanes to start at lane 0 without a gap (`CooperativeCopy.WaveWritesIff`).
- **Team split.**  The range test uses `>` and the world's size, so it accepts a
  team that ends one PE past the world, or outside its parent
  (`TeamArithmetic.InWorldIff`, `TeamArithmetic.ContainedIff`).
- **Team creation.**  The check of a PE's own team count does not prevent the
  abort when the members' slots together are used up
  (`TeamProtocol.GuardIsNotEnough`, `TeamProtocol.AbortIffExhausted`).  A member that
  fails the check returns at once, and the others wait for it
  (`TeamProtocol.TeamNeedsAllChecks`, `TeamProtocol.WaitsUntilRelease`).
- **Symmetric heap.**  All legal calls give equal offsets on two PEs if and only if
  their heaps are aligned alike modulo 128 bytes or nothing of either is usable
  (`HeapSymmetry.SymmetricIff`); otherwise already a request for one byte gets
  different offsets (`HeapSymmetry.OneByteDiffers`).  Freeing restores the heap exactly
  if nothing was split (`HeapModel.AllocFreeIff`).
- **`wait_until_all`.**  The conditions need not have held together at any time
  (`WaitUntil.NeverTogetherExample`).  A condition holds at the return of every such wait
  if and only if it stays true once it is (`WaitUntil.HoldsAtReturnIff`).
- **Queue lock.**  With tickets that wrap around at 2^64 and 32 slots it excludes if and
  only if there are at most 2^64 - 31 threads (`TicketWrap.ExclusionIff`).

## Model

| member | source | states |
|---|---|---|
| `RingAllreduce.RunInv` | src/ipc/context_ipc_tmpl_device.hpp:308-359 | the protocol invariant (who may be how far ahead, what each work chunk, flag and destination chunk holds) is kept by every step of every schedule |
| `RingAllreduce.WaitChain` | src/ipc/context_ipc_tmpl_device.hpp:308-332 | a PE that passed its wait of an iteration proves how far each of its predecessors around the ring has got |
| `RingAllreduce.SuccessorClose` | src/ipc/context_ipc_tmpl_device.hpp:308-351 | from iteration n-2 on, a PE that passed a wait knows its successor is at most n-2 iterations behind |
| `RingAllreduce.FlagNotOverrun` | src/ipc/context_ipc_tmpl_device.hpp:322-327 | a flag compared by equality is not overwritten by the next segment's value before its reader saw it |
| `RingAllreduce.RingCorrect` | src/ipc/context_ipc_tmpl_device.hpp:308-359 | after every run in which all PEs returned, every PE's chunk is the combination of that chunk's inputs of all PEs, in the same ring order |
| `RingAllreduce.RingReduces` | src/ipc/context_ipc_tmpl_device.hpp:308-359 | for an associative and commutative operation that combination is the reduction in PE order, so all PEs agree with the sequential definition |
| `RingAllreduce.NoDeadlock` | src/ipc/context_ipc_tmpl_device.hpp:311-351 | in every reachable state in which not all PEs returned, some PE's next step makes progress |
| `RingAllreduce.ProgressIsBounded` | src/ipc/context_ipc_tmpl_device.hpp:308-352 | every step spins or advances by one, and the total of advances is bounded before the call starts |
| `RingAllreduce.NoRace` | src/ipc/context_ipc_tmpl_device.hpp:311-351 | in no reachable state do two PEs have conflicting accesses to work or destination memory pending |
| `RingEntry.Simulates` | src/ipc/context_ipc_tmpl_device.hpp:303-359 | every run in which each PE copies its source in its own time corresponds to a run of the protocol above, from any work buffers and destinations |
| `RingEntry.TargetHasEntered` | src/ipc/context_ipc_tmpl_device.hpp:303-341 | a PE whose destination is put into has made its copy before, so the copy cannot overwrite a result |
| `RingEntry.CallReduces` | src/ipc/context_ipc_tmpl_device.hpp:283-359 | after every run of the whole call in which all PEs returned, every PE holds the reduction of every chunk over all PEs' sources |
| `RingEntry.CallNoDeadlock` | src/ipc/context_ipc_tmpl_device.hpp:303-351 | unless all have returned, some PE's next step, copy included, makes progress |
| `RingEntry.CopyNoRace` | src/ipc/context_ipc_tmpl_device.hpp:303-341 | while a PE has yet to copy, no other PE's next step reads or writes its destination |
| `RingSequence.NextCallStartsClean` | src/ipc/context_ipc_tmpl_device.hpp:353-359 | when all PEs returned, all flags are cleared, so a next call, whatever its segments and data, starts as the first did |
| `RingSequence.CallsCanHang` | src/ipc/context_ipc_tmpl_device.hpp:353-401 | without a barrier between two calls, the second with any positive number of segments and any data, for every team of two or more PEs some run leaves a PE waiting forever whatever happens next |
| `RingSequence.Enters` | src/ipc/context_ipc_tmpl_device.hpp:353-401 | in such runs a PE enters the second call once, after it returned from the first |
| `RingSequence.NothingToWaitFor` | src/ipc/context_ipc_tmpl_device.hpp:308-351 | with one PE, or without segments in the second call, no PE ever waits in it |
| `DirectSequence.DirectCallsCanHang` | src/ipc/context_ipc_tmpl_device.hpp:188-224 | two direct calls without a barrier: for every team of two or more PEs some run keeps a PE in its first wait of the second call forever |
| `DirectSequence.Enters` | src/ipc/context_ipc_tmpl_device.hpp:188-224 | in such runs a PE enters the second call once, after it returned from the first |
| `DirectSequence.AloneNeverWaits` | src/ipc/context_ipc_tmpl_device.hpp:188-224 | with one PE every action in either of the two calls moves it forward until it returns |
| `DirectSequence.RingThenDirectCanHang` | src/ipc/context_ipc_tmpl_device.hpp:394-410 | so does some run of a ring call with a direct call after it, for every team of two or more PEs, wherever in the world they are |
| `DirectSequence.MixedEnters` | src/ipc/context_ipc_tmpl_device.hpp:394-410 | and the direct call once, after it returned from the ring |
| `DirectSequence.MixedAloneNeverWaits` | src/ipc/context_ipc_tmpl_device.hpp:394-410 | with one PE nobody waits in either call |
| `TeamSync.TeamSyncCanHang` | src/ipc/context_ipc_device_coll.cpp:101-111 | a ring call and then the team's sync on the same flags: for every team of two or more PEs, with either kind of barrier, some run leaves PE 0 waiting in the barrier forever |
| `TeamSync.AloneNeverWaits` | src/ipc/context_ipc_device_coll.cpp:101-111 | with one PE every action moves it on, in the ring and in the barrier |
| `TeamSync.DirectSyncCanHang` | src/ipc/context_ipc_device_coll.cpp:101-111 | a direct call and then the team's sync can hang in the same way, for every team of two or more PEs |
| `TeamSync.DirectEnters` | src/ipc/context_ipc_device_coll.cpp:101-111 | a PE enters the barrier only after it returned from the direct call |
| `TeamSync.DirectAloneNeverWaits` | src/ipc/context_ipc_device_coll.cpp:101-111 | with one PE every action moves it on, in the direct call and in the barrier |
| `SyncFirst.SyncThenRingCanHang` | src/ipc/context_ipc_device_coll.cpp:31-111 | the team's sync and then a ring call: for every team of two or more PEs some run leaves PE 1 in the barrier forever, its announcement replaced by the ring's first signal |
| `SyncFirst.Enters` | src/ipc/context_ipc_device_coll.cpp:31-111 | a PE enters the ring once, after it left the barrier |
| `SyncFirst.NoDeadlockWithoutIterations` | src/ipc/context_ipc_device_coll.cpp:31-111 | with one PE or without segments somebody can always move until all have returned from both |
| `Barrier.RunInv` | src/ipc/context_ipc_device_coll.cpp:31-99 | both kinds of barrier, any number of rounds: what every mark, counter and announcement says about how far each PE is, kept by every step |
| `Barrier.NobodyLeavesEarly` | src/ipc/context_ipc_device_coll.cpp:31-99 | no PE leaves its k-th barrier before every PE has entered its k-th |
| `Barrier.NoDeadlock` | src/ipc/context_ipc_device_coll.cpp:31-99 | once everybody has arrived, somebody inside can always move on |
| `Barrier.OutsideEnters` | src/ipc/context_ipc_device_coll.cpp:31-99 | a PE outside can always enter |
| `Barrier.ProgressIsBounded` | src/ipc/context_ipc_device_coll.cpp:31-99 | every step spins or raises a rank that is bounded by the number of barriers entered |
| `DirectAllreduce.DirectInv` | src/ipc/context_ipc_tmpl_device.hpp:167-224 | on every schedule, for every sender and receiver: data before flag, flag before combining, flags cleared only after all were seen, and each destination is the combination of what its PE has passed |
| `DirectAllreduce.DirectReduces` | src/ipc/context_ipc_tmpl_device.hpp:167-224 | each PE's copy of its source included, after every run in which all PEs returned, every PE holds the reduction in PE order, the same reference as for the ring, for an associative and commutative operation |
| `DirectAllreduce.DirectNoDeadlock` | src/ipc/context_ipc_tmpl_device.hpp:188-215 | in every reachable state in which not all PEs returned, some PE's next step makes progress |
| `DirectAllreduce.DirectProgress` | src/ipc/context_ipc_tmpl_device.hpp:188-222 | every step spins or moves its PE forward in program order, within a fixed bound |
| `DirectAllreduce.DirectNoRace` | src/ipc/context_ipc_tmpl_device.hpp:188-215 | no slot is combined while its owner may still be writing it |
| `DirectAllreduce.DirectLeavesClean` | src/ipc/context_ipc_tmpl_device.hpp:217-224 | when all PEs returned, every flag is cleared |
| `TeamFlags.IsDirect` | src/ipc/context_ipc_tmpl_device.hpp:167-224 | on the team's shared flags, numbered by world PE and cleared by world size, every run is one of the direct algorithm, and no flag but those of other PEs of the team is raised |
| `TeamFlags.DoneIsClean` | src/ipc/context_ipc_tmpl_device.hpp:217-224 | a PE that has returned has all its flags cleared, used by the algorithm or not |
| `TeamFlags.OthersUntouched` | src/ipc/context_ipc_tmpl_device.hpp:188-224 | from any flags, no run changes one past the number of PEs in the world |
| `CallSequence.RingLeavesClean` | src/ipc/context_ipc_tmpl_device.hpp:353-359 | from cleared flags a ring call, each PE's copy included, returns to cleared flags |
| `CallSequence.SyncLeavesClean` | src/ipc/context_ipc_device_coll.cpp:31-99 | so does the team's sync, of either kind |
| `CallSequence.SyncTouches` | src/ipc/context_ipc_device_coll.cpp:31-99 | the barrier of fewer than 64 PEs touches PE 0's flags 1 to n-1, that of more its flag 0, and flag 0 of the others, and no other |
| `CallSequence.CallsStartClean` | src/ipc/context_ipc_tmpl_device.hpp:217-410 | over every sequence of ring calls, direct calls and syncs, each started after all PEs returned from the one before, every one finds all flags cleared |
| `CallSequence.CleanIsEnough` | src/ipc/context_ipc_tmpl_device.hpp:167-359 | cleared flags are what the results about single calls start from |
| `ReducePlan.PlanChoice` | src/ipc/context_ipc_tmpl_device.hpp:366-376 | one direct call if and only if there are at most 256 PEs and their elements together are at most 1024, the larger buffer of long requests never making a difference; unsupported if and only if not and there are more than 128 |
| `ReducePlan.RingPlanExact` | src/ipc/context_ipc_tmpl_device.hpp:377-410 | otherwise whole segments of the largest multiple of the team's size up to 1024, at least one; then a ring for the rest's largest multiple, and a direct call for fewer elements than PEs |
| `ReducePlan.PlanTilesExactly` | src/ipc/context_ipc_tmpl_device.hpp:362-418 | the pieces tile the request exactly if and only if the direct algorithm is used or there is a whole segment; otherwise they tile one whole segment instead |
| `ReducePlan.ShortRequestExample` | src/ipc/context_ipc_tmpl_device.hpp:374-393 | 4 PEs reducing 300 elements combine 1024 |
| `ReducePlan.SlotsFitIff` | src/ipc/context_ipc_tmpl_device.hpp:188-213 | all slots of a team's direct call lie in its work slice if and only if the slot of its last world PE does |
| `ReducePlan.WorldSlotsFit` | src/ipc/context_ipc_tmpl_device.hpp:366-375 | for the world team the test that chooses the direct algorithm guarantees that, for elements of up to 8 bytes |
| `ReducePlan.SubteamSlotExample` | src/ipc/context_ipc_tmpl_device.hpp:366-375 | for the team of PEs 4 to 7 it does not |
| `ReducePlan.RestSlotExample` | src/ipc/context_ipc_tmpl_device.hpp:394-410 | nor is it guaranteed for the direct call that ends a ring reduction |
| `ReducePlan.ElementHasPlace` | src/ipc/context_ipc_tmpl_device.hpp:309-331 | every element of a ring piece has a segment, chunk and offset |
| `ReducePlan.ElementPlaceUnique` | src/ipc/context_ipc_tmpl_device.hpp:309-331 | and no two places are the same element |
| `ReducePlan.SlotsApart` | src/ipc/context_ipc_tmpl_device.hpp:188-213 | slots of different PEs do not overlap |
| `ReducePlan.InSlotIff` | src/ipc/context_ipc_tmpl_device.hpp:188-213 | a PE's slot is exactly the bytes of its elements in the work array |
| `ReducePlan.SlotInSliceIff` | src/ipc/context_ipc_tmpl_device.hpp:188-213 | a slot fits if and only if all its bytes are in the slice |
| `ReducePlan.ResetsCover` | src/ipc/context_ipc_tmpl_device.hpp:217-359 | the flags cleared on leaving include all that the algorithms use |
| `ReducePlan.RingResetFitsIff` | src/ipc/context_ipc_tmpl_device.hpp:353-359 | the ring clears only its own team's flags if and only if the world has at most 129 PEs |
| `ReducePlan.DirectResetFitsIff` | src/ipc/context_ipc_tmpl_device.hpp:217-224 | the direct algorithm does if and only if it has at most 256 |
| `ReducePlan.NextTeamResetExample` | src/ipc/context_ipc_tmpl_device.hpp:353-359 | two of 130 PEs reducing 4096 elements clear the next team's first two flags |
| `ReduceResult.PieceReduced` | src/ipc/context_ipc_tmpl_device.hpp:362-418 | one ring or direct call of a plan, run to its end on any schedule, leaves the reduction of each of its elements on every PE |
| `ReduceResult.PlanOk` | src/ipc/context_ipc_tmpl_device.hpp:376-410 | every ring call of a plan is for whole chunks, one per PE |
| `ReduceResult.ReduceCorrect` | src/ipc/context_ipc_tmpl_device.hpp:362-418 | for every team, request and run: each requested element is the reduction of that element of all sources on every PE, a short request's excess is the reduction of the old destinations, and all else is unchanged |
| `ReduceResult.EndIs` | src/ipc/context_ipc_tmpl_device.hpp:366-393 | elements past the request are combined only if it is too large for a direct call and shorter than a segment, and then up to the segment's end |
| `ReduceResult.SmallReduceStaysInside` | src/ipc/context_ipc_tmpl_device.hpp:366-376 | at most 256 PEs with at most 1024 elements together: one direct call, and nothing past the request changes |
| `HeapModel.HeapSafeOverAllRuns` | src/memory/pow2_bins.hpp:90-152 | after any legal calls on a fresh heap, every cell of the aligned heap is in exactly one place, a free record or a user's block, and no cell outside is |
| `HeapModel.AllocKeeps` | src/memory/pow2_bins.hpp:90-125 | an allocation, with all the splitting it causes, keeps every cell in exactly one place and every record aligned and of its bin's size |
| `HeapModel.FreeKeeps` | src/memory/pow2_bins.hpp:149-152 | so does a release |
| `HeapModel.SplitConserves` | src/memory/pow2_bins.hpp:264-287 | the recursive split of larger bins neither loses nor duplicates a cell |
| `HeapModel.SplitFillsIff` | src/memory/pow2_bins.hpp:240-287 | it fills the empty bin if and only if some larger bin has a record, and changes nothing otherwise |
| `HeapExact.SplitExact` | src/memory/pow2_bins.hpp:264-287 | the smallest larger bin with a record gives up its top one and no other changes above it; each bin between gets one record and the empty bin two, at the addresses the halving gives |
| `HeapModel.NoOverlap` | src/memory/pow2_bins.hpp:294-319 | blocks the user holds lie in the heap and overlap neither each other nor free memory |
| `HeapModel.AllocIff` | src/memory/pow2_bins.hpp:90-125 | an allocation succeeds if and only if the request is positive, a record size fits it, and that bin or a larger one has a record; the block is aligned, new, and of the smallest size that fits; a failure changes nothing |
| `HeapExact.AllocExact` | src/memory/pow2_bins.hpp:90-125 | the block is the start of the top record of the smallest bin that fits and has one; that bin loses it, each bin from the request's own up to it gets one record, all others keep theirs |
| `HeapExact.LargerBinsKept` | src/memory/pow2_bins.hpp:264-287 | if a bin that fits has a record, no larger one is touched |
| `HeapExact.FreeExact` | src/memory/pow2_bins.hpp:138-152 | a freed block goes on top of the bin of its size and nothing else changes |
| `HeapModel.AllocFreeIff` | src/memory/pow2_bins.hpp:138-152 | freeing what was just allocated restores the heap if and only if no record was split for it |
| `HeapModel.BinCountBounds` | src/memory/binner.hpp:77-134 | the bins are exactly those of the power-of-two sizes from 128 bytes up to the heap's size |
| `HeapModel.InitValid` | src/memory/binner.hpp:139-231 | the first heap holds each cell of the aligned memory once, down to the last whole 128 bytes |
| `HeapExact.InitExact` | src/memory/binner.hpp:190-231 | each bin of the first heap has one record or none, as the bits of the heap's size are, the largest first |
| `HeapExact.FreshHeapServesIff` | src/memory/binner.hpp:190-231 | a fresh heap serves a request if and only if the record size that fits it is no more than its memory |
| `HeapSymmetry.InitMovedIff` | src/memory/binner.hpp:173-185 | two PEs' first heaps are copies of each other if and only if their memory is aligned alike or nothing of either is usable |
| `HeapSymmetry.SameOffsets` | src/memory/pow2_bins.hpp:90-152 | any call sequence on two heaps that differ only in where they lie returns the same offsets and keeps them so |
| `HeapSymmetry.SymmetricIff` | src/memory/symmetric_heap.hpp:63-70 | all legal call sequences return the same offsets from the heap's base on two PEs if and only if their memory is aligned alike or nothing of either is usable |
| `HeapSymmetry.OneByteDiffers` | src/memory/binner.hpp:173-185 | otherwise a request for one byte gets different offsets |
| `Pow2Bins.Allocator.constructor` | src/memory/pow2_bins.hpp:79-82 | the bins built in place are the first heap of the model, and valid |
| `Pow2Bins.Allocator.AssignHeapMemoryToBins` | src/memory/binner.hpp:190-195 | the loop over chunks computes the model's assignment |
| `Pow2Bins.Allocator.AssignHeapChunk` | src/memory/binner.hpp:208-231 | the reverse search finds the largest bin that fits; the rest of the chunk is returned |
| `Pow2Bins.Allocator.IgnoreUnaligned` | src/memory/binner.hpp:173-185 | the start moves to the next multiple of 128, by less than 128, and the size shrinks by as much |
| `Pow2Bins.Allocator.SplitLargerBin` | src/memory/pow2_bins.hpp:264-287 | the in-place recursion computes the model's split |
| `Pow2Bins.Allocator.RetrieveRecordFromBin` | src/memory/pow2_bins.hpp:216-248 | the top record after an attempt to fill the bin, or the empty record and nothing taken |
| `Pow2Bins.Allocator.Alloc` | src/memory/pow2_bins.hpp:90-125 | exact match first and then the smallest fit together do what one allocation of the model does, and keep the heap valid |
| `Pow2Bins.Allocator.Free` | src/memory/single_heap.cpp:45-50 | null is ignored; a held block returns to its bin, and the heap stays valid |
| `Coalescer.CoalescableIff` | src/wf_coal_policy.cpp:66-125 | splitting addresses into 32-bit halves and recombining them loses nothing: a lane is coalescable exactly if the lane below is active and this message continues that one |
| `Coalescer.CoalMsgsExact` | src/wf_coal_policy.cpp:146-160 | shift, inversion and find-first-set count exactly the lanes that follow, for lane 63 under either reading of its 64-bit shift |
| `Wave.ShiftByWidth` | src/wf_coal_policy.cpp:146-160 | the two readings of a shift by 64: nothing, or the word itself |
| `Wave.FindFromNone` | src/wf_coal_policy.cpp:146-160 | find-first-set is 0 exactly if no bit is set |
| `Coalescer.SpansPartition` | src/wf_coal_policy.cpp:100-171 | every active lane is in exactly one sending lane's span, and no inactive lane is in any |
| `Coalescer.InactiveBreaksRun` | src/wf_coal_policy.cpp:100-125 | no run passes through an inactive lane |
| `Coalescer.SentSizeExact` | src/wf_coal_policy.cpp:146-171 | the size a leader sends is its span's total if and only if the total survives conversion to `int` and back |
| `Coalescer.SentPattern` | src/wf_coal_policy.cpp:146-171 | in any case the size sent agrees with the span's total modulo 2^32 and is the 64-bit pattern of an `int` |
| `Coalescer.LargeMessageExample` | src/wf_coal_policy.cpp:146-171 | one message of 2^31 bytes is sent with another size |
| `Coalescer.LeaderSendsSpanIff` | src/wf_coal_policy.cpp:146-171 | a leader moves exactly the bytes its span's lanes asked for, each as often, if and only if the span's total is below 2^31, or is the leader's own size and at least 2^64 - 2^31 |
| `Coalescer.CoalescingPreservesBytes` | src/wf_coal_policy.cpp:57-172 | when that holds of every leader, each byte transfer (PE, source, destination) happens exactly as often as it was requested |
| `Coalescer.LeadersCanCompensate` | src/wf_coal_policy.cpp:146-172 | that is not necessary for the wave as a whole: two leaders that both send a wrong size move exactly the requested bytes together |
| `CoalescedWave.SpansAddUp` | src/wf_coal_policy.cpp:100-171 | the leaders' span totals add up to what the active lanes asked for |
| `CoalescedWave.SentBound` | src/wf_coal_policy.cpp:146-171 | a leader sends at most its span's total, or at least 2^64 - 2^31 bytes |
| `CoalescedWave.WaveExactIff` | src/wf_coal_policy.cpp:57-172 | a wave that asks for fewer than 2^64 - 2^31 bytes moves each byte exactly as often as requested if and only if every leader's total survives |
| `CoalescedWave.BoundIsTight` | src/wf_coal_policy.cpp:57-172 | at 2^64 - 2^31 bytes that fails |
| `Coalescer.SmallMessagesPreserved` | src/wf_coal_policy.cpp:57-172 | in particular for all messages below 2^25 bytes |
| `WaveTickets.LaneIdIsRank` | src/containers/share_strategy.cpp:96-202 | the per-lane masks and population counts compute the number of active lanes below |
| `WaveTickets.LeaderIffRankZero` | src/containers/share_strategy.cpp:64-94 | the lane chosen by find-first-set is the one active lane with logical id 0 |
| `WaveTickets.BroadcastUp` | src/containers/share_strategy.cpp:204-212 | every active lane ends with the leader's value, for every active set and every value including 0 |
| `WaveTickets.BlockFetchIncr` | src/containers/share_strategy.hpp:70-83 | active lanes get the old counter plus their rank, modulo 2^64, and the counter grows by their number |
| `WaveTickets.PrivateTickets` | src/containers/share_strategy.hpp:138-143 | n calls of the unshared fetch-and-increment hand out the n tickets of the simple counter, the same list a wave's one add is compared with |
| `WaveTickets.StrategyFetchIncr` | src/containers/share_strategy.hpp:166-186 | lanes that target different PEs get tickets of their own PE's counter only |
| `WaveTickets.WaveRefinesCounter` | src/containers/share_strategy.hpp:70-83 | one add per wave hands out the same tickets in the same lane order as one increment per active lane |
| `WaveTickets.TicketsOverAllRuns` | src/containers/share_strategy.hpp:70-83 | for every interleaving of waves, each ticket has been issued as often as by a simple counter that served as many lanes |
| `WaveTickets.PhaseIs` | src/containers/share_strategy.hpp:70-83 | every wave's first step adds and its second returns a ticket for each active lane, whatever the others do |
| `WaveTickets.TicketsDistinctGapFree` | src/containers/share_strategy.hpp:70-83 | up to 2^64 served lanes tickets are distinct and without gap, over every interleaving |
| `PoolBitmask.LeastNonZeroBit` | src/gpu_ib/backend_ib.cpp:56-68 | the search by bytes and bits returns the least free slot below the limit, -1 if there is none |
| `PoolBitmask.FreeBandAll` | src/gpu_ib/backend_ib.cpp:211-217 | a slot is free in the reduced bytes if and only if it is free at every member |
| `PoolBitmask.BytesChooseLeastCommon` | src/gpu_ib/backend_ib.cpp:202-225 | reducing bytes and searching bits computes the least element of the intersection of the members' free sets |
| `PoolBitmask.FreeClearBit` | src/gpu_ib/backend_ib.cpp:219-225 | clearing a bit in its byte removes that slot and no other |
| `PoolBitmask.FreeSetBit` | src/gpu_ib/backend_ib.cpp:240-250 | setting a bit adds that slot and no other |
| `PoolBitmask.BitIsShift` | src/gpu_ib/backend_ib.cpp:219-250 | the bit of a slot within its byte is one shifted left by its number |
| `PoolBitmask.BitmaskSizeIs` | src/gpu_ib/backend_ib.cpp:427-450 | the mask has no byte too few and none too many |
| `PoolBitmask.Pool.constructor` | src/gpu_ib/backend_ib.cpp:438-450 | the initial mask shows exactly the slots 1 to max-1 as free |
| `PoolBitmask.Pool.CreateNewTeam` | src/gpu_ib/backend_ib.cpp:202-238 | the least common free slot is taken, or nothing changes |
| `PoolBitmask.Pool.TeamDestroy` | src/gpu_ib/backend_ib.cpp:240-250 | the slot is free again and no other changes |
| `TeamProtocol.SafeOverAllRuns` | src/gpu_ib/backend_ib.cpp:202-250 | the protocol invariant is kept over every interleaving of contributions, completions and releases on all PEs |
| `TeamProtocol.PoolSafety` | src/gpu_ib/backend_ib.cpp:202-250 | always a PE's free slots are 1 to max-1 without those of its teams, its teams have different slots, and it has at most max-1 teams |
| `TeamProtocol.SameSlotEverywhere` | src/gpu_ib/backend_ib.cpp:211-225 | all members of a team have it in the same slot, the least one that was free at each of them |
| `TeamProtocol.ContributeWorks` | src/gpu_ib/backend_ib.cpp:202-217 | a running member that passes the check enters the all-reduce with its free slots |
| `TeamProtocol.CompleteWorks` | src/gpu_ib/backend_ib.cpp:211-225 | in every reachable state a member blocked in a complete creation runs on with the team in the least slot free at all members, or aborts if there is none |
| `TeamProtocol.ReleaseWorks` | src/gpu_ib/backend_ib.cpp:240-250 | a released slot is free again and nothing else changes |
| `TeamCreation.CreationEnds` | src/gpu_ib/backend_ib.cpp:202-238 | once all members have contributed and completed, all have the team in the least slot that was free at all of them, or all have aborted because there was none |
| `TeamProtocol.AbortIffExhausted` | src/gpu_ib/backend_ib.cpp:219-225 | a creation aborts if and only if the members' teams together use all slots |
| `TeamProtocol.GuardSuffices` | src/rocshmem.cpp:229-234 | the check of the own team count rules the abort out when that member holds every slot any member holds |
| `TeamProtocol.GuardIsNotEnough` | src/rocshmem.cpp:229-234 | a reachable state with three slots in which all members pass the check and the creation aborts |
| `TeamProtocol.TeamNeedsAllChecks` | src/rocshmem.cpp:229-234 | a team comes about only if each of its members passed the check of its team count before |
| `TeamProtocol.WaitsUntilRelease` | src/rocshmem.cpp:229-234 | while a member has too many teams and gives none up, the others stay in the collective creation |
| `TeamProtocol.SlicesDisjoint` | src/gpu_ib/backend_ib.cpp:383-411 | over every run, the sync and work slices of a PE's teams are inside the pool, disjoint from each other and from the world team's slice |
| `TeamProtocol.InSliceIff` | src/gpu_ib/backend_ib.cpp:383-411 | a slice is exactly the elements the set-up gives a slot |
| `TeamTracker.Backend.Split` | src/rocshmem.cpp:221-303 | too many teams, invalid parent, bad arguments, not a member, abort and success, each under its exact condition in the source's order; on success the new team is tracked in the least slot free everywhere, otherwise nothing is |
| `TeamTracker.Backend.CreateTeam` | src/rocshmem.cpp:290-300 | the members' part: an abort if and only if no common slot is free |
| `TeamTracker.Backend.TeamDestroy` | src/rocshmem.cpp:305-314 | invalid and world teams are ignored; another team is removed from the list, which keeps its order, destroyed once, and its slot is free again |
| `TeamTracker.Backend.DestroyAll` | src/team_tracker.hpp:74-80 | afterwards every team ever created was destroyed exactly as often as it was created, and the mask is as at the start |
| `TeamTracker.Backend.Track` | src/team_tracker.cpp:36-41 | valid handles are appended, the invalid one is not |
| `TeamTracker.Backend.Untrack` | src/team_tracker.cpp:43-47 | the first occurrence is removed and the order of the rest is kept |
| `TeamTracker.Backend.TrackedCount` | src/team_tracker.hpp:87-94 | in every valid state at most max-1 teams are tracked |
| `TeamArithmetic.MembershipExact` | src/team.cpp:93-111 | the three membership computations agree for every PE despite truncating division, return the member's index, and return -1 exactly for PEs outside the team |
| `TeamArithmetic.TruncExact` | src/team.cpp:93-111 | division truncates towards zero: the remainder is smaller than the divisor and has the sign of the dividend |
| `TeamArithmetic.WorldRoundTrip` | src/team.cpp:86-111 | `get_pe_in_my_team` inverts `get_pe_in_world` |
| `TeamArithmetic.TranslationExact` | src/team.cpp:51-64 | translating there and back is the identity, and -1 says exactly that the PE is not in the other team |
| `TeamArithmetic.TranslateInvalid` | src/team.cpp:51-64 | an invalid team on either side gives -1 |
| `TeamArithmetic.InWorldIff` | src/rocshmem.cpp:253-256 | an accepted team lies in the world if and only if its last PE is not the world's size |
| `TeamArithmetic.OnePastTheWorldExample` | src/rocshmem.cpp:253-256 | with four PEs the team of PEs 1 and 4 is accepted |
| `TeamArithmetic.SplitIff` | src/rocshmem.cpp:242-256 | a request is accepted if and only if start is an index of the parent, size between 1 and the parent's, stride positive and its last PE at most the world's size; the new team is the parent's members it names |
| `TeamArithmetic.FittingIsAccepted` | src/rocshmem.cpp:242-256 | every sane request that fits a parent in the world is accepted |
| `TeamArithmetic.ContainedIff` | src/rocshmem.cpp:242-256 | an accepted team lies in its parent if and only if its last index fits the parent |
| `TeamArithmetic.ChainComposes` | src/rocshmem.cpp:248-272 | for every chain of splits that fit, the last team's world triplet agrees with composing the relative triplets, inside the first team |
| `TeamArithmetic.ChainMembers` | src/rocshmem.cpp:248-272 | its members are distinct PEs of the world |
| `TeamArithmetic.ChainIsAccepted` | src/rocshmem.cpp:242-272 | such a chain's splits are all accepted, one after another |
| `TeamArithmetic.JoinsIff` | src/rocshmem.cpp:209-219 | a parent's member joins exactly if the request names it, with the index the request gives it |
| `TeamArithmetic.RankCountsIndices` | src/rocshmem.cpp:258-283 | ordering the joining members by key is ordering them by index in the parent |
| `TeamArithmetic.RankIsMyPe` | src/rocshmem.cpp:258-283 | the rank from the colour and key split, the number of joining members with a smaller key, equals the index the PE computed for itself |
| `TeamArithmetic.CommunicatorSizeIff` | src/rocshmem.cpp:274-283 | the communicator has the requested size if and only if the split fits the parent |
| `FreeList.FirstInFirstOut` | src/containers/free_list_impl.hpp:64-137 | over every sequence of host pushes, device pushes and pops: first in, first out, nothing lost or duplicated, and each allocated node is queued or recycled |
| `FreeList.List.Separate` | src/containers/free_list.hpp:48-51 | queue and recycled stack are acyclic and share no node |
| `FreeList.Replay` | src/containers/free_list_impl.hpp:64-137 | the linked list executes every such sequence as the queue does, and its nodes are exactly those the host allocated |
| `FreeList.List.HostPushBack` | src/containers/free_list_impl.hpp:98-110 | appends one element in a new node, or fails and changes nothing when there is no memory |
| `FreeList.List.DevicePushBack` | src/containers/free_list_impl.hpp:77-91 | appends in the top recycled node; fails, changing nothing, if and only if there is none |
| `FreeList.List.PopFront` | src/containers/free_list_impl.hpp:116-137 | removes the oldest element and recycles its node |
| `FreeList.List.PushBackRange` | src/containers/free_list_impl.hpp:64-75 | appends the elements in order up to the first for which there is no memory, and reports whether there was one |
| `FreeList.List.DeallocateAllNodes` | src/containers/free_list_impl.hpp:37-55 | frees exactly the allocated nodes, each once, and leaves the list empty |
| `FreeList.List.AllocateNode` | src/containers/free_list.hpp:194-200 | takes the top of the recycled stack and leaves the rest linked |
| `FreeList.List.InsertNodeAtTail` | src/containers/free_list.hpp:207-217 | the node becomes the last one and `tail` points to it, also when the queue was empty |
| `FreeList.List.DeallocateNode` | src/containers/free_list.hpp:225-229 | the node becomes the top of the recycled stack |
| `ContextPool.ConservedOverAllRuns` | src/gpu_ib/backend_ib.cpp:127-159 | over every run of creates and matching destroys, free and used contexts partition all contexts, recycled nodes equal contexts in use, and no unchecked push ever fails |
| `ContextPool.RunStep` | src/gpu_ib/backend_ib.cpp:127-159 | in every such run a creation takes one more context unless all are in use, and a destruction frees exactly the one it names |
| `ContextPool.CreateConserved` | src/gpu_ib/backend_ib.cpp:127-138 | creation fails if and only if all contexts are in use; otherwise it gives one that is not |
| `ContextPool.DestroyConserved` | src/gpu_ib/backend_ib.cpp:157-159 | the push of a destroyed context always succeeds |
| `ContextPool.Backend.SetupCtxs` | src/gpu_ib/backend_ib.cpp:269-280 | the list holds every context once, in order |
| `ContextPool.Backend.CreateCtx` | src/gpu_ib/backend_ib.cpp:127-138 | the linked list does what the model's creation does |
| `ContextPool.Backend.DestroyCtx` | src/gpu_ib/backend_ib.cpp:157-159 | the linked list does what the model's destruction does, and the ignored result is always true |
| `TicketMutex.MutualExclusion` | src/sync/abql_block_mutex.cpp:29-60 | on every schedule of any number of threads at most one is inside, also when more threads wait than there are slots |
| `TicketMutex.FirstComeFirstServed` | src/sync/abql_block_mutex.cpp:40-60 | the lock is granted in ticket order and skips nobody |
| `TicketMutex.NoLostWakeup` | src/sync/abql_block_mutex.cpp:50-60 | while anybody holds or waits for the lock, the thread with the next ticket can move, and only it among those |
| `TicketWrap.WrapSimulates` | src/sync/abql_block_mutex.cpp:29-60 | with tickets that wrap around and few enough threads, every run goes through the phases of the run with unbounded tickets |
| `TicketWrap.ExclusionIff` | src/sync/abql_block_mutex.cpp:29-60 | exclusion holds on all runs if and only if threads and slots together are at most one more than the number of tickets |
| `TicketWrap.WrapNoLostWakeup` | src/sync/abql_block_mutex.cpp:50-60 | and then, while anybody holds or waits for the lock, some such thread can move |
| `CooperativeCopy.Memcpy` | src/util.hpp:170-186 | copies every byte of the region for every size and no other |
| `CooperativeCopy.CopyThread` | src/util.hpp:188-262 | one thread's loops carry out its list of stores, the extra store of odd sizes included |
| `CooperativeCopy.BlockCopy` | src/util.hpp:188-224 | all threads' loops leave the source bytes up to the even part (all for size 1) and old bytes from there |
| `CooperativeCopy.ThreadCovers` | src/util.hpp:203-223 | the extra store hits a byte the thread stored before, except for size 1 |
| `CooperativeCopy.PassesCover` | src/util.hpp:203-218 | a thread's 8, 4 and 2 byte passes cover exactly the even part of the chunks it takes |
| `CooperativeCopy.AnyOrder` | src/util.hpp:188-262 | whatever the order of all threads' stores, covered bytes come from the source and all others keep their value |
| `CooperativeCopy.BlockWrites` | src/util.hpp:188-224 | each byte up to the even part is stored by exactly one thread of the block, and no other byte by any |
| `CooperativeCopy.BlockCopyResult` | src/util.hpp:188-224 | for every size, block size and order: source bytes up to the even part (all for size 1), old bytes from there |
| `CooperativeCopy.BlockCopyIsMemcpyIff` | src/util.hpp:188-224 | this is what `memcpy` leaves if and only if the size is even or 1, or the last byte was already right |
| `CooperativeCopy.WaveWritesIff` | src/util.hpp:226-262 | `memcpy_wave` reaches the same bytes if and only if the active lanes start at lane 0 without a gap, as far as there are chunks |
| `CooperativeCopy.WaveWritesOnce` | src/util.hpp:226-262 | with such lanes no byte is stored by two lanes |
| `CooperativeCopy.WaveCopyResult` | src/util.hpp:226-262 | with such lanes the result is that of `memcpy_wg`, in every order |
| `IndexStrategy.FlatRoundTrip` | src/util.hpp:100-134 | flattening three-dimensional ids is injective and stays below the volume |
| `IndexStrategy.UnflatRoundTrip` | src/util.hpp:100-134 | and reaches every number below it |
| `IndexStrategy.TilesContiguous` | src/containers/index_strategy.hpp:286-350 | tiles follow one another, the last ends at n, and sizes differ by at most one, larger ones first |
| `IndexStrategy.TilesPartition` | src/containers/index_strategy.hpp:286-350 | every index is in exactly one tile |
| `IndexStrategy.TDBCPartition` | src/containers/index_strategy.hpp:286-350 | every index is visited by exactly one thread of exactly one block, its tile's, the thread given by the place in the tile |
| `IndexStrategy.TDBDPartition` | src/containers/index_strategy.hpp:236-284 | every index is visited by exactly one thread of the grid, the one whose global id is the index modulo the number of threads |
| `IndexStrategy.NothingElse` | src/containers/index_strategy.hpp:236-350 | no thread visits an index outside the container |
| `IndexStrategy.GlobalIdExact` | src/containers/index_strategy.hpp:138-186 | global ids are the numbers below the number of threads, each determined by and determining block and thread |
| `DeviceArray.OneThreadVisits` | src/containers/array_impl.hpp:106-138 | every index of the range belongs to exactly one thread, and no other to any |
| `DeviceArray.HostFill` | src/containers/array_impl.hpp:99-104 | the range is filled and nothing else changes |
| `DeviceArray.FillThread` | src/containers/array_impl.hpp:106-113 | a thread fills exactly the indices it visits, cut at the array's end |
| `DeviceArray.DeviceFill` | src/containers/array_impl.hpp:106-113 | the single stores of all threads in any order give the host's result |
| `DeviceArray.HostCopy` | src/containers/array_impl.hpp:120-128 | the range is copied and nothing else changes |
| `DeviceArray.CopyThread` | src/containers/array_impl.hpp:130-138 | a thread copies exactly the indices it visits |
| `DeviceArray.DeviceCopy` | src/containers/array_impl.hpp:130-138 | the single stores of all threads in any order give the host's result |
| `WaitUntil.TestIsOrder` | src/context_tmpl_device.hpp:337-377 | each comparison is true of exactly the values below, equal to or above the other that its name says |
| `WaitUntil.TestLaws` | src/context_tmpl_device.hpp:337-377 | exactly one of LT, EQ and GT holds, NE, GE and LE are negations, LT and GT swap with the operands, and raising a value keeps GT |
| `WaitUntil.StatusEntry` | src/context_tmpl_device.hpp:208-218 | the first unmasked element, or the number of elements |
| `WaitUntil.WaitUntilOne` | src/context_tmpl_device.hpp:201-206 | for every memory: it returns at the first read that finds the condition true |
| `WaitUntil.WaitUntilValue` | src/context_tmpl_device.hpp:201-206 | in terms of memory: the value read last stands to the given one as asked, and none read before did |
| `WaitUntil.WaitUntilAny` | src/context_tmpl_device.hpp:220-248 | for every memory: an error exactly without unmasked elements; otherwise the element of the first read, sweep after sweep, that found its condition true |
| `WaitUntil.ReadsReach` | src/context_tmpl_device.hpp:233-246 | within as many reads as there are elements every unmasked element is read |
| `WaitUntil.ReadOrder` | src/context_tmpl_device.hpp:233-246 | the unmasked elements are read in increasing order, sweep after sweep |
| `WaitUntil.AnyIsSeen` | src/context_tmpl_device.hpp:220-248 | the value of the element returned was as asked, and that of no read before |
| `WaitUntil.AnyReturns` | src/context_tmpl_device.hpp:220-248 | once an unmasked condition holds for good, one more sweep is enough |
| `WaitUntil.WaitUntilAll` | src/context_tmpl_device.hpp:250-274 | for every memory: it returns with the read at which the last unmasked element, waited for one by one, was found true |
| `WaitUntil.AllHeldInOrder` | src/context_tmpl_device.hpp:250-274 | at the return each unmasked condition has held when read, at moments in index order |
| `WaitUntil.AllAreSeen` | src/context_tmpl_device.hpp:250-274 | each unmasked element's value was as asked when it was read |
| `WaitUntil.AllTogether` | src/context_tmpl_device.hpp:250-274 | conditions that stay true once they are true all hold at the return and from then on |
| `WaitUntil.CountersAllReached` | src/context_tmpl_device.hpp:250-274 | so all counters that never decrease are past the value they were waited for with "at least" or "greater" |
| `WaitUntil.NeverTogetherExample` | src/context_tmpl_device.hpp:250-274 | a memory in which the wait returns and its two conditions never hold at the same time |
| `WaitUntil.HoldsAtReturnIff` | src/context_tmpl_device.hpp:250-274 | a condition holds at the return of every wait for it, alone or with others, if and only if it stays true once it is true |
| `WaitUntil.ReturnsOnce` | src/context_tmpl_device.hpp:250-274 | the number of reads after which the wait returns is determined |
| `WaitUntil.AllReturns` | src/context_tmpl_device.hpp:250-274 | once all unmasked conditions hold for good, as many more reads as there are elements are enough |
| `WaitUntil.WaitUntilSome` | src/context_tmpl_device.hpp:276-310 | for every memory: the result is what the first sweep that found anything found; nothing, without waiting, exactly without unmasked elements |
| `WaitUntil.HeldExact` | src/context_tmpl_device.hpp:276-310 | that list holds exactly the unmasked elements whose condition held when the sweep read them |
| `WaitUntil.SomeAreSeen` | src/context_tmpl_device.hpp:276-310 | that is, those whose value was as asked when read |
| `WaitUntil.HeldIncreasing` | src/context_tmpl_device.hpp:276-310 | in strictly increasing order |
| `WaitUntil.SomeReturns` | src/context_tmpl_device.hpp:276-310 | once an unmasked condition holds for good, the next sweep finds it |

## Left out

- Broadcast, all-to-all and collect of the IPC backend, and the InfiniBand backend's collectives: not modelled.
- RingAllreduce.RingCorrect: starts with the sources already copied; `RingEntry.Simulates` adds each PE's own copy.
- DirectAllreduce.DirectReduces: slots are taken to be distinct memory of each receiver; `ReducePlan.SlotsApart` shows that they are, and `ReducePlan.SlotsFitIff` when they lie in the team's slice.
- ReduceResult.ReduceCorrect: each call of a plan starts after all PEs returned from the one before, since the source's calls in a row can hang otherwise; the PEs' programs around a barrier are not modelled as one state machine.
- A ring call after a direct call, and a direct call after the team's sync, without a barrier in between: not modelled.
- RingAllreduce.RunInv: a reset clears all flags of the PE; `ReducePlan.ResetsCover` shows that the source's count covers all that are used.
- Memory order, fences, inline assembly and caching: each put of a chunk, flag store, atomic add and load is one step in program order; `RingAllreduce.NoRace` justifies treating a chunk's copy as one step.
- MPI: an all-reduce delivers the AND of the contributed masks and a communicator split orders members by key; both are taken as given.
- HIP, HSA and InfiniBand set-up, IPC handle exchange and HDP polling: foreign calls.
- Integer overflow of `int` PE numbers, element counts and heap addresses: unbounded integers are used, except for 64-bit tickets, addresses and 32-bit sizes in `WaveTickets`, `TicketWrap` and `Coalescer`, which wrap as in the source.
- Coalescer.CoalescingPreservesBytes: goes one way; `CoalescedWave.WaveExactIff` is exact below 2^64 - 2^31 requested bytes, from where on the other way is false (`CoalescedWave.BoundIsTight`).
- WaitUntil: the values compared are mathematical integers; an endless loop is cut off after any number of reads and may then be still waiting.
- TicketMutex.MutualExclusion: tickets are unbounded; `TicketWrap.ExclusionIff` is about tickets that wrap around.
- CooperativeCopy.CopyThread: source and destination are different arrays of equal length and bytes keep their offset; overlapping regions are not modelled.
- CooperativeCopy.BlockCopy: runs the threads' loops one after another; `CooperativeCopy.BlockCopyResult` is about all orders of their stores.
- FreeList.List: the mutex is not repeated in it; each operation is one step, which `TicketMutex` justifies.
- ContextPool.Backend.SetupCtxs: the allocations of the set-up succeed; the source does not look at their result.
- Pow2Bins.Allocator.Free: freeing an address the user does not hold is not modelled, the source asserts that it does not happen.
- `SlabHeap`, `DevMonoLinear`, remote heap information and windows: not modelled; `realloc` and `malign` are stubs.
- Index strategies TDBP, TCBA and those of matrices: not modelled are that one block's threads divide a range (TDBP), that one thread runs through all of it (TCBA), and the fixed cell each thread gets in a matrix.
- `Matrix`, `ForwardList`, `Stats`, `OpWrap`, proxies and singletons: the layout of a matrix, the order of a list, counters, and who owns which object are not modelled.
- `wait_until_*_vector`: stubs in the source.
- API headers, macro tables, context dispatch and the test driver: forwarding only.
