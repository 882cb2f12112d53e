# tinyOS kernel: a verified model

This project models the parts of the tinyOS kernel whose correctness no single function
shows, and proves what they promise. tinyOS runs preemptively on one CPU. The model covers:

- **Threads and the run queue** (`Rotation`, `Threads`): the thread table, the round-robin
  queue behind a lock that panics instead of waiting, context switches, `reschedule` and the
  reaper, as one transition system. Every operation is cut at the points where a timer
  interrupt can land; only the current thread acts, and a context switch is one action.
  `HeapLock` adds the lock of the kernel heap to it.
- **Timed waits** (`TimedWaits`): `enqueue` of the wait observer in single steps, the timer
  heap, and the signal pass of the wait manager.
- **Locks** (`Locks`): the counting semaphore at the granularity of its atomic accesses
  (load, compare-exchange, fetch-add), used as mutex and as read-write lock.
- **Memory** (`Frames`, `Mappings`, `Aliases`, `Stacks`): the free list that lives inside the
  free frames, mapping and unmapping in any number of address spaces on top of it, aliasing
  memory between address spaces, and the slots of kernel and user stacks.
- **Pipes and descriptors** (`Pipes`): pipes, the handle counts kept by clone and drop hooks,
  and the descriptor calls that move handles between tables.
- **File system** (`Paths`, `Mounts`, `Listings`, `RamFiles`, `RamTree`): path strings, mount
  lookup, chunked directory listings, byte files and the directory tree of the RAM file
  system.

State that the kernel updates in place is a class with methods proved against specification
functions; protocols are transition systems, and their theorems are about every run.
`KernelTypes` holds the shared types. `dafny verify dfyconfig.toml` checks the whole project.

## Results that differ from the obvious reading

- The timer's promise holds once `enqueue` has returned, not before. Between `try_block` and
  the second test of the conditions a preempted thread can be left blocked with its node
  already consumed. `TimedWaits.WindowStrandsThread` is such a run, and
  `TimedWaits.UnarmedOnlyInWindow` shows that this is the only place where it can happen.
- The promise is made to each call whose caller is not blocked already when it makes it
  (`TimedWaits.CallLosesNoWakeup`), and to every call that blocked its caller itself
  (`TimedWaits.NoLostTimerWakeup`), with no condition on anything else in the run. A blocked
  thread can make a call, since its yield returns to it if and only if no runnable thread is
  queued (`Threads.YieldSwitchesAwayIff`); `TimedWaits.BlockedCallerIsUnarmed` is a run in which
  such a call returns early and the caller stays blocked without a node, and
  `TimedWaits.EarlyReturnIsBlockedIff` says exactly when that is so.
- `map_region_into` promises that the address it returns is where `from` is mapped to. That is
  false in three families of calls, each with an input: a stretch of 512 pages can run past the
  end of a larger page (`Aliases.StretchOverrunsLargePage`), a last page that the length covers
  in part is passed over if it lies in a larger page (`Aliases.PartOfLargePageIsSkipped`), and a
  range that crosses one page boundary more than the target's loses its last page
  (`Aliases.SecondPageIsMissed`). `Aliases.AliasIsExactIff` gives the exact condition for all
  arguments, whether or not donor and target are the same table, as they are in `mmap`.
- `munmap` frees the frames of aliased pages although the donor still maps them
  (`Aliases.UnmapFreesAliasedFrame`); `Aliases.UnmapIsSoundIff` says exactly when it does no harm.
- A thread that is being added is in the run queue before it is in the table, and can lose its
  place there (`Threads.AddedIsLost`). `Threads.AddedIsQueuedIff` says exactly when.
- A thread that must grow the run queue or the thread table while it holds their lock, and finds
  a preempted thread inside the heap allocator, stops for good together with that thread:
  `HeapLock.RunGetsStuck`, `HeapLock.StuckForever`. `HeapLock.BecomesStuckIff` and
  `HeapLock.HolderGetsOnIff` say exactly when.
- The canonical form of a path that resolves to the root is the empty string, which counts as
  relative. `Paths.CanonicalIsFixedPointIffNotRoot` states exactly when a canonical path is its
  own canonical form, and `Paths.RootIsNoFixedPoint` is the failing input.
- The current thread could leave the thread table in one way only: the reaper kills itself,
  keeps the CPU and comes to its own id (`Threads.RemovesCurrentIffSelfKilled`). The steps of the
  model allow that (`Threads.SelfKilledReaperRemovesItself`), the kernel's code does not: a
  thread that has killed itself only yields, and then the current thread is always in the table
  (`Threads.YieldingZombiesStayInTable`). A reaper killed by another thread does no harm.

## Assumptions

- Atomic accesses are sequentially consistent, and each is one step.
- Each `TaskManager` call (`kill`, `block`, `try_block`, `wake`) is one step.
- Usable memory regions lie below 4 GiB and do not overlap. For regions above, the boot code
  adds the direct mapping's offset to a physical address.
- The direct mapping starts on a page boundary, and addresses do not run over the end of the
  address space. Intermediate page tables are seen only as frames they occupy: `map_to` takes
  up to three frames, or fails.
- A call into the RAM file system is one step, although it locks one directory at a time, and
  no mount comes or goes while the mount table is listed.
- The binary heap of the timer queue is the multiset of its nodes, and its `peek` and `pop`
  take a least node of the order on nodes.
- A handle count does not reach the limit of its 64-bit counter.

## Model

| member | source | states |
|---|---|---|
| `Rotation.FirstRunnable` | kernel/src/kernel/threading/schedule/round_robin.rs:67-78 | everything before the position is not runnable, and what is there is |
| `Rotation.SwitchAt` | kernel/src/kernel/threading/schedule/round_robin.rs:65-80 | popping until a runnable id is found is a rotation around the first runnable position, or empties the queue |
| `Rotation.SwitchConserves` | kernel/src/kernel/threading/schedule/round_robin.rs:65-80 | a switch drops no runnable id, adds none, and answers nothing only if none was runnable |
| `Rotation.SwitchKeepsDistinct` | kernel/src/kernel/threading/schedule/round_robin.rs:65-80 | a queue without repetitions stays one |
| `Rotation.SwitchAdvances` | kernel/src/kernel/threading/schedule/round_robin.rs:65-80 | a runnable id is dispatched now or moves strictly towards the front |
| `Rotation.AheadGoesFirst` | kernel/src/kernel/threading/schedule/round_robin.rs:65-80 | while one runnable id stands ahead of another, the other is not dispatched, and dispatching the first swaps them |
| `Rotation.BehindWaits` | kernel/src/kernel/threading/schedule/round_robin.rs:65-80 | from behind, an id is dispatched only if the one ahead dropped out |
| `Rotation.UnrunnableStaysIff` | kernel/src/kernel/threading/schedule/round_robin.rs:65-80 | an id that cannot run stays queued exactly if one that can stands ahead of it |
| `Rotation.LazyRoundRobin.AddTask` | kernel/src/kernel/threading/schedule/round_robin.rs:82-84 | the id joins at the back |
| `Rotation.LazyRoundRobin.SwitchTask` | kernel/src/kernel/threading/schedule/round_robin.rs:65-80 | the popping loop computes the rotation |
| `Rotation.LazyRoundRobin.Refill` | kernel/src/kernel/threading/schedule/round_robin.rs:59-62 | the snapshot replaces the queue |
| `Threads.StepKeepsInv` | kernel/src/kernel/threading/schedule/mod.rs:77-125 | every step keeps: lock holders are current, queue and snapshots repeat no id, an id being added is in neither table nor snapshot, the reaper handles zombies only |
| `Threads.RunKeepsInv` | kernel/src/kernel/threading/schedule/round_robin.rs:36-84 | the same in every state of every run |
| `Threads.NoBlockIsNeverReached` | kernel/src/utils/sync/mod.rs:124-134 | in every run a thread that goes for the run queue's lock finds it free, so the panicking wait is unreachable; a held lock belongs to the current thread |
| `Threads.HeldLockKeepsTheCpu` | kernel/src/kernel/threading/schedule/mod.rs:83-99 | while the queue or the table is locked for writing, a context switch returns to the holder and leaves the queue alone |
| `Threads.QueueHoldsNoIdTwice` | kernel/src/kernel/threading/schedule/round_robin.rs:36-84 | in every interleaving of adding, inserting, snapshot, commit and switch the queue holds no id twice |
| `Threads.SwitchDropsOnlyUnrunnable` | kernel/src/kernel/threading/schedule/mod.rs:97-102 | a context switch takes from the queue only ids absent from the table or not Ready, and dispatches an id that is both |
| `Threads.SwitchRotates` | kernel/src/kernel/threading/schedule/mod.rs:83-102 | a context switch rotates the queue or leaves it untouched |
| `Threads.YieldSwitchesAwayIff` | kernel/src/kernel/threading/schedule/mod.rs:97-99 | with both locks free, a thread that is not Ready leaves the CPU by its yield if and only if a runnable thread is queued |
| `Threads.QueueOnlyGrowsOutsideSwitch` | kernel/src/kernel/threading/schedule/mod.rs:122-125 | apart from switch and commit, the queue changes only by a new id at its back |
| `Threads.DispatchedInTurn` | kernel/src/kernel/threading/schedule/round_robin.rs:65-80 | a thread at position p that stays runnable is dispatched within p + 1 successful switches if no reschedule commits |
| `Threads.AddedIsQueuedIff` | kernel/src/kernel/threading/schedule/mod.rs:122-125 | an added thread is in the run queue when it is in the table if and only if since its push no reschedule was committed and no switch found nothing runnable ahead of it |
| `Threads.AddedIsLost` | kernel/src/kernel/threading/schedule/mod.rs:122-125 | a run in which a new thread ends up in the table, runnable and not queued |
| `Threads.AbsentStaysAbsent` | kernel/src/kernel/threading/schedule/round_robin.rs:36-84 | an admitted id that left the queue comes back only by a reschedule |
| `Threads.AheadIsDispatchedOnce` | kernel/src/kernel/threading/schedule/round_robin.rs:65-80 | a thread ahead of another is dispatched exactly once before the other is |
| `Threads.DispatchedExactlyOnceBetween` | kernel/src/kernel/threading/schedule/round_robin.rs:65-80 | between two dispatches of one thread, every other queued thread that stays runnable is dispatched exactly once |
| `Threads.ZombieStaysZombie` | kernel/src/kernel/threading/tls.rs:306-355 | no step revives or dispatches a zombie |
| `Threads.KilledIsNeverDispatched` | kernel/src/kernel/threading/tls.rs:306-315 | after its kill a thread is a zombie in every later state and never dispatched |
| `Threads.CleaningStartsWithRemoval` | kernel/src/kernel/threading/tls.rs:205-222 | stacks are freed only for an id that was just removed from the table |
| `Threads.GoneStaysGone` | kernel/src/kernel/threading/tls.rs:205-222 | an id that left the table never returns, and the reaper does not come back to it |
| `Threads.ReapedAtMostOnce` | kernel/src/kernel/threading/tls.rs:205-222 | a thread is removed at most once although the zombie list may repeat it |
| `Threads.StackFreedAtMostOnce` | kernel/src/kernel/threading/tls.rs:409-441 | the stacks of a thread are freed at most once |
| `Threads.CleanedIsNotCurrent` | kernel/src/kernel/threading/tls.rs:409-441 | if the reaper has not killed itself, what is freed belongs to a zombie that is not running |
| `Threads.CurrentStaysInTable` | kernel/src/kernel/threading/tls.rs:205-222 | the current thread is in the table in every state before which the reaper did not kill itself |
| `Threads.RemovesCurrentIffSelfKilled` | kernel/src/kernel/threading/tls.rs:205-222 | a removal takes the current thread if and only if the reaper has killed itself, kept the CPU since and come to its own id |
| `Threads.YieldingZombiesStayInTable` | kernel/src/kernel/abi/syscalls/funcs.rs:207-216 | if a thread that has killed itself only yields, the current thread is in the table in every state |
| `Threads.SelfKilledReaperRemovesItself` | kernel/src/kernel/threading/tls.rs:205-222 | otherwise the steps of `kill` and `cleanup` allow a run in which the reaper removes itself while current; the reaper's own code does not make it |
| `HeapLock.RunKeepsGood` | kernel/src/kernel/threading/schedule/round_robin.rs:36-84 | with the heap's lock added, every run keeps the threads' invariant, and a holder of a kernel lock is never inside the allocator |
| `HeapLock.RunGetsStuck` | kernel/src/kernel/threading/schedule/round_robin.rs:82-84 | a run in which a thread holds the run queue's lock, must grow the queue, and another thread is inside the allocator |
| `HeapLock.StuckForever` | kernel/src/kernel/mem/alloc/linked_list.rs:17-52 | from then on every step of every run is a context switch that returns to the stuck thread, and neither thread gets on |
| `HeapLock.BecomesStuckIff` | kernel/src/kernel/mem/alloc/linked_list.rs:17-52 | a step leads there if and only if it takes the lock of a collection that must grow while another thread is in the allocator |
| `HeapLock.HolderGetsOnIff` | kernel/src/kernel/threading/schedule/round_robin.rs:54-62 | a holder can grow its collection if and only if it is not stuck in that way |
| `TimedWaits.TopIsUnique` | kernel/src/kernel/threading/wait/queues/mod.rs:33-53 | deadline and then id is a total order, so a heap has one top |
| `TimedWaits.PopRemovesThePeekedNode` | kernel/src/kernel/threading/wait/queues/mod.rs:88-103 | the node popped is the node whose thread was woken |
| `TimedWaits.RunKeepsInv` | kernel/src/kernel/threading/wait/mod.rs:105-135 | in every run a queued deadline is in the heap or due, and a deadline tested after blocking is in the heap and not about to be popped |
| `TimedWaits.NoLostTimerWakeup` | kernel/src/kernel/threading/wait/mod.rs:105-135 | in every run, when `enqueue` has returned with its thread blocked by its own `try_block`, each deadline of its list has a node in the heap that no pass has consumed |
| `TimedWaits.PassLeavesNothingDue` | kernel/src/kernel/threading/wait/queues/mod.rs:88-103 | a completed pass leaves no expired node |
| `TimedWaits.BlockedBecomesReady` | kernel/src/kernel/threading/tls.rs:349-355 | a blocked thread that is not killed leaves that state only by becoming ready |
| `TimedWaits.BlockedStaysArmed` | kernel/src/kernel/threading/wait/queues/mod.rs:76-103 | as long as a thread stays blocked its unconsumed nodes stay |
| `TimedWaits.ArmedIsWoken` | kernel/src/kernel/threading/wait/queues/mod.rs:88-103 | a blocked thread with an unconsumed node has become ready by the end of any pass at or after the deadline |
| `TimedWaits.PassWakesSleeper` | kernel/src/kernel/threading/wait/mod.rs:98-135 | a thread that its call has put to sleep has become ready by the end of any pass at or after the deadline, whatever happens in between |
| `TimedWaits.EarlyReturnIsBlockedIff` | kernel/src/kernel/threading/wait/mod.rs:105-135 | a call that returns without having put its thread to sleep leaves it blocked if and only if it was blocked from the call on |
| `TimedWaits.CallLosesNoWakeup` | kernel/src/kernel/threading/wait/mod.rs:105-135 | for one call, whatever happened before: a caller that was not blocked and is blocked after the return has a node for each deadline of the call |
| `TimedWaits.PassWakesCaller` | kernel/src/kernel/threading/wait/mod.rs:98-135 | and has become ready by the end of any pass at or after the deadline |
| `TimedWaits.UnarmedOnlyInWindow` | kernel/src/kernel/threading/wait/mod.rs:120-134 | in a call by a thread that was not blocked, it is blocked without a node for a deadline only before the second test of that entry, and only after the deadline |
| `TimedWaits.StrandedForever` | kernel/src/kernel/threading/wait/mod.rs:120-134 | a blocked thread without nodes stays so in every run without an outside wake or kill |
| `TimedWaits.WindowStrandsThread` | kernel/src/kernel/threading/wait/mod.rs:120-134 | a run in which a thread ends up that way inside `enqueue` |
| `TimedWaits.BlockedCallerIsUnarmed` | kernel/src/drivers/wait_manager.rs:33-40 | a run in which a blocked caller's call returns early and leaves it blocked with a deadline without a node |
| `TimedWaits.TimeWaitQueue.Enqueue` | kernel/src/kernel/threading/wait/queues/mod.rs:77-86 | time conditions and no others enter the heap |
| `TimedWaits.TimeWaitQueue.Signal` | kernel/src/kernel/threading/wait/queues/mod.rs:88-103 | exactly the expired nodes go, with multiplicity, and exactly their threads are woken |
| `Locks.PermitsAreConserved` | kernel/src/utils/sync/primitive/semaphore.rs:39-85 | in every run of any number of agents free and held permits add up to the initial count |
| `Locks.ReleaseNeverWraps` | kernel/src/utils/sync/primitive/semaphore.rs:58-85 | giving permits back never overflows the counter |
| `Locks.RefusesIffContended` | kernel/src/utils/sync/primitive/semaphore.rs:63-71 | the attempt refuses exactly when the permits held leave too few |
| `Locks.MutualExclusion` | kernel/src/utils/sync/primitive/mutex.rs:9-25 | at most one mutex guard is alive, and the counter shows it |
| `Locks.WriterIsAlone` | kernel/src/utils/sync/primitive/rwlock.rs:10-39 | beside a writer there is neither a reader nor another writer |
| `Locks.DowngradeIsAtomic` | kernel/src/utils/sync/primitive/rwlock.rs:42-48 | right before a downgrade the writer is the only holder, right after it the same holder is the only reader |
| `Frames.FramesLieInside` | kernel/src/kernel/mem/paging/alloc.rs:49-56 | aligned frames of a region lie inside the region |
| `Frames.EnumerationIsDistinct` | kernel/src/kernel/mem/paging/alloc.rs:49-56 | disjoint regions enumerate no frame twice |
| `Frames.LinkedFrame` | kernel/src/kernel/mem/paging/alloc.rs:68-76 | the free list depends on the words of its own frames only |
| `Frames.FrameAllocator.constructor` | kernel/src/kernel/mem/paging/alloc.rs:39-47 | a new allocator is valid and has given out nothing |
| `Frames.FrameAllocator.AddBatch` | kernel/src/kernel/mem/paging/alloc.rs:49-65 | the next 10000 frames of the enumeration, or all that are left, become free; frames in use keep their words |
| `Frames.FrameAllocator.DeallocateFrame` | kernel/src/kernel/mem/paging/alloc.rs:68-76 | the frame and no other becomes free; the list stays an acyclic list of distinct frames that, with the frames in use, makes up the enumerated ones |
| `Frames.FrameAllocator.AllocateFrame` | kernel/src/kernel/mem/paging/alloc.rs:78-103 | the answer is a zeroed frame that was not in use, or None exactly when every frame of the machine is in use |
| `Frames.FrameAllocator.StoreWord` | kernel/src/kernel/mem/paging/alloc.rs:68-103 | an owner's writes into its frame leave the free list intact |
| `Mappings.MappedOnce` | kernel/src/kernel/mem/paging/map.rs:64-109 | no frame is mapped at two places, and a mapped frame is in use |
| `Mappings.MapEffectsCompose` | kernel/src/kernel/mem/paging/map.rs:76-87 | mapping adjacent page ranges one after the other is mapping their union |
| `Mappings.MapKeepsOwned` | kernel/src/kernel/mem/paging/map.rs:64-88 | a map call, complete or stopped midway, keeps entries and frames in bijection |
| `Mappings.UnmapKeepsOwned` | kernel/src/kernel/mem/paging/map.rs:93-109 | so does an unmap call |
| `Mappings.RunKeepsOwned` | kernel/src/kernel/mem/paging/map.rs:64-109 | exclusive ownership in every run over any number of address spaces, failed calls included |
| `Mappings.SamePageMapSameFrames` | kernel/src/kernel/mem/paging/map.rs:64-109 | when a run returns to a page map, the same frames are in use, up to intermediate tables and frames lost by failed calls |
| `Mappings.UnmapUndoesMap` | kernel/src/kernel/mem/paging/map.rs:64-109 | mapping and unmapping a range restores the page map and the free frames, up to intermediate tables |
| `Mappings.AddressSpaces.MapRegion` | kernel/src/kernel/mem/paging/map.rs:64-88 | new pages get zeroed frames that were free, up to the first page that is mapped, lies in a larger page or finds no frame; nothing else changes, mapped memory keeps its words, and a failure loses at most one frame |
| `Mappings.AddressSpaces.UnmapRegion` | kernel/src/kernel/mem/paging/map.rs:93-109 | the entries go and exactly their frames become free, up to the first page without an entry |
| `Aliases.RightIffDirect` | kernel/src/kernel/mem/paging/map.rs:148-213 | the plan the loop follows gives every page the donor's own frame if and only if every stretch taken in one go is directly mapped and a partly covered last page is not skipped |
| `Aliases.AliasIsExactIff` | kernel/src/kernel/mem/paging/map.rs:111-215 | for all donors, targets, starts, sources and lengths: after Ok every byte of the new range is the byte that was behind `from`, if and only if `start` is aligned, the stretches are direct, a partial last page is met by a 4 KiB entry and both ranges have equally many pages, save for pages that were right already |
| `Aliases.SharedTableIsExactIff` | kernel/src/kernel/abi/syscalls/funcs.rs:267-274 | the same for one page table, read after the call: fresh pages do not disturb a range that was translated before |
| `Aliases.DirectRangeSuffices` | kernel/src/kernel/mem/paging/map.rs:162-202 | a donor that is directly mapped wherever it lies in the direct mapping's range has direct stretches |
| `Aliases.StretchOverrunsLargePage` | kernel/src/kernel/mem/paging/map.rs:162-202 | a call on one table that answers Ok and maps a wrong frame behind a larger page |
| `Aliases.PartOfLargePageIsSkipped` | kernel/src/kernel/mem/paging/map.rs:162-202 | a call for 100 bytes of a larger page that answers Ok and maps nothing |
| `Aliases.SecondPageIsMissed` | kernel/src/kernel/mem/paging/map.rs:124-148 | a call for two bytes across a page boundary that answers Ok and maps one page |
| `Aliases.LeftInPages` | kernel/src/kernel/mem/paging/map.rs:177-180 | from an aligned start the length never underflows, and a stretch is 512 pages or all the whole pages left |
| `Aliases.PageTable.MapRegionInto` | kernel/src/kernel/mem/paging/map.rs:115-215 | the donor may be the same table and is read anew in every turn; on any arguments and outcome earlier entries stay and the new ones are the pages of a plan from the start's page on, through the shorter range on success; from an aligned start the call succeeds exactly when the plan is complete, and for a translated range it is the plan of that range |
| `Aliases.PageTable.UnmapRegionFrom` | kernel/src/kernel/mem/paging/map.rs:220-234 | 4 KiB entries go up to the first page without one, and no other entry changes |
| `Aliases.UnmapFromUndoesAlias` | kernel/src/kernel/mem/paging/map.rs:115-234 | for every length: unmapping what was aliased restores the page table, and reports success if and only if no page had been passed over |
| `Aliases.UnmapIsSoundIff` | kernel/src/kernel/abi/syscalls/funcs.rs:317-329 | giving pages back, as far as it gets, leaves every frame free once or mapped, never both, if and only if each entry given back is its frame's only mapping |
| `Aliases.UnmappedIsUnmapEffect` | kernel/src/kernel/mem/paging/map.rs:93-109 | where no frame is aliased, what is left and what becomes free is what `unmap_region` does on owned memory |
| `Aliases.UnmapFreesAliasedFrame` | kernel/src/kernel/abi/syscalls/funcs.rs:317-329 | after aliasing one page and giving the alias back, the donor maps a free frame |
| `Stacks.StacksAreApart` | kernel/src/arch/x86/context/mod.rs:38-43 | no page belongs to two stacks of an area, and no stack has a guard page |
| `Stacks.PlaceStack` | kernel/src/arch/x86/context/mod.rs:591-601 | start, end and 16-byte aligned top of a slot, guard page left out |
| `Stacks.LocateStack` | kernel/src/arch/x86/context/mod.rs:604-611 | from the top alone: exactly the start, the end and the index of the slot |
| `Stacks.OtherSlotsStay` | kernel/src/arch/x86/context/mod.rs:573-699 | a change to the pages of one stack changes no other stack and no guard, in any area and address space |
| `Stacks.BuildStack` | kernel/src/arch/x86/context/mod.rs:627-647 | the stack is mapped whole where nothing was, no other entry of any address space changes, and with nothing in the way it fails only when frames have run out |
| `Stacks.DropStack` | kernel/src/arch/x86/context/mod.rs:684-699 | freeing succeeds exactly when the whole stack is mapped, and then unmaps it; no other entry of any address space changes |
| `Stacks.KernelStackPool.Allocate` | kernel/src/arch/x86/context/mod.rs:573-602 | the first unmarked slot becomes a live stack; live stacks are marked and whole, unmarked slots bare, guards unmapped; a failed mapping leaves its slot marked; nothing outside the slot changes |
| `Stacks.KernelStackPool.Free` | kernel/src/arch/x86/context/mod.rs:604-624 | every live stack can be freed, its slot and no other is unmarked, and nothing outside the slot changes |
| `Stacks.UserStackPool.constructor` | kernel/src/kernel/threading/task.rs:638-645 | a new process has its first stack at index 0 |
| `Stacks.UserStackPool.TakeIndex` | kernel/src/kernel/threading/task.rs:706-706 | an index is given out once |
| `Stacks.UserStackPool.Build` | kernel/src/kernel/threading/task.rs:712-716 | the stack of an index becomes live, and nothing outside it changes |
| `Stacks.UserStackPool.Free` | kernel/src/arch/x86/context/mod.rs:684-699 | every live user stack can be freed from its top, and nothing outside it changes |
| `Stacks.StackPools.NewProcess` | kernel/src/kernel/threading/task.rs:638-645 | kernel pool and all user pools stay valid when a process is added |
| `Stacks.StackPools.NewThread` | kernel/src/kernel/threading/task.rs:698-716 | they stay valid when a thread is added, whichever of the two stacks fails |
| `Stacks.StackPools.FreeKernelStack` | kernel/src/kernel/threading/tls.rs:409-441 | they stay valid when a kernel stack is freed, and a live one can be |
| `Stacks.StackPools.FreeUserStack` | kernel/src/kernel/threading/tls.rs:409-441 | they stay valid when a user stack is freed, and a live one can be |
| `Stacks.LiveStacksAreApart` | kernel/src/arch/x86/context/mod.rs:573-699 | in every state of a kernel pool and any number of processes, different pages of live stacks are mapped to different frames |
| `Stacks.GuardsAreUnmapped` | kernel/src/arch/x86/context/mod.rs:573-699 | and every guard page is unmapped |
| `Pipes.ApplyKeepsInv` | kernel/src/kernel/devices/tty/mod.rs:72-147 | every step keeps handle counts, byte order and capacity right |
| `Pipes.RunKeepsInv` | kernel/src/kernel/fd/mod.rs:60-79 | in every interleaving of opening, cloning, moving, dropping, reading and writing the counts are the numbers of live handles in all tables and variables |
| `Pipes.EndIffDrained` | kernel/src/kernel/devices/tty/mod.rs:106-120 | a read reports the end if and only if no write handle lives and every accepted byte was delivered |
| `Pipes.EndIsPermanent` | kernel/src/kernel/devices/tty/mod.rs:106-120 | from then on every read of the pipe in every run reports the end, and no byte is accepted |
| `Pipes.ReadersGetWhatWasWritten` | kernel/src/kernel/devices/tty/mod.rs:93-120 | what readers got, followed by the buffer, is what writers put in, in order; the end comes only after all of it |
| `Pipes.PipeDevice.constructor` | kernel/src/kernel/devices/tty/mod.rs:61-70 | a negative capacity stands for no limit |
| `Pipes.PipeDevice.IncHandles` | kernel/src/kernel/devices/tty/mod.rs:72-80 | a handle that may write counts as a writer only |
| `Pipes.PipeDevice.DecHandles` | kernel/src/kernel/devices/tty/mod.rs:82-90 | the inverse |
| `Pipes.PipeDevice.Write` | kernel/src/kernel/devices/tty/mod.rs:93-104 | as many bytes as fit are appended; a full pipe refuses |
| `Pipes.PipeDevice.Read` | kernel/src/kernel/devices/tty/mod.rs:106-120 | the front of the queue fills the caller's buffer, the rest of which keeps its bytes |
| `Pipes.PipeDevice.WriteAll` | kernel/src/kernel/io/mod.rs:41-55 | the default loop on a pipe: all bytes go in, or the pipe is filled and the rest refused |
| `Pipes.PipeDevice.ReadToEnd` | kernel/src/kernel/io/mod.rs:14-26 | the default loop on a pipe takes all that is buffered, and succeeds if and only if a write handle lives |
| `Pipes.Descriptors.NextFd` | kernel/src/kernel/threading/task.rs:304-311 | one above the highest open descriptor, or 0 |
| `Pipes.Descriptors.OpenPipe` | kernel/src/kernel/abi/syscalls/funcs.rs:684-710 | both ends appear at the next two descriptors with one reader and one writer counted, and nothing else changes |
| `Pipes.Descriptors.Duplicate` | kernel/src/kernel/abi/syscalls/funcs.rs:181-194 | the descriptor refers to the same file as the old one, a replaced handle is dropped, and an unknown old descriptor changes nothing |
| `Pipes.Descriptors.Remove` | kernel/src/kernel/abi/syscalls/funcs.rs:84-91 | the descriptor's handle is dropped, and an unknown one is an error |
| `Pipes.Descriptors.ClearTable` | kernel/src/kernel/threading/task.rs:563-566 | every handle of the table is dropped and no other |
| `Pipes.Descriptors.InheritAll` | kernel/src/kernel/threading/task.rs:525-534 | the child's table equals the parent's, with each handle counted |
| `Pipes.Descriptors.Act` | kernel/src/kernel/abi/syscalls/funcs.rs:543-565 | one file action does to the child's table what its table function says, or fails without a change |
| `Pipes.Descriptors.Spawn` | kernel/src/kernel/abi/syscalls/funcs.rs:531-580 | on success the child's table is the parent's after all actions; on any error every handle of the child is gone again |
| `Paths.LastSep` | kernel/src/kernel/fs/path/mod.rs:184-186 | the last separator, or none |
| `Paths.Parent` | kernel/src/kernel/fs/path/mod.rs:184-186 | everything before the last separator |
| `Paths.File` | kernel/src/kernel/fs/path/mod.rs:205-210 | everything after it, so that parent, separator and file make up the path |
| `Paths.StripPrefix` | kernel/src/kernel/fs/path/mod.rs:216-220 | defined exactly for string prefixes, and what remains completes the path |
| `Paths.UnsplitSplit` | kernel/src/kernel/fs/path/mod.rs:173-176 | splitting loses nothing |
| `Paths.SplitJoin` | kernel/src/kernel/fs/path/mod.rs:54-62 | pushed segments split into the same segments again |
| `Paths.PathBuf.Up` | kernel/src/kernel/fs/path/mod.rs:44-50 | the string is cut at the last separator, if there is one |
| `Paths.PathBuf.Push` | kernel/src/kernel/fs/path/mod.rs:54-62 | an absolute path replaces, a relative one is appended behind a separator |
| `Paths.UpOfJoin` | kernel/src/kernel/fs/path/mod.rs:44-50 | cutting the string pops the stack of segments |
| `Paths.PathBuf.Canonicalize` | kernel/src/kernel/fs/path/mod.rs:23-42 | the in-place edits leave the slash-join of the folded stack of segments |
| `Paths.CanonicalForm` | kernel/src/kernel/fs/path/mod.rs:23-42 | the result has no empty, "." or ".." segment, splits into the stack and resolves like the original |
| `Paths.CanonicalIsFixedPointIffNotRoot` | kernel/src/kernel/fs/path/mod.rs:23-42 | the result is a fixed point if and only if the path does not resolve to the root |
| `Paths.RootIsNoFixedPoint` | kernel/src/kernel/fs/path/mod.rs:23-42 | "/" becomes the empty string, which is relative |
| `Paths.CanonicalPrefixComposes` | kernel/src/kernel/fs/path/mod.rs:23-42 | canonicalizing a prefix first does not change where a path leads |
| `Mounts.DeepestIsUnique` | kernel/src/kernel/fs/vfs/mod.rs:52-73 | a path has at most one deepest mount |
| `Mounts.Ancestors.Next` | kernel/src/kernel/fs/path/mod.rs:258-276 | the path itself, then parent after parent |
| `Mounts.Vfs.DeepestMatchingMount` | kernel/src/kernel/fs/vfs/mod.rs:52-73 | the longest mounted component prefix; key and postfix make up the path, the postfix is empty or starts with a slash, and nothing is found only if nothing matches |
| `Mounts.Vfs.Mount` | kernel/src/kernel/fs/vfs/mod.rs:75-89 | the file system is installed even when the point was taken, and what it displaced is reported |
| `Mounts.Vfs.Unmount` | kernel/src/kernel/fs/vfs/mod.rs:91-99 | the point is free again |
| `Mounts.MountCapturesItsSubtree` | kernel/src/kernel/fs/vfs/mod.rs:52-89 | a mount captures exactly the paths at or below its point that no deeper mount serves |
| `Listings.FittingIsMaximal` | kernel/src/kernel/fs/ramfs/mod.rs:166-191 | a chunk takes as many whole entries as fit |
| `Listings.BufferedDisplay` | kernel/src/kernel/fs/ramfs/mod.rs:166-191 | the buffer gets whole entries from the offset on, the rest of it keeps its bytes |
| `Listings.ChunksResume` | kernel/src/kernel/fs/ramfs/mod.rs:166-217 | a chunk that starts on an entry boundary ends on one, and an empty unfinished chunk means the buffer is too small |
| `Listings.Display` | kernel/src/kernel/fs/ramfs/mod.rs:193-217 | the restarting loop ends and gives each name followed by a tab, in order, once; behind its header the mount table does the same |
| `RamFiles.SplicedAt` | kernel/src/kernel/fs/ramfs/mod.rs:346-357 | byte by byte: what was written, else what was there, else zero |
| `RamFiles.SplicedCompose` | kernel/src/kernel/fs/ramfs/mod.rs:346-357 | adjacent splices are one splice |
| `RamFiles.RamFile.Clear` | kernel/src/kernel/fs/ramfs/mod.rs:246-258 | files become empty, other nodes refuse |
| `RamFiles.RamFile.Read` | kernel/src/kernel/fs/ramfs/mod.rs:264-294 | the bytes from the offset on fill the front of the buffer; beyond the end is an error |
| `RamFiles.RamFile.ReadToEnd` | kernel/src/kernel/fs/ramfs/mod.rs:296-331 | everything from the offset on, for files, links and directories |
| `RamFiles.RamFile.DoublingRead` | kernel/src/kernel/fs/ramfs/mod.rs:317-329 | the doubling loop ends and delivers the content from the offset on, for every initial buffer |
| `RamFiles.RamFile.Write` | kernel/src/kernel/fs/ramfs/mod.rs:335-362 | a zero-filled splice; the recorded size stays the length of the content |
| `RamFiles.RamFile.WriteAll` | kernel/src/kernel/io/mod.rs:41-55 | the default loop on a RAM node: one write of everything, its error passed on |
| `RamFiles.OpenFile.WithPerms` | kernel/src/kernel/fd/mod.rs:421-434 | append starts at the recorded size, write with truncate on an emptied file |
| `RamFiles.OpenFile.ReadContinuous` | kernel/src/kernel/fd/mod.rs:441-445 | the cursor moves by what was read |
| `RamFiles.OpenFile.WriteContinuous` | kernel/src/kernel/fd/mod.rs:447-451 | with write permission a write at the cursor, which moves by what was taken; on a file one step of a run of splices |
| `RamFiles.WriteRunIsOneSplice` | kernel/src/kernel/fd/mod.rs:447-451 | any writes through one handle are one splice of their concatenation |
| `RamFiles.WritesAppend` | kernel/src/kernel/fd/mod.rs:447-451 | from the end of a file on, the concatenation is appended |
| `RamFiles.ReadRunDelivers` | kernel/src/kernel/fd/mod.rs:441-445 | any reads through one handle deliver the content in order |
| `RamFiles.WrittenIsReadBack` | kernel/src/kernel/fd/mod.rs:441-451 | what was written in any pieces is read back in any pieces |
| `RamTree.RamFs.Traverse` | kernel/src/kernel/fs/ramfs/mod.rs:391-437 | the two stages are a plain walk of all names |
| `RamTree.RamFs.OpenPath` | kernel/src/kernel/fs/ramfs/mod.rs:441-512 | parent walk and last name, with every flag and error |
| `RamTree.RamFs.UnlinkPath` | kernel/src/kernel/fs/ramfs/mod.rs:514-577 | the same for removal |
| `RamTree.EnsureEntryGrows` | kernel/src/kernel/fs/ramfs/mod.rs:159-164 | adding an entry keeps the tree and everything in it |
| `RamTree.WalkGrows` | kernel/src/kernel/fs/ramfs/mod.rs:391-437 | a walk keeps the tree even when it fails halfway, and a successful one has followed its names |
| `RamTree.WalkIsRepeatable` | kernel/src/kernel/fs/ramfs/mod.rs:391-437 | a successful walk is found again without creation in every grown tree |
| `RamTree.OpenKeepsResolution` | kernel/src/kernel/fs/ramfs/mod.rs:441-512 | whatever resolved before an `open` with any flags and outcome resolves to the same node after it |
| `RamTree.OpenedIsFoundAgain` | kernel/src/kernel/fs/ramfs/mod.rs:441-512 | what an `open` handed out, a plain `open` finds again |
| `RamTree.OpenedIsResolved` | kernel/src/kernel/fs/ramfs/mod.rs:441-512 | the node handed out is the one the names resolve to |
| `RamTree.ResolveIsInjective` | kernel/src/kernel/fs/ramfs/mod.rs:377-437 | in a tree, different names lead to different nodes |
| `RamTree.UnlinkIsExact` | kernel/src/kernel/fs/ramfs/mod.rs:514-577 | a successful `unlink` unresolves exactly the names that extend the removed ones, and a failed one changes nothing |
| `RamTree.RunKeepsTree` | kernel/src/kernel/fs/ramfs/mod.rs:391-577 | the file system is a tree in every run |

## Left out

- Aliases.PageTable.MapRegionInto: which frames a call with an unaligned start maps is not stated; by `Aliases.AliasIsExactIff` no such call does what it should.
- Aliases.PageTable.MapRegionInto: the subtraction of mapped bytes from the length wraps as in a release build; a build with overflow checks stops there instead.
- Pipes.Descriptors.Spawn: only the descriptor side of a spawn; whether the task itself can be built is left open.
- Threads.RunKeepsInv: a snapshot of `reschedule` is any list of distinct ids of the table, which includes the Ready and Running ones that the source collects.
- Locks.PermitsAreConserved: sequential consistency; weak memory orderings are not modelled.
- The page-table walker itself, page flags and TLB flushes.
- Following symbolic links in `open`, which re-enters the whole file system.
- File contents inside the directory tree: `RamFiles` has the contents, `RamTree` the names.
- Whether bytes written to a link are valid UTF-8; it is a parameter.
- The process tree, process groups and pids of `TaskManager`, and the arm of its `update` that adds a thread again.
- The keyboard queue, the generic wait queues and the blocking lock strategy, which do not promise that no wakeup is lost.
- The bounded event queue of `post_event` and `get_event`.
- Boot, the first dispatch before a thread is current, and the thread that the boot code becomes.
- Assembly stubs, interrupt controllers, ACPI, serial output, framebuffers, the terminal and keyboard decoding.
- ELF loading, arguments on user stacks and the checks of user pointers.
- The process file system and its registry cache.
- Copying the first user stack's mappings between address spaces.
- Kernel entries that user page tables share; each pool has an address space of its own.
- Readers and writers other than RAM nodes and pipes under the default `read_to_end` and `write_all`.
