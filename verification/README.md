# A verified model of the kernel's scheduler, memory and device cores

This project models the parts of the kernel that keep unbounded state in small code, and proves
what they promise: the run queue and its red-black tree, the timer wheel, the scheduler with its
blocking locks, the two page allocators, the page tables with deep copy and release of address
spaces, copies through user page tables, the phase-bit and cycle-bit rings, and the byte view of
a partition. Code that updates pointers, tables or arrays in place is modelled by classes and
methods that do the same; beside each stands a value that says what it means (a tree, a queue, a
set of free pages, the locations in a tree of tables), and the promises are proved about that.

`dafny verify dfyconfig.toml` checks everything.

| file | what it is about |
|---|---|
| `RbShape.dfy`, `RbTree.dfy` | red-black trees as values, and the intrusive tree on the heap: rotations, insertion, erasure |
| `StableQueue.dfy`, `RunQueue.dfy` | the run queue as a stable priority queue, and the tree with its leftmost pointer that implements it |
| `TaskModel.dfy`, `TimerWheel.dfy`, `Waiting.dfy` | the task control block, the 512-bucket timer wheel, wait queues and mutexes |
| `Fairness.dfy`, `Scheduler.dfy` | the sharing of the CPU over whole runs, and the scheduler state machine over all of the above |
| `RwLock.dfy` | the readers/writer lock as a protocol of any number of tasks |
| `FirstFit.dfy`, `FrameBitmap.dfy`, `FreeRegions.dfy`, `VirtualPool.dfy` | the rule of both allocators, the frame bitmap, the coalescing free list |
| `PageTables.dfy`, `PhysicalMemory.dfy`, `Paging.dfy`, `Translation.dfy` | four-level page tables: map, unmap, flags, walks |
| `CloneRelation.dfy`, `AddressSpace.dfy` | deep copy and release of a user address space |
| `UserCopy.dfy` | copies from and to user memory |
| `PhaseRing.dfy` | NVMe completions, the xHCI event ring, xHCI transfer rings |
| `BlockDevice.dfy` | reads and writes of a partition by bytes |
| `Basics.dfy` | what they have in common |

## Assumptions

- There is one CPU, and code that runs with interrupts disabled or under a spinlock is atomic.
  Each public method of `Scheduler` is one such step; `RwLock` interleaves steps of any number of
  tasks.
- Blocking and giving up the CPU are one step. The code arms a one-shot timer for the second half
  (`kernel/task/scheduler.cpp:400-405`); a tick in between would find a current task that waits
  already.
- Tick counters, vruntimes and sums of addresses and page counts do not overflow 64 bits, and the
  tick counter is a parameter. Widths matter, and are modelled, where a 32-bit cast cuts sector
  counts (`BlockDevice.dfy`) and where bits of a byte are set (`FrameBitmap.dfy`).
- The idle task never blocks, and a task's vruntime changes only while it is outside the tree.
- Frames are numbers and the direct map of the kernel is the identity on them. The parts of an
  entry beside the address are its flags; addresses passed to the paging functions are given as
  page and frame numbers, that is, as multiples of the page size. A frame holds a table or a page, and
  user pages do not overlap the kernel's buffers or the page tables.
- A disk that is not ready refuses a transfer, and a refused transfer changes nothing. Memory for
  DMA buffers does not run out.
- Hardware keeps to its side of the rings: as a producer of completions and events it has no more
  outstanding than the ring holds, and it follows a Link TRB as section 4.9.2 of the xHCI
  specification says. On a transfer ring the producer is the driver, which checks nothing; there
  nothing is assumed, and `Push` says what happens in either case.

## Where the code does not do what one would expect

- A sleep whose deadline is not after the last checked tick is overlooked until the wheel has made
  a whole turn: `TimerWheels.LateDeadline` says exactly when it is met, `OverlookedOnce` gives the
  input. `Sleep` itself never sets such a deadline, but two system calls do, which put the task on
  the wheel themselves: a sleep of 0 ms (`kernel/usrlndtrnstn/syscall/process.cpp:1001-1017`) and a
  sleep of 0 s and 0 ns (lines 785-796) take the present tick as the deadline and block, which is
  that input: if the tick has been checked already, the task sleeps for a turn of 512 ticks.
- The preemption granularity of 2 in `SchedulerTick` decides nothing: `Schedule` is called in any
  case and clears the flag that the test sets.
- `DevFS::Read` counts the bytes of the sectors it has read in 32 bits. A read whose sectors make
  up 4 GiB or more delivers nothing or only the rest of one sector; `BlockDevices.ReadComplete`
  says exactly when a read is complete. `DevFS::Write` has no such limit. It takes a buffer for DMA
  that is larger than the 1 GiB which the frame allocator manages, so a kernel as it is configured
  here refuses such a read before.
- `GetPhysicalAddress` and the walker of the user copies mask the same address bits at every level.
  For a large page with the memory-type bit 12 set they are 4096 bytes off:
  `Translation.RightForLargePages` says exactly when they are right, `WrongWithBit12` gives the
  input. The flags with that bit, `PAGE_WC_LARGE`, are defined in the repository but written by no
  code of it.
- A free of virtual pages is lost when all 4096 list nodes are in use and no free region ends where
  the freed run starts, even if one begins where it ends:
  `VirtualPools.VirtualPool.VirtualFreePages` says exactly when, and `VirtualPools.LoseFree` is a
  run of calls on a new pool that comes to it.
- A push to a transfer ring that is full makes hardware find nothing where it is, although entries
  of the ring are still to be taken: `PhaseRings.TransferRing.Push`. The driver never looks.
- A copy of an address space that runs out of frames keeps the frames it has taken: after
  `AddressSpaces.CloneAndFree` with a failed copy none is free.

## Model

| member | source | states |
|---|---|---|
| RbShape.LogarithmicHeight | kernel/task/rbt.cpp:48-101 | a red-black tree of n tasks has height h with 2^h at most (n+1)^2, that is h at most 2*log2(n+1) |
| RbShape.LogarithmicSearch | kernel/task/rbt.cpp:48-101 | no position in a red-black tree of n tasks is further than 2*log2(n+1) steps from the root, so the search for a place in the run queue and the fixups are that short |
| RbShape.RotationsKeepOrder | kernel/task/rbt.cpp:4-46 | the two rotations are inverse to each other and keep the in-order sequence |
| RbShape.InsertStart | kernel/task/rbt.cpp:48-51 | a red leaf put into a red-black tree gives a state in which only that leaf and its parent can both be red: the invariant of the insertion loop |
| RbShape.InsertHasGrandparent | kernel/task/rbt.cpp:50-53 | while the loop runs the grandparent that it dereferences exists, and is black |
| RbShape.InsertCase1 | kernel/task/rbt.cpp:56-62 | recolouring with a red uncle keeps the invariant two levels further up |
| RbShape.InsertCase2 | kernel/task/rbt.cpp:64-68 | the first rotation turns the inner case into the outer one and keeps the invariant |
| RbShape.InsertCase3 | kernel/task/rbt.cpp:69-72 | recolouring and rotating in the outer case keeps the invariant and puts a black parent above, which ends the loop |
| RbShape.InsertDone | kernel/task/rbt.cpp:98-100 | when the loop ends, blackening the root gives a red-black tree |
| RbShape.SpliceOut | kernel/task/rbt.cpp:185-192 | taking out a node with at most one child leaves nothing to repair if it was red, and otherwise the invariant of the erase loop: the position of x is short of one black node and nothing else is wrong |
| RbShape.EraseHasSibling | kernel/task/rbt.cpp:118-121 | the sibling w that the erase loop dereferences is never null |
| RbShape.EraseCase1 | kernel/task/rbt.cpp:121-126 | the red-sibling case keeps the invariant and leads to a black sibling |
| RbShape.EraseCase2 | kernel/task/rbt.cpp:127-131 | the case of two black nephews keeps the invariant one level further up |
| RbShape.EraseCase3 | kernel/task/rbt.cpp:133-138 | the near-nephew case keeps the invariant with the red nephew as the new sibling |
| RbShape.EraseCase4 | kernel/task/rbt.cpp:139-143 | the far-nephew case ends the loop with a red-black tree |
| RbShape.EraseDone | kernel/task/rbt.cpp:173-175 | when the loop ends, blackening x gives a red-black tree |
| RbShape.SuccessorOrder | kernel/task/rbt.cpp:193-214 | putting the in-order successor in the place of an erased node with two children removes exactly that node from the in-order sequence |
| RbShape.SuccessorColors | kernel/task/rbt.cpp:193-214 | the successor with the erased node's colour there moves the shortage of a black node, if any, to where the successor was |
| RbTrees.RotationLinks | kernel/task/rbt.cpp:4-46 | the fields of every task on the two sides of a rotation: which pointers differ, to what, and that no other does |
| RbTrees.RbTree.LeftRotate | kernel/task/rbt.cpp:4-24 | the pointer updates turn the subtree at any position into its left rotation and keep everything else, with consistent parent and child links |
| RbTrees.RbTree.RightRotate | kernel/task/rbt.cpp:26-46 | the same for the right rotation |
| RbTrees.RbTree.Recolor | kernel/task/rbt.cpp:56-62 | case 1 of the insertion loop on the heap, with the loop moved two levels up |
| RbTrees.RbTree.InsertFixup | kernel/task/rbt.cpp:48-101 | from the insertion invariant the loop terminates with a linked, red-black tree with the same tasks in the same order |
| RbTrees.RbTree.EraseFixup | kernel/task/rbt.cpp:117-176 | from the erase invariant the loop terminates with a linked, red-black tree with the same tasks in the same order, from either side |
| RbTrees.RbTree.Transplant | kernel/task/rbt.cpp:103-114 | the one link that leads to u leads to v, and v knows its new parent |
| RbTrees.RbTree.Erase | kernel/task/rbt.cpp:179-224 | erasing any node of a red-black tree leaves a red-black tree with consistent links, whose in-order sequence is the old one without that node, and clears the node's pointers |
| RbTrees.RbTree.InsertLeaf | kernel/task/scheduler.cpp:50-60 | linking a task in at an empty place and repairing gives a red-black tree with the task at that place of the order |
| StableQueue.InsertHere | kernel/task/scheduler.cpp:36-48 | a place after all keys that are not greater and before all greater ones is the place of the stable insertion |
| StableQueue.InsertContents | kernel/task/scheduler.cpp:36-48 | a stable insertion keeps the list sorted and adds exactly the entry |
| StableQueue.OldestFirst | kernel/task/scheduler.cpp:82-90 | the head of the sorted list is the oldest of the arrivals with the smallest key |
| StableQueue.SortRemove | kernel/task/scheduler.cpp:68-80 | taking a task out of the arrivals takes it out of the sorted list |
| StableQueue.RunsRefine | kernel/task/scheduler.cpp:30-90 | over every run of enqueues, dequeues and picks the sorted list makes the same picks as the plain description by arrivals: smallest vruntime, oldest among equals |
| RunQueues.RunQueue.InsertedInOrder | kernel/task/scheduler.cpp:36-48 | the place that the descent finds by comparing keys is the place of the stable insertion |
| RunQueues.RunQueue.Descend | kernel/task/scheduler.cpp:32-48 | the descent terminates at an empty place, all tasks before it having vruntimes not greater and all after it greater ones; Leftmost is true exactly if nothing comes before |
| RunQueues.RunQueue.CFSEnqueue | kernel/task/scheduler.cpp:30-66 | the queue in order becomes its stable insertion of the task, the tree stays red-black and linked, CFSLeftmost stays the first task, and a reschedule is forced exactly if the task is ahead of the current one |
| RunQueues.RunQueue.SecondTask | kernel/task/scheduler.cpp:69-77 | the new leftmost pointer, found by going right and then left or else up, is the second task of the order |
| RunQueues.RunQueue.CFSDequeue | kernel/task/scheduler.cpp:68-80 | any task of the queue leaves it, the order of the others is kept, and so are tree and CFSLeftmost |
| RunQueues.RunQueue.CFSPickNext | kernel/task/scheduler.cpp:82-90 | the first task of the order is returned and leaves the queue; null exactly if the queue is empty |
| TimerWheels.WakesExactly | kernel/task/scheduler.cpp:146-169 | however many ticks were skipped, also more than a turn of the wheel, a deadline after the previous check is met by a check exactly if it has been reached |
| TimerWheels.LateDeadline | kernel/task/scheduler.cpp:146-169 | a deadline that had already passed at the previous check is met exactly by the checks that take in a whole number of wheel turns after it |
| TimerWheels.OverlookedOnce | kernel/task/scheduler.cpp:146-169 | for every tick: a sleep that ends in the tick of a check is not met by the next check, and is met one turn later |
| TimerWheels.DistanceIsExact | kernel/task/scheduler.cpp:223-238 | while no deadline has been missed, a distance below 100 is that of the earliest deadline, and otherwise no deadline lies within 100 ticks |
| TimerWheels.TimerWheel.AddToSleepList | kernel/task/scheduler.cpp:92-125 | the task is put into the bucket of its deadline, once; null, a task without deadline and a task that is there already change nothing |
| TimerWheels.TimerWheel.Wake | kernel/task/scheduler.cpp:178-190 | a woken task is ready, with a vruntime 10 below MinVRuntime, or at it when that is 10 or less, and joins the run queue by a stable insertion |
| TimerWheels.TimerWheel.WokenFirst | kernel/task/scheduler.cpp:181-187 | so with MinVRuntime above 10 a woken task stands before every task whose vruntime has reached it |
| TimerWheels.TimerWheel.DrainBucket | kernel/task/scheduler.cpp:160-195 | of one bucket exactly the tasks that are due are unlinked and enqueued, the others stay linked in the same order |
| TimerWheels.TimerWheel.CheckSleepingTasks | kernel/task/scheduler.cpp:130-200 | exactly the sleepers that the scanned ticks reach and that are due leave the wheel and join the run queue; they are ready, off the wheel and 10 ahead, and the states of the others stay; TotalSleepingTasks stays the population of the wheel |
| TimerWheels.TimerWheel.GetDistToNextWakeup | kernel/task/scheduler.cpp:223-238 | the first of the next 100 ticks in whose bucket a sleeper is due, or the largest 64-bit number |
| Waiting.WaitQueue.Append | kernel/task/scheduler.cpp:439-447 | a task joins the queue behind everybody, with consistent links |
| Waiting.WaitQueue.Pop | kernel/task/scheduler.cpp:458-463 | the first task leaves the queue, the order of the others is kept |
| Waiting.Mutex.FirstComeFirstServed | kernel/task/mutex.cpp:15-64 | at any time grants have been made in order of arrival and whoever has not been granted the mutex waits; the owner is the last to whom it was granted; nobody waits for a free mutex |
| Waiting.Mutex.Enter | kernel/task/mutex.cpp:15-41 | the caller owns a free mutex at once and otherwise waits behind everybody; both are arrivals |
| Waiting.Mutex.Leave | kernel/task/mutex.cpp:43-64 | the oldest waiter owns the mutex, which stays locked; only without waiters does it become free |
| Fairness.NicerIsLighter | kernel/task/task_main.cpp:17-35 | a nicer task never weighs more, so it never pays less for a tick |
| Fairness.RateThisTaskNice | kernel/task/task_main.cpp:28-35 | every nice value, clamped, has a weight between 15 and 88761 |
| Fairness.NiceSteps | kernel/task/task_main.cpp:17-35 | a task of nice 0 weighs 1024 and pays 1 a tick; every step of nice makes the weight smaller, by a factor between 1.2 and 1.28 |
| Fairness.ChargeIs | kernel/task/scheduler.cpp:344-360 | the charge for a tick is 1024 divided by the weight, rounded down, and 1 for heavier tasks |
| Fairness.TickKeeps | kernel/task/scheduler.cpp:339-379 | a tick keeps the running task at the least vruntime, which never falls |
| Fairness.SpreadBounded | kernel/task/scheduler.cpp:344-360 | over every run of ticks with a fixed set of runnable tasks the spread of the vruntimes stays within max(initial spread, 68) |
| Fairness.PickedInTime | kernel/task/scheduler.cpp:339-379 | a ready task is picked within as many ticks as the ranking function counts |
| Fairness.NoStarvation | kernel/task/scheduler.cpp:339-379 | with n runnable tasks whose vruntimes lie within w, a ready task runs within n*(w+1) ticks |
| Scheduling.Scheduler.OnePlace | kernel/task/scheduler.cpp:277-472 | in every state between steps a task runs, is in the run tree, on the wheel or in a wait queue, exactly one of these, and in one wait queue at most |
| Scheduling.Scheduler.OnceThere | kernel/task/scheduler.cpp:277-472 | it is there once: one position in the tree or queue, one bucket of the wheel, the one of its deadline |
| Scheduling.Scheduler.Schedule | kernel/task/scheduler.cpp:277-337 | a current task that still runs goes back into the queue, a task with the least vruntime gets the CPU, the idle task only if nobody can run; no task is lost; MinVRuntime never falls; the task that gets the CPU is RUNNING, the one that is put back READY, and no other state changes |
| Scheduling.Scheduler.WakeSleepers | kernel/task/scheduler.cpp:130-200 | exactly the sleepers that are due move from the wheel to the run queue; they are READY, and no other state changes; if no deadline had been missed, all deadlines lie ahead afterwards |
| Scheduling.Scheduler.ChargeCurrent | kernel/task/scheduler.cpp:344-360 | the running task pays 1024 divided by its weight, at least 1 |
| Scheduling.Scheduler.CheckPreemption | kernel/task/scheduler.cpp:362-376 | a reschedule is asked for exactly if somebody is ready while the idle task runs, or is more than 2 behind the running task |
| Scheduling.Scheduler.SchedulerTick | kernel/task/scheduler.cpp:339-379 | a tick keeps every task in one place, wakes exactly those due, leaves a task with the least vruntime running, and with no sleeper due does one tick of the fair sharing; the runnable tasks with their vruntimes are those before, the one that ran charged, and those woken; the states follow |
| Scheduling.Scheduler.TicksUntilPicked | kernel/task/scheduler.cpp:339-379 | the tick repeated on the pointers themselves: a ready task runs within n*(w+1) ticks while nobody blocks and no sleeper falls due |
| Scheduling.Scheduler.Sleep | kernel/task/scheduler.cpp:202-221 | the current task is BLOCKED and on the wheel with a deadline after the present tick, and the first of the queue gets the CPU; 0 ms does nothing |
| Scheduling.Scheduler.Deadline | kernel/task/scheduler.cpp:206-210 | the deadline lies after the present tick, by ms*LapicHz/1000 ticks rounded down unless that is 0 |
| Scheduling.Scheduler.SleepOn | kernel/task/scheduler.cpp:427-453 | the current task is BLOCKED and waits behind everybody in the queue, and the first of the run queue gets the CPU |
| Scheduling.Scheduler.WakeUp | kernel/task/scheduler.cpp:455-472 | the longest waiter is READY and moves to the run queue with the boosted vruntime; an empty queue changes nothing |
| Scheduling.Scheduler.UnblockTaskWithIOBoost | kernel/task/task_main.cpp:146-163 | the task joins the run queue 10 below MinVRuntime, or at 0, and a reschedule is forced |
| Scheduling.Scheduler.Acquire | kernel/task/mutex.cpp:15-41 | a free mutex is the caller's at once; for a held one the caller is BLOCKED in its queue and the first of the run queue gets the CPU; no task is lost |
| Scheduling.Scheduler.Release | kernel/task/mutex.cpp:43-64 | ownership passes to the longest waiter while the mutex stays locked, and the waiter joins the run queue with the boost |
| Scheduling.Scheduler.AddTask | kernel/task/task_kthread_constructor.cpp:172-219 | a new task that is ready joins the run queue by a stable insertion; one that is not, and the idle task, do not |
| RwLocks.LineReleased | kernel/task/mutex.cpp:43-64 | a release takes exactly the first waiter out of the queue and lets it go on |
| RwLocks.TakeReader | Include/rwlock_simple.hpp:16-21 | going for ReaderLock keeps the invariant, whether it is free or held |
| RwLocks.TakeGlobal | Include/rwlock_simple.hpp:19-21 | going for GlobalLock keeps the invariant, for a writer and for the first reader |
| RwLocks.GiveGlobal | Include/rwlock_simple.hpp:28-30 | giving GlobalLock back keeps the invariant, for a writer and for the last reader, whoever gets it next |
| RwLocks.SharedSteps | Include/rwlock_simple.hpp:18-21 | a reader that is not the first, or not the last, relies on the others holding GlobalLock |
| RwLocks.StepKeeps | Include/rwlock_simple.hpp:16-44 | every step of any task keeps: ReaderLock has one holder, GlobalLock one writer or the readers together, ReaderCount counts the readers, queues hold exactly the waiting tasks |
| RwLocks.WriterAlone | Include/rwlock_simple.hpp:16-44 | over every interleaving of any number of tasks, while a task writes no other writes or reads |
| RwLocks.CountAtRest | Include/rwlock_simple.hpp:16-44 | whenever nobody is in the middle of an operation, ReaderCount is the number of tasks that read |
| RwLocks.NoDeadlock | Include/rwlock_simple.hpp:16-44 | in every reachable state in which some task waits, some task that is inside the lock does not |
| RwLocks.NobodyOvertakes | Include/rwlock_simple.hpp:16-44 | who waits for one of the two mutexes is not overtaken: over any run during which it waits, those that came after it wait behind it, in the same order |
| RwLocks.OnwardEnds | Include/rwlock_simple.hpp:16-44 | in whatever order the tasks that are under way and do not wait are let on, they take a bounded number of steps, each leaving less to do, and when none is left to take everybody is outside, both locks are free and the count is 0 |
| RwLocks.EverybodyLeaves | Include/rwlock_simple.hpp:16-44 | from every reachable state some such moves lead there |
| RwLocks.ReadersShare | Include/rwlock_simple.hpp:16-23 | while the others read or are outside, a task comes in to read in four steps of its own, whoever reads already |
| RwLocks.WriterEnters | Include/rwlock_simple.hpp:34-39 | while the others are outside, a task comes in to write in one step |
| RwLocks.AnybodyGetsIn | Include/rwlock_simple.hpp:16-44 | whatever has happened, moves exist after which a given task reads, and others after which it writes |
| FirstFit.LowestIsUnique | kernel/mm/physicalalloc.cpp:165-178 | the rule of both allocators, lowest start whose whole run is free, determines the answer |
| FirstFit.TakeAndGive | kernel/mm/physicalalloc.cpp:184-197 | giving back a run that was taken restores the free pages |
| FrameBitmaps.OneBit | kernel/mm/physicalalloc.cpp:27-29 | setting or clearing a bit of a byte changes that bit and no other |
| FrameBitmaps.FrameBitmap.AllocPages | kernel/mm/physicalalloc.cpp:160-182 | the lowest run of that many free frames is taken, exactly it; 0 exactly for a count of 0 or when there is no such run |
| FrameBitmaps.FrameBitmap.FreePages | kernel/mm/physicalalloc.cpp:184-197 | exactly the frames of the run become free, and one that was free already counts as given back twice; a run that reaches beyond the range, and address 0, change nothing |
| FrameBitmaps.FrameBitmap.Reserve | kernel/mm/physicalalloc.cpp:199-222 | exactly the managed frames of the run become used, also of a run that begins below 1 MiB; a run that reaches beyond the range, and address 0, change nothing |
| FrameBitmaps.ReservedAbove | kernel/mm/physicalalloc.cpp:199-222 | those frames are, for the address of a frame, the managed ones whose addresses the run covers |
| FreeRegions.RunInRegion | kernel/mm/virtualalloc.cpp:94-95 | in a sorted list without touching regions every free run lies inside one region |
| FreeRegions.FirstRegionLowest | kernel/mm/virtualalloc.cpp:94-97 | the first region that is large enough starts with the lowest free run |
| FreeRegions.NoRegionNoRun | kernel/mm/virtualalloc.cpp:94-117 | if no region is large enough there is no free run of that length |
| FreeRegions.ListIsUnique | kernel/mm/virtualalloc.cpp:129-178 | the set of free pages determines the list of regions: there is one sorted, coalesced list of them |
| FreeRegions.TakeFits | kernel/mm/virtualalloc.cpp:97-106 | taking pages from the front of a region keeps the list sorted, disjoint and coalesced and removes exactly them |
| FreeRegions.GiveFits | kernel/mm/virtualalloc.cpp:129-178 | putting a freed run in its place and joining it with its neighbours keeps the list sorted, disjoint and coalesced and adds exactly it |
| FreeRegions.TakeThenGive | kernel/mm/virtualalloc.cpp:87-181 | freeing what was just allocated gives back the same list of regions |
| VirtualPools.VirtualPool.AllocNode | kernel/mm/virtualalloc.cpp:32-38 | the first spare node, or null if there is none |
| VirtualPools.VirtualPool.FreeNode | kernel/mm/virtualalloc.cpp:40-44 | the node becomes the first spare one |
| VirtualPools.VirtualPool.VirtualAllocPages | kernel/mm/virtualalloc.cpp:87-118 | the lowest start whose whole run is free, exactly whose pages are taken; 0 only for a count of 0 or when there is no such run; list nodes and spare nodes stay 4096 |
| VirtualPools.VirtualPool.VirtualFreePages | kernel/mm/virtualalloc.cpp:120-181 | exactly the freed pages become free, unless all 4096 nodes are in the free list and no region ends where the run starts, in which case nothing changes |
| VirtualPools.LoseFree | kernel/mm/virtualalloc.cpp:150-157 | the calls that lose a page: with every other page of a pool freed all 4096 nodes are in use, and the next page that is freed stays out of the free list |
| VirtualPools.VirtualPool.GrowPrev | kernel/mm/virtualalloc.cpp:138-149 | a freed run that touches the region before it is joined with it, and with the one after if that is touched then |
| VirtualPools.VirtualPool.AddRegion | kernel/mm/virtualalloc.cpp:150-178 | a freed run that does not takes a node, and swallows the region after it if they touch; without a node it is lost |
| VirtualPools.VirtualPool.constructor | kernel/mm/virtualalloc.cpp:49-85 | the pool starts with one region that holds all pages |
| PageTables.Elsewhere | kernel/mm/mappage.cpp:9-198 | a change of one entry of a tree of tables changes nothing on any path that does not go through it |
| PageTables.Widened | kernel/mm/mappage.cpp:29-34 | setting the write bit of a directory entry changes no location and no leaf |
| PageTables.Planted | kernel/mm/mappage.cpp:20-27 | a fresh empty table where there was none: one more location, no leaf changes, the tables stay a tree |
| PageTables.LeafSet | kernel/mm/mappage.cpp:85-90 | writing an entry of a level-1 table changes that leaf and no other |
| PageTables.Pruned | kernel/mm/mappage.cpp:157-167 | clearing the entry of a table without present entries removes that table and changes no leaf |
| Paging.EnsureTable | kernel/mm/mappage.cpp:36-58 | a directory step of MapPages: the table below the entry is there afterwards, in a frame taken from the bitmap if it is new, no leaf has changed, a new entry has the bits present, write and user and no other, and an old one has gained the write bit at most; it fails only with a large page in the entry or with no frame left |
| Paging.PathsDiffer | kernel/mm/mappage.cpp:16-86 | pages less than 2^36 apart take different paths through the tables |
| Paging.MapOne | kernel/mm/mappage.cpp:11-92 | one turn of MapPages: the leaf of that page alone is set, only tables on its path are added, the directory entries on the path are made writable and no others change; it fails with a large page on the path, and otherwise only with no frame left |
| Paging.MapPages | kernel/mm/mappage.cpp:9-100 | of every path that a page of the run takes the leaf is that of the last such page; every other leaf is as before, also after a failure part of the way, which comes at the first page with a large page on its path, or when no frame is left, and not otherwise; the tables stay a tree of allocated frames; with the write bit every such page can be written, every entry on its path being writable, and with the user bit it can be used by the user where the directories before let him through; no empty table appears on success |
| Paging.MappedRights | kernel/mm/mappage.cpp:27-90 | a page mapped writable can be written by the processor: every entry on its path is present and writable; one mapped for the user can be used by him if the directories that were there before let him through |
| Paging.UnmapPage | kernel/mm/mappage.cpp:102-198 | TRUE exactly if the page is mapped by a page of 4 KiB; then its leaf alone goes, and exactly those tables on its path that are left without present entry are removed and freed, none of them free before; all other directory entries stay |
| Paging.NoEmptyMeans | kernel/mm/mappage.cpp:157-189 | in the form in which every table leads to a leaf, no table but the root lacks present entries |
| Paging.MapKeepsNoEmpty | kernel/mm/mappage.cpp:9-100 | a successful map of a present page keeps that form |
| Paging.UnmapKeepsNoEmpty | kernel/mm/mappage.cpp:102-198 | so does a successful unmap |
| Paging.MapThenUnmap | kernel/mm/mappage.cpp:9-198 | mapping a page that was not mapped and unmapping it again restores every leaf, every table location and the bitmap |
| Paging.SetFlags | kernel/mm/mappage.cpp:265-313 | TRUE exactly if the page is mapped by a page of 4 KiB; then its leaf alone keeps its frame and gets the new flags |
| Paging.SetRegionFlags | kernel/mm/mappage.cpp:315-327 | up to the first page that is not mapped so, every page of the region keeps its frame and gets the new flags; nothing else changes |
| Translation.GetIsTranslate | kernel/mm/mappage.cpp:217-261 | the walk returns the translation that the leaves of the tree define, with 0 for none |
| Translation.MappedTranslates | kernel/mm/mappage.cpp:9-100 | after MapPages every byte of the mapped pages has the matching physical address |
| Translation.OthersTranslate | kernel/mm/mappage.cpp:9-100 | and every address outside the run is translated as before |
| Translation.UnmappedTranslates | kernel/mm/mappage.cpp:102-198 | UnmapPage takes away the translation of one page and of no other address |
| Translation.RightForLargePages | kernel/mm/mappage.cpp:230-248 | for a large page the walk agrees with the processor exactly if the low address bits of the entry are clear |
| Translation.WrongWithBit12 | kernel/mm/mm.hpp:20-33 | a 2 MiB page whose entry has the memory-type bit 12 set is translated 4096 bytes too high |
| CloneRelation.LocateCons | kernel/task/task_kthread_constructor.cpp:51-63 | a path through an entry of a table goes on in the tree of its child |
| CloneRelation.CloneStep | kernel/task/task_kthread_constructor.cpp:54-76 | one entry of the loop: if the copy is right for the entries before, and the child for this one, it is right for this one too |
| CloneRelation.CopyMapsTheSame | kernel/task/task_kthread_constructor.cpp:82-100 | the copy maps exactly the same addresses, with the same flags, to pages with the same bytes |
| CloneRelation.CopyIsApart | kernel/task/task_kthread_constructor.cpp:82-100 | source and copy have no table and no page frame in common and the source is as it was, so a write through either is not seen through the other |
| AddressSpaces.CreateUserAddressSpace | kernel/task/task_kthread_constructor.cpp:14-39 | a fresh root with the kernel's entries 256 to 511 over an empty user half, or 0 when no frame is free |
| AddressSpaces.CloneTable | kernel/task/task_kthread_constructor.cpp:43-80 | a copy of the tree below a table in frames that were free, each used once, exactly the frames taken from the bitmap; nothing else is written; 0 only when no frame is left |
| AddressSpaces.CloneUserAddressSpace | kernel/task/task_kthread_constructor.cpp:82-100 | the same for the user half of an address space, under the kernel's half |
| AddressSpaces.BehindNext | kernel/task/task_destructor.cpp:17-62 | what one more entry gives back: the tree below it, all of a 2 MiB page, or nothing for a page of 1 GiB |
| AddressSpaces.ReleaseTree | kernel/task/task_destructor.cpp:23-62 | the managed frames of all tables, pages and 2 MiB pages found in a tree become free and no others; if the frames are allocated and used once, none is released that is free already |
| AddressSpaces.FreeUserAddressSpace | kernel/task/task_destructor.cpp:13-68 | the same for the user half of an address space and its root, and nothing behind the kernel's half; no frame is given back twice if they are allocated and used once; 0 changes nothing |
| AddressSpaces.PagesGivenBack | kernel/task/task_destructor.cpp:17-62 | the frame of every page of the user half, and all 512 frames of a 2 MiB page, are free afterwards if they lie in the managed range |
| AddressSpaces.NothingElseGivenBack | kernel/task/task_destructor.cpp:13-68 | a frame that has become free lies in the managed range, and it is the root, a table or page that the user half leads to, or part of a 2 MiB page of it |
| AddressSpaces.CloneReleasable | kernel/task/task_kthread_constructor.cpp:82-100 | the frames of a fresh copy are allocated and used once, so that FreeUserAddressSpace releases each once |
| AddressSpaces.CloneThenFree | kernel/task/task_destructor.cpp:13-68 | freeing a fresh copy restores the bitmap exactly |
| AddressSpaces.CloneAndFree | kernel/task/task_kthread_constructor.cpp:82-100 | the two run one after the other: the bitmap is as before, and no frame was given back twice; if the copy fails no frame is left |
| PhysicalMemories.Memory.AllocFrame | kernel/mm/physicalalloc.cpp:160-182 | the lowest free frame, or 0 exactly if there is none |
| UserCopy.WalkersAgree | kernel/mm/usercopy.cpp:22-67 | where the walker of the copies succeeds it agrees with GetPhysicalAddress |
| UserCopy.UserReaches | kernel/mm/usercopy.cpp:22-67 | the walker succeeds exactly if a page of any size lies on the path of the address and every entry up to it has the user bit |
| UserCopy.WithinPage | kernel/mm/usercopy.cpp:184-187 | to the end of a page of any of the three sizes, the next byte has the next physical address |
| UserCopy.MappedForUser | kernel/mm/mappage.cpp:27-34 | a page mapped with user rights is reachable by the walker of the copies at once, if the directories that were there before are open to the user |
| UserCopy.ChunkThenRest | kernel/mm/usercopy.cpp:212-232 | a chunk within one page and then the rest is the byte-at-a-time loop, also if pages share frames |
| UserCopy.StoreSucceeds | kernel/mm/usercopy.cpp:202-236 | the byte-at-a-time loop succeeds exactly if for every byte a page lies on the path and every entry up to it has the user bit |
| UserCopy.LoadSucceeds | kernel/mm/usercopy.cpp:166-200 | the same for reading |
| UserCopy.StoreArrives | kernel/mm/usercopy.cpp:202-236 | of the bytes sent to one physical address the last is found there, and no address to which none is sent changes |
| UserCopy.StoreStops | kernel/mm/usercopy.cpp:202-236 | a store that fails has stored exactly the bytes before the first that the user cannot reach |
| UserCopy.LoadFetches | kernel/mm/usercopy.cpp:166-200 | every byte loaded is the one at its physical address |
| UserCopy.LoadStops | kernel/mm/usercopy.cpp:166-200 | a load that fails has loaded exactly the bytes before the first that the user cannot reach |
| UserCopy.StoreThenLoad | kernel/mm/usercopy.cpp:166-236 | what has been stored is loaded again, if no two of the bytes share a physical address |
| UserCopy.Machine.CopyToUser | kernel/mm/usercopy.cpp:202-236 | result and physical memory are those of the byte-at-a-time loop in ascending order, also on failure; it succeeds exactly if the user can reach every byte; null pointers fail unless the length is 0 |
| UserCopy.Machine.CopyFromUser | kernel/mm/usercopy.cpp:166-200 | result and kernel buffer are those of the byte-at-a-time loop, also on failure, and it succeeds exactly if the user can reach every byte |
| PhaseRings.PhaseDecides | kernel/driver/nvme/nvme.cpp:90-99 | the parity argument: the phase of the slot at hand tells whether the next entry has been written, and then the slot holds it |
| PhaseRings.CompletionRing.Poll | kernel/driver/xhci/xhci_isr.cpp:212-223 | the next entry in order if there is one, otherwise nothing, with nothing outstanding |
| PhaseRings.CompletionRing.Post | kernel/driver/nvme/nvme.cpp:90-99 | hardware's side: with room in the ring a posted entry overwrites none that is outstanding |
| PhaseRings.CompletionRing.Drain | kernel/driver/xhci/xhci_isr.cpp:207-546 | everything written and not yet read is delivered once and in order, over any number of wraps |
| PhaseRings.NVMeController.ProcessCompletionQueue | kernel/driver/nvme/nvme.cpp:86-136 | all outstanding completions are taken once and in order, and the status of each command is recorded |
| PhaseRings.OwnOutcome | kernel/driver/nvme/nvme.cpp:104-109 | a command reads back the outcome of its own last completion, whatever else completed |
| PhaseRings.NoOutcome | kernel/driver/nvme/nvme.cpp:104-109 | and a command without a completion keeps the status it had |
| PhaseRings.TransferRing.Push | kernel/driver/xhci/xhci_device.cpp:209-277 | with room in the ring the entry is appended, behind a Link TRB if the lap is full, and overwrites none that is outstanding; without room, which is not looked for, hardware finds nothing any more where it is |
| PhaseRings.TransferRing.Wrap | kernel/driver/xhci/xhci_endpoint.cpp:185-197 | closing a lap writes the Link TRB with the lap's own cycle bit; with room in the ring it keeps all outstanding entries and the agreement on cycle bits |
| PhaseRings.TransferRing.Fetch | kernel/driver/xhci/xhci_endpoint.cpp:176-216 | hardware's side: every entry is fetched once and in order, the Link TRB followed only when it has been written for this lap |
| BlockDevices.ReadBack | kernel/filesys/devfs/devfs.cpp:136-249 | what a byte overwrite wrote is what is read at the same place, and no other byte changes |
| BlockDevices.WindowWrite | kernel/filesys/devfs/devfs.cpp:215-240 | reading sectors, changing part of them and writing them back is a byte overwrite of that part |
| BlockDevices.FitsInBytes | kernel/filesys/partition.hpp:76-77 | a transfer passes the sector bound of the partition exactly if its last byte lies inside |
| BlockDevices.Partition.ReadSectors | kernel/filesys/partition.hpp:75-87 | the sectors of the window, or failure exactly if they leave the partition or the disk cannot |
| BlockDevices.Partition.WriteSectors | kernel/filesys/partition.hpp:90-107 | the same for writing, and failure for a read-only partition |
| BlockDevices.BlockFile.Write | kernel/filesys/devfs/devfs.cpp:190-249 | exactly for a transfer inside a writable partition the disk changes by a byte overwrite at StartingLBA*512 + position, within the partition, and the position advances; otherwise nothing changes |
| BlockDevices.BlockFile.Read | kernel/filesys/devfs/devfs.cpp:136-188 | the buffer gets the bytes of the disk at StartingLBA*512 + position, as many as ReadComplete says; otherwise nothing changes |
| BlockDevices.BlockFile.WriteThenRead | kernel/filesys/devfs/devfs.cpp:136-249 | a write that succeeds, and a read from where it began: the bytes written come back, as many as are readable at all |
| BlockDevices.ReadComplete | kernel/filesys/devfs/devfs.cpp:152-175 | a read in range delivers all its bytes exactly if its sectors make up less than 4 GiB |
| BlockDevices.LargestReadFails | kernel/filesys/devfs/devfs.cpp:165-170 | the largest read from the start of a device delivers nothing |

## Left out

- MapPages: what it leaves behind when frames run out part of the way is not restored by the code; the contract says why it fails, that all other leaves survive and that the tables stay a tree, not that the new tables go again.
- UnmapPage: the call of `VirtualFreePages` at its end is not made; the virtual pool and the page tables are modelled apart, as that function has no check whether the address lies in the pool.
- CloneTable: what a failed copy leaves allocated is not given back by the code; the contract then says that no frame is left and that nothing but free frames was written. Large pages below the table are excluded, as the code would take their bytes for a table.
- CloneUserAddressSpace: the same two limits; the source is required to have no large page in its user half.
- ReleaseTree, FreeUserAddressSpace: the four nested loops are one recursive method, from level to level. Frames below 1 MiB that they give back go to the pool that is not modelled, and the message about a 1 GiB page is not.
- PhysicalFreePages, PhysicalReserve: what they do to the pool of frames below 1 MiB; there address 0 means both frame 0 and failure. The reservations at boot are not modelled either.
- MapPages, UnmapPage: reloading CR3 and invalidating TLB entries; one early return of `MapPages` that does not restore interrupts.
- Sleep: the block reason bits, which nothing of this model reads.
- CheckSleepingTasks: the order in which the sleepers that one check wakes come into the run queue; they all come in with the same vruntime.
- AddTask: the table of processes, with its numbering; the call is one for which the table has a slot.
- Schedule: saving and restoring registers, FPU state, CR3 and stacks, and arming the timer.
- SchedulerStart, ending and destroying tasks, the list of processes and their groups.
- SetTaskSignal and the vruntime store of `RequestThreadedIrq`: they change the key of a task that may be in the tree, or enqueue one that is there already or still on the wheel, so the order of the tree is not kept across them.
- Wakeups by the TTY, the keyboard and system calls that set vruntimes of their own.
- Mutex: the spinlock inside it, and the IsLocked query.
- AcquireRead, ReleaseRead: fairness between readers and writers, which the code does not promise.
- ProcessCompletionQueue: waking the task that waits for a command, and the doorbell write.
- ProcessPendingEvents: what is done with each event, and the dequeue pointer register.
- PushEP0TRB, QueueBulkTransfer, QueueInterruptTransfer: cache flushes, doorbells, the contents of a TRB beside its cycle bit, and the checks of slot and endpoint numbers.
- The eager Link TRB of `kernel/driver/xhci/xhci_cmd.cpp:23-32`, which toggles the cycle state before writing the Link and so does not keep the order of delivery.
- Character devices of DevFS, directories and control calls; GPT parsing (a partition is given by its first and last sector, the last not before the first).
- DumpVaddrMapping and the other diagnostic output, Kmalloc, the DMA pool, the VFS and its file systems, ACPI, PCI, network, sound and display drivers, the module loader and boot.
