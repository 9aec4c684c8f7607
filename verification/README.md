# A verified model of the Pintos kernel's core algorithms

Pintos is a small 32-bit x86 teaching kernel written in C. This project models its scheduler and
synchronization primitives, its intrusive list and hash table, its bitmap, page and block allocators,
its file system, its page tables and program loader, its 64-bit division and its ustar archive code,
and proves what they are for: invariants over every interleaving and every run of calls, refinement of
simple abstract objects (a set, a flat byte array, a partial map, a sequence of booleans), round trips
and conservation. `dafny verify dfyconfig.toml` checks all of it.

How the files fit together:

- `Basics`, `Bits`, `CText`: options, sequences without repetition, bit operations on natural numbers,
  C strings.
- `Scheduler`: thread.c and the semaphores of synch.c as a transition system. Every section that runs
  with interrupts off is one atomic action. `Synch` adds locks and Mesa-style condition variables, with a
  program counter per thread for every point where another thread can run. `Processor` is the same
  scheduler as code that updates its fields in place, each method proved to take the step that
  `Scheduler` describes. `SchedulerRuns` and `SynchRuns` say field by field what each call and each event
  does, and count calls over whole runs and interleavings; `SynchCalls` says what each lock and condition
  variable call has achieved when it returns.
- `LinkedList`, `ListSort`: list.c on heap nodes with a ghost sequence for each list.
- `HashTable`, `Bitmap`: hash.c and bitmap.c.
- `PageTable`, `Mmu`: pte.h, vaddr.h, pagedir.c, the page pools of palloc.c, and the page fault handler.
- `Malloc` is the block allocator as a state machine over calls, `HeapMemory` what its calls do to memory;
  `Allocator` is the code that updates free lists and counts in place.
- `InodeIO`: the byte transfers of inode.c over a disk of sectors. `FileSystem`: the free map, the root
  directory, the inodes on disk, the open inodes and the file handles as one state machine over calls;
  `Volume` is the code that updates them in place. `FileOutcomes` says exactly when each call succeeds and
  what it then does. `FileBytes` puts files and transfers together: what runs of calls and writes make of
  the bytes on disk.
- `Loader`, `ArgStack`: ELF segments and the initial user stack of process.c.
- `Octal`, `Ustar`: octal fields and ustar headers; `UstarMeaning` gives both by byte positions, without the
  parser's own functions. `Arithmetic`: 64-bit division.

Inputs that the kernel does not control are parameters: timer ticks and interrupts are actions, the
outcome of every memory allocation and of every transfer that can fail is an argument (`Luck`,
`memory`, `saved`, `bounceOk`), the disk is a sequence of sectors, and an unbounded supply of names stands
for the addresses of dynamically allocated objects. Where an ASSERT of the source would fail, `FileSystem`
and `Malloc` set a flag that every run is proved never to set; elsewhere the assertion is a Dafny assertion
or precondition that is proved at each call.

Where code and comments disagree the model follows the code. The comment in `dir_add` says that
`inode_read_at` only comes back short at end of file; the code also does so when the bounce buffer cannot
be allocated (`InodeIO.ReadAt`), and `FileSystem.ShortReadDuplicates` shows what follows. The
comment in `setup_stack_arguments` says that the stack is word-aligned; `ArgStack.AlignedIffEven` says
exactly when it is.

## Model

| member | source | states |
|---|---|---|
| `Scheduler.ScheduleKeeps` | pintos/src/threads/thread.c:491-567 | whenever the current thread has given up RUNNING, `schedule` finds a live thread and re-establishes the whole scheduler invariant |
| `Scheduler.NextIsAlive` | pintos/src/threads/thread.c:491-498 | the thread chosen is in use, READY or the idle thread, never dying, and not the thread whose page is about to be freed |
| `Scheduler.DownKeeps` | pintos/src/threads/synch.c:60-76 | a turn of `sema_down` that takes a unit keeps the invariant |
| `Scheduler.ParkedKeeps` | pintos/src/threads/synch.c:60-76 | a turn of `sema_down` that sleeps leaves the thread on exactly that wait list and ready to be descheduled |
| `Scheduler.UpKeeps` | pintos/src/threads/synch.c:108-121 | `sema_up` keeps the invariant and the thread it passes to `thread_unblock` is BLOCKED |
| `Scheduler.ActionKeeps` | pintos/src/threads/thread.c:122-315 | no atomic action of any thread or interrupt can panic for want of a thread to run, and each keeps the invariant |
| `Scheduler.InvMeansThreads` | pintos/src/threads/thread.h:77-82 | exactly one thread is RUNNING; `ready_list` holds exactly the non-idle READY threads, once each; pages are freed once each, only after an exit, never the initial thread's and never the current one's |
| `Scheduler.InvMeansWaits` | pintos/src/threads/synch.c:60-121 | a thread is on at most one wait list, once, and is then BLOCKED; every BLOCKED thread is on one, newly created or idle |
| `Scheduler.InvMeansWakeups` | pintos/src/threads/synch.c:60-121 | no lost wakeup: with sleepers left, the value is at most the number of woken threads that have not re-checked, all READY or RUNNING; value plus downs equals initial value plus ups |
| `Scheduler.BootHolds` | pintos/src/threads/thread.c:105-118 | the state at boot satisfies the invariant |
| `Scheduler.RunKeeps` | pintos/src/threads/thread.c:122-567 | after any run of actions all of these properties hold |
| `Scheduler.MovesUp` | pintos/src/threads/thread.c:301-315 | along any run the thread at index i of `ready_list` has moved up by one for each `schedule` |
| `Scheduler.DispatchedOnTime` | pintos/src/threads/thread.c:491-567 | the thread at index i is dispatched at exactly the (i+1)-th `schedule` |
| `Scheduler.Dispatched` | pintos/src/threads/thread.c:491-567 | every run with more than i calls of `schedule` dispatches the thread at index i on the way, at call i+1 |
| `Scheduler.TicksForceSchedules` | pintos/src/threads/thread.c:122-140 | in any run the ticks delivered are bounded by TIME_SLICE per `schedule`, and the tick count stays below TIME_SLICE; that no slice is shorter: `SchedulerRuns.SliceLasts` |
| `Scheduler.WaitIsBounded` | pintos/src/threads/thread.c:122-140 | in every run with (i+1) * TIME_SLICE ticks there is a point at which the thread at index i of `ready_list` is the one running |
| `Scheduler.WokenInOrder` | pintos/src/threads/synch.c:108-121 | the thread at index i of a wait list stays asleep until, and is woken by, exactly the (i+1)-th `sema_up` |
| `SchedulerRuns.UpDoes` | pintos/src/threads/synch.c:108-121 | `sema_up` adds one unit; the longest waiter, if any, was BLOCKED and is READY, last on `ready_list` and off the wait list; nothing else changes |
| `SchedulerRuns.TryDownDoes` | pintos/src/threads/synch.c:83-102 | `sema_try_down` takes a unit exactly if there is one and changes nothing else |
| `SchedulerRuns.DownDoes` | pintos/src/threads/synch.c:60-76 | a turn of `sema_down` takes a unit, or leaves the caller BLOCKED at the end of the wait list and the front of `ready_list` running |
| `SchedulerRuns.InitDoes` | pintos/src/threads/synch.c:44-51 | `sema_init` gives the value asked for and no waiters, and leaves the other semaphores alone |
| `SchedulerRuns.YieldDoes` | pintos/src/threads/thread.c:301-315 | the caller, unless it is the idle thread, goes READY behind all that are ready, the front one runs with a new slice, and no other thread changes |
| `SchedulerRuns.TickDoes` | pintos/src/threads/thread.c:122-140 | the fourth tick of a slice is such a yield; the first three change nothing but the tick count |
| `SchedulerRuns.ExitDoes` | pintos/src/threads/thread.c:280-297 | the front of `ready_list` runs; the page of the thread that exits is freed unless it is the initial one |
| `SchedulerRuns.CreateDoes` | pintos/src/threads/thread.c:165-205 | `thread_create` makes a BLOCKED thread that its `thread_unblock` puts last on `ready_list` |
| `SchedulerRuns.IdleDoes` | pintos/src/threads/thread.c:388-415 | the idle thread announces itself without giving up the processor, and later blocks so that the front of `ready_list` runs |
| `SchedulerRuns.UnitsCounted` | pintos/src/threads/synch.c:60-121 | over any run a value is the one at the start plus the calls of `sema_up` minus the units taken |
| `SchedulerRuns.HistoryCounted` | pintos/src/threads/synch.c:60-121 | the ups and downs in `Scheduler.InvMeansWakeups` are exactly the calls of the run |
| `SchedulerRuns.SliceLasts` | pintos/src/threads/thread.c:122-140 | a thread that does not block, yield or exit keeps the processor as long as fewer than 4 ticks of its slice have passed |
| `SchedulerRuns.SliceEnds` | pintos/src/threads/thread.c:122-140 | at the fourth tick it goes behind all threads that are ready, and the front one runs |
| `Processor.Machine.Schedule` | pintos/src/threads/thread.c:553-567 | the code takes the specified step, its assertions hold, and the invariant holds afterwards |
| `Processor.Machine.Tail` | pintos/src/threads/thread.c:516-544 | marks the new thread RUNNING, starts a time slice and frees a dying predecessor other than the initial thread |
| `Processor.Machine.Yield` | pintos/src/threads/thread.c:301-315 | the in-place code is the yield step of which `Scheduler.ActionKeeps` and `SchedulerRuns.YieldDoes` speak, and `schedule` finds a thread |
| `Processor.Machine.Exit` | pintos/src/threads/thread.c:280-297 | the in-place code is the exit step of which `Scheduler.ActionKeeps` and `SchedulerRuns.ExitDoes` speak, and the invariant holds |
| `Processor.Machine.Tick` | pintos/src/threads/thread.c:122-140 | the in-place code is the tick step, which yields at every fourth tick of a slice and at no other (`SchedulerRuns.TickDoes`), and the invariant holds |
| `Processor.Machine.DownTurn` | pintos/src/threads/synch.c:60-76 | refines one turn of `sema_down`; it is done exactly if the value was positive |
| `Processor.Machine.TryDown` | pintos/src/threads/synch.c:83-102 | refines `sema_try_down`; it succeeds exactly if the value was positive |
| `Processor.Machine.Up` | pintos/src/threads/synch.c:108-121 | refines `sema_up`; its `thread_unblock` assertion holds |
| `Synch.StepKeeps` | pintos/src/threads/synch.c:175-338 | no step of any thread inside a lock or condition variable operation, no tick and no interrupt panics, and each keeps the joint invariant; what each does: `SynchRuns.UpEventDoes` and its neighbours |
| `Synch.InvMeansExclusion` | pintos/src/threads/synch.c:192-236 | for every lock, semaphore value plus the number of threads between a finished `sema_down` and the matching `sema_up` is 1, and a non-null holder is that thread |
| `Synch.InvMeansSignals` | pintos/src/threads/synch.c:287-338 | a sleeping waiter is still queued or its signaller is about to call `sema_up`; a signalled waiter still inside `cond_wait` is awake and finds its unit; waiters are signalled at most once, in the order they joined |
| `Synch.TraceKeeps` | pintos/src/threads/synch.c:175-338 | after any interleaving all of these properties hold, with the semaphore properties; `SynchRuns.TraceUnits` ties the counts in them to the calls made |
| `SynchRuns.UpEventDoes` | pintos/src/threads/synch.c:108-121 | a `sema_up` by a thread, an interrupt handler, the idle thread, `lock_release` or `cond_signal` adds one unit and moves the longest waiter to the end of `ready_list` |
| `SynchRuns.TryEventDoes` | pintos/src/threads/synch.c:83-102 | `sema_try_down` and `lock_try_acquire` take a unit exactly if there is one and never wait |
| `SynchRuns.DownEventDoes` | pintos/src/threads/synch.c:60-76 | a turn of `sema_down`, also inside `lock_acquire` and `cond_wait`, takes a unit or joins the wait list at its end |
| `SynchRuns.YieldEventDoes` | pintos/src/threads/thread.c:301-315 | `thread_yield` puts the caller last and the front of `ready_list` runs |
| `SynchRuns.TickEventDoes` | pintos/src/threads/thread.c:122-140 | a timer interrupt does so at the fourth tick of a slice and only counts the others |
| `SynchRuns.ExitEventDoes` | pintos/src/threads/thread.c:280-297 | `thread_exit` hands over to the front of `ready_list`; the page is freed |
| `SynchRuns.IdleFirstDoes` | pintos/src/threads/thread.c:388-394 | the idle thread makes itself known before it signals that it has started |
| `SynchRuns.IdleLoopDoes` | pintos/src/threads/thread.c:396-415 | later it makes way for the front of `ready_list` |
| `SynchRuns.NewSemaDoes` | pintos/src/threads/synch.c:44-51 | a new semaphore has the value asked for and no waiters |
| `SynchRuns.NewLockDoes` | pintos/src/threads/synch.c:175-182 | a new lock has one unit and no holder |
| `SynchRuns.NewCondDoes` | pintos/src/threads/synch.c:259-265 | a new condition variable has nobody queued |
| `SynchRuns.TraceUnits` | pintos/src/threads/synch.c:60-121 | over any interleaving a value is the one at the start plus the `sema_up` events minus the units taken, and the counts of the invariant are those events |
| `SynchRuns.DownsReturnWithUnit` | pintos/src/threads/synch.c:60-102 | over any interleaving each `sema_down` that has returned has taken exactly one unit, and one still inside has taken none |
| `SynchRuns.TraceIsRun` | pintos/src/threads/synch.c:60-338 | every interleaving is a run of the scheduler, so what is proved of runs holds of it |
| `SynchRuns.RunsInTime` | pintos/src/threads/thread.c:122-140 | in every interleaving with (i+1) * 4 ticks the thread at index i of `ready_list` gets to run |
| `SynchRuns.WokenInTurn` | pintos/src/threads/synch.c:108-121 | in every interleaving the thread at index i of a wait list sleeps through i calls of `sema_up` and is READY after the next |
| `SynchCalls.AcquireReturns` | pintos/src/threads/synch.c:192-221 | `lock_acquire` returns with the lock held, whatever the others do meanwhile, and so does a `lock_try_acquire` that found it free |
| `SynchCalls.TryAcquireFails` | pintos/src/threads/synch.c:209-221 | any other `lock_try_acquire` returns at once and changes nothing |
| `SynchCalls.ReleaseReturns` | pintos/src/threads/synch.c:228-236 | when `lock_release` returns the lock has no holder and its unit is there |
| `SynchCalls.SignalReturns` | pintos/src/threads/synch.c:311-322 | when `cond_signal` returns exactly the waiter queued first has been signalled, the others are queued in their order |
| `SynchCalls.SignalNobody` | pintos/src/threads/synch.c:311-322 | with nobody queued it does nothing |
| `SynchCalls.BroadcastReturns` | pintos/src/threads/synch.c:330-338 | when `cond_broadcast` returns nobody is queued and all who were have been signalled |
| `SynchCalls.WaitReturns` | pintos/src/threads/synch.c:287-302 | `cond_wait` queues behind all who wait, and returns with the lock held after a signal to it |
| `SynchCalls.CreateReturns` | pintos/src/threads/thread.c:165-205 | when `thread_create` returns the new thread is READY and last on `ready_list` |
| `Synch.StartHolds` | pintos/src/threads/thread.c:105-118 | the state in which `thread_start` waits for the idle thread satisfies the joint invariant |
| `Synch.WaitReturnsHolding` | pintos/src/threads/synch.c:287-302 | `cond_wait` returns only with the lock held and only after its waiter has been signalled |
| `Synch.BroadcastEmpties` | pintos/src/threads/synch.c:330-338 | `cond_broadcast` returns with an empty queue after a number of its own steps fixed when it starts |
| `Synch.BroadcastIsBounded` | pintos/src/threads/synch.c:330-338 | until it returns, `cond_broadcast` has taken no more steps than that, whatever the others do |
| `Synch.BroadcastWakesAll` | pintos/src/threads/synch.c:330-338 | every waiter queued when `cond_broadcast` starts has been signalled when it returns |
| `Synch.HistoriesGrow` | pintos/src/threads/synch.c:287-322 | along any trace the orders of joining and of signalling only grow at their ends |
| `LinkedList.Init` | pintos/src/lib/kernel/list.c:60-68 | the two sentinels form an empty list |
| `LinkedList.Roles` | pintos/src/lib/kernel/list.c:38-57 | `is_head`, `is_interior` and `is_tail` tell the position of a node |
| `LinkedList.Insert` | pintos/src/lib/kernel/list.c:168-178 | the list is the old one with the node inserted, linked both ways |
| `LinkedList.Remove` | pintos/src/lib/kernel/list.c:248-255 | the list is the old one without the node, whose successor is returned |
| `LinkedList.Splice` | pintos/src/lib/kernel/list.c:183-204 | the range moves, in order, in front of a node of the rest of the same list or of another list, and both lists stay well linked |
| `LinkedList.Reverse` | pintos/src/lib/kernel/list.c:325-337 | the nodes between the sentinels are reversed |
| `ListSort.FindEndOfRun` | pintos/src/lib/kernel/list.c:357-372 | finds where the first nondecreasing run ends, and that the next element starts a descent |
| `ListSort.RunIsSorted` | pintos/src/lib/kernel/list.c:341-350 | under a strict weak order, comparing neighbours is enough for sortedness |
| `ListSort.InplaceMerge` | pintos/src/lib/kernel/list.c:379-399 | merges two adjacent sorted ranges in place into one, stably, leaving all other nodes where they were |
| `ListSort.Pass` | pintos/src/lib/kernel/list.c:416-437 | one pass is a stable rearrangement; it counts half the input's runs, rounded up, and leaves at most that many |
| `ListSort.Sort` | pintos/src/lib/kernel/list.c:404-440 | terminates on every well-formed list; the same nodes, sorted, stable, linked both ways between the same sentinels; run counts start at half the input's and at least halve, rounding up, with each pass |
| `ListSort.StableTransitive` | pintos/src/lib/kernel/list.c:404-440 | stable rearrangements compose |
| `HashTable.PowerMeans` | pintos/src/lib/kernel/hash.c:328-340 | `is_power_of_2` holds exactly of the powers of two |
| `HashTable.KeepsTop` | pintos/src/lib/kernel/hash.c:328-333 | turning off the lowest bit of a number that is no power of two keeps its highest bit |
| `HashTable.MaskedIndex` | pintos/src/lib/kernel/hash.c:305-310 | masking with a power of two minus one is the remainder, so it is a bucket index |
| `HashTable.IdealCount` | pintos/src/lib/kernel/hash.c:365-375 | the new bucket count is the greatest power of two that is at most half the number of elements, or 4 if that is less |
| `HashTable.Table.FindElem` | pintos/src/lib/kernel/hash.c:314-326 | looking in one bucket decides whether any element of the table is equal |
| `HashTable.Table.Rehash` | pintos/src/lib/kernel/hash.c:351-413 | the contents stay the same whether or not allocation fails, every element is in its bucket, and without failure the bucket count is the right one, so there are fewer than 4 elements per bucket |
| `HashTable.Table.Insert` | pintos/src/lib/kernel/hash.c:98-110 | adds the element exactly if no equal one is in the table, and otherwise returns that one; the bucket count is the right one unless memory ran out |
| `HashTable.Table.Replace` | pintos/src/lib/kernel/hash.c:114-127 | the equal element, if any, is replaced and returned; the bucket count is the right one unless memory ran out |
| `HashTable.Table.Find` | pintos/src/lib/kernel/hash.c:131-135 | finds an equal element exactly if there is one |
| `HashTable.Table.Delete` | pintos/src/lib/kernel/hash.c:144-154 | removes and returns the equal element, exactly if there is one; the bucket count is the right one unless memory ran out |
| `HashTable.Table.Clear` | pintos/src/lib/kernel/hash.c:53-74 | leaves an empty table with as many buckets; the destructor, if any, is called on each element exactly once |
| `HashTable.Table.Next` | pintos/src/lib/kernel/hash.c:218-235 | moves to the one next element in bucket order, or reports that none is left |
| `HashTable.Table.VisitAll` | pintos/src/lib/kernel/hash.c:199-235 | the iteration idiom visits each element exactly once |
| `Bitmap.FirstRun` | pintos/src/lib/kernel/bitmap.c:295-310 | the first group of consecutive equal bits: it is one, and there is none before it |
| `Bitmap.FlipBack` | pintos/src/lib/kernel/bitmap.c:319-326 | clearing what was found and flipped restores the bitmap |
| `Bitmap.TestedBit` | pintos/src/lib/kernel/bitmap.c:197-203 | the mask test reads the bit |
| `Bitmap.Packed.Set` | pintos/src/lib/kernel/bitmap.c:144-179 | the packed words refine an update of one boolean |
| `Bitmap.Packed.SetMultiple` | pintos/src/lib/kernel/bitmap.c:217-228 | exactly the range is set |
| `Bitmap.Packed.Contains` | pintos/src/lib/kernel/bitmap.c:250-263 | true exactly if some bit of the range has the value |
| `Bitmap.Packed.Scan` | pintos/src/lib/kernel/bitmap.c:295-310 | finds the first fit, or that there is none |
| `Bitmap.Packed.ScanAndFlip` | pintos/src/lib/kernel/bitmap.c:319-326 | first fit, and exactly the bits found are flipped |
| `Bitmap.Packed.ReadFrom` | pintos/src/lib/kernel/bitmap.c:340-351 | the bytes that were delivered replace the first bits, eight to a byte, the other bits stay, bits past the last are clear; it succeeds exactly if nothing is missing |
| `Bitmap.Packed.WriteTo` | pintos/src/lib/kernel/bitmap.c:355-360 | the bytes handed to the file are the bits, eight to a byte; it succeeds exactly if all are taken |
| `Bitmap.Packed.Reload` | pintos/src/lib/kernel/bitmap.c:340-360 | what `bitmap_write` stores, `bitmap_read` brings back; after short transfers each bit is the stored one, the file's old one or the old one in memory, according to how far each transfer went |
| `Malloc.Init` | pintos/src/threads/malloc.c:71-85 | fills exactly seven descriptors, with the block sizes 16 to 1024 and the number of blocks of each in a page |
| `Malloc.DescFor` | pintos/src/threads/malloc.c:102-104 | the smallest descriptor that is large enough, or none |
| `Malloc.BlockInPage` | pintos/src/threads/malloc.c:267-294 | rounding down any block of an arena finds the arena, and the block lies past the header inside the page |
| `Malloc.BlocksApart` | pintos/src/threads/malloc.c:285-294 | two different blocks of an arena do not overlap |
| `Malloc.MallocKeeps` | pintos/src/threads/malloc.c:89-154 | `malloc` keeps the invariant, and a block it returns was not live |
| `Malloc.MallocFails` | pintos/src/threads/malloc.c:89-154 | `malloc` returns null exactly for size 0 or for want of free pages in a row, and wastes less than a doubling plus 16 bytes, or less than a page |
| `Malloc.MallocWhere` | pintos/src/threads/malloc.c:89-154 | a block comes from the front of the free list of its size if there is one, and otherwise from the lowest free pages |
| `Malloc.FreedFirst` | pintos/src/threads/malloc.c:218-264 | a block that is freed is the next one of its size to be handed out, unless its arena goes back |
| `Malloc.PageCountFits` | pintos/src/threads/malloc.c:107-110 | the 32-bit page count of a big request is enough if and only if its arithmetic does not wrap around, and then it is the one `Malloc` uses; otherwise at most one page is asked for |
| `Malloc.FreeKeeps` | pintos/src/threads/malloc.c:218-264 | freeing a live block keeps the invariant and ends just that block's life |
| `Malloc.AllFree` | pintos/src/threads/malloc.c:239-249 | when an arena's count reaches its number of blocks, every block is on the free list, so each can be unlinked |
| `Malloc.ReallocKeeps` | pintos/src/threads/malloc.c:194-214 | `realloc` keeps the invariant; the old block lives on exactly if the new one could not be had |
| `Malloc.ReallocWhen` | pintos/src/threads/malloc.c:194-214 | `realloc` returns null for size 0 and otherwise what `malloc` would return |
| `HeapMemory.ReallocMoves` | pintos/src/threads/malloc.c:194-214 | after `malloc`, the copy and `free` with its 0xcc fill, the new block starts with the old one's bytes and all other live blocks are as they were; if no block could be had, all are |
| `HeapMemory.BytesKept` | pintos/src/threads/malloc.c:89-264 | over any run of allocations, frees, resizes, page traffic of others and writes by owners, a block that is none of these events' own stays live and keeps every byte |
| `HeapMemory.FillSpares` | pintos/src/threads/malloc.c:231-258 | what `free` fills with 0xcc, up to whole pages, overlaps no block that is still live |
| `HeapMemory.WholeApart` | pintos/src/threads/malloc.c:285-294 | live blocks do not overlap even in the room that was not asked for |
| `Malloc.InvMeansBlocks` | pintos/src/threads/malloc.c:89-154 | live blocks are disjoint from each other, from arena headers, from free blocks and from pages that are not theirs |
| `Malloc.InvMeansCounts` | pintos/src/threads/malloc.c:218-264 | each count is the number of free blocks of its arena and below the maximum; every used page is an arena's or somebody else's; with nothing live, all arenas have gone back |
| `Malloc.FreshHolds` | pintos/src/threads/malloc.c:71-85 | the state after `malloc_init` satisfies the invariant |
| `Malloc.RunKeeps` | pintos/src/threads/malloc.c:89-264 | after any sequence of calls, with others using the page pool too, all of these properties hold and no assertion has fired |
| `Allocator.BlockAllocator.Allocate` | pintos/src/threads/malloc.c:89-154 | in-place code with the effect and result of `Malloc.Malloc`, and the invariant holds, so `Malloc.MallocKeeps` and `Malloc.MallocFails` apply |
| `Allocator.BlockAllocator.Release` | pintos/src/threads/malloc.c:218-264 | in-place code with the effect of `Malloc.Free`, and the invariant and every assertion hold |
| `PageTable.EntryRoundTrip` | pintos/src/threads/pte.h:71-104 | a created entry is present and decodes to its frame |
| `PageTable.DecodeBits` | pintos/src/threads/pte.h:78-104 | reading an entry arithmetically is reading it with the masks |
| `PageTable.EncodeBits` | pintos/src/threads/pte.h:71-98 | building an entry arithmetically is or-ing its bits |
| `PageTable.AddressBits` | pintos/src/threads/pte.h:32-39 | directory index, table index, page offset and rounding of an address in terms of its page number |
| `Mmu.Injective` | pintos/src/userprog/pagedir.c:98-137 | no frame is mapped at two user pages |
| `Mmu.Machine.Create` | pintos/src/userprog/pagedir.c:16-23 | a new directory is a copy of the initial one and maps no user page; it fails only if the kernel pool is exhausted |
| `Mmu.Machine.LookupCreate` | pintos/src/userprog/pagedir.c:56-86 | finds or makes the page table without changing any entry of a user page |
| `Mmu.Machine.SetPage` | pintos/src/userprog/pagedir.c:98-119 | adds exactly one translation, or none if the kernel pool is exhausted |
| `Mmu.Machine.GetPage` | pintos/src/userprog/pagedir.c:125-137 | returns the translation |
| `Mmu.Machine.FreePage` | pintos/src/threads/palloc.c:144-149 | frees the one page and fills it with 0xcc |
| `Mmu.Machine.FreePages` | pintos/src/threads/palloc.c:117-182 | clears exactly the bits of the given pages in the pool the first is from, whatever their number, and fills the pages with 0xcc; the assertion that all are in use is what callers owe |
| `Mmu.Machine.PageFault` | pintos/src/userprog/exception.c:125-227 | a handled fault on an unmapped page maps exactly one fresh frame of zeros there, present, writable and for user access; on a mapped one it sets the accessed bit; every other entry and page content stays as it was; a fault is recovered exactly if the kernel took it in user memory access, and killed only above `PHYS_BASE`, for a protection violation or for want of pages |
| `Mmu.Machine.Destroy` | pintos/src/userprog/pagedir.c:27-48 | gives back every frame and table of the directory and the directory, each once, and nothing else |
| `Mmu.Machine.Lifetime` | pintos/src/userprog/pagedir.c:16-48 | create, any faults, destroy: both pools' used maps end as they began |
| `InodeIO.WriteAt` | pintos/src/filesys/inode.c:257-318 | exactly the returned number of bytes at the offset change, to the buffer's; the number is exact, also when writes are denied or the bounce buffer cannot be allocated |
| `InodeIO.MovedIsMost` | pintos/src/filesys/inode.c:257-318 | the number of bytes moved is the greatest possible: up to the end of the file and of the request or, without a bounce buffer, as many whole sectors |
| `InodeIO.WriteBounced` | pintos/src/filesys/inode.c:289-311 | the rest of a partly written sector is kept; the zero-filling branch is never reached |
| `InodeIO.ReadAt` | pintos/src/filesys/inode.c:200-250 | the buffer holds the file's bytes, as many as are available, and is unchanged after them |
| `InodeIO.WriteChangesFile` | pintos/src/filesys/inode.c:257-318 | on the file as a flat array a write replaces exactly its bytes |
| `InodeIO.WriteSparesOthers` | pintos/src/filesys/inode.c:257-318 | files that share no sector, and all other sectors, are unchanged |
| `InodeIO.RoundTrip` | pintos/src/filesys/inode.c:200-318 | reading back gives the bytes written and after them the file's old ones, whether or not writes are denied and whichever bounce buffer cannot be allocated |
| `FileSystem.AllocateKeeps` | pintos/src/filesys/free-map.c:27-41 | sectors handed out were free and belong to no file that is named or open; a failed save leaves the map as it was |
| `FileSystem.InodeCreateKeeps` | pintos/src/filesys/inode.c:72-106 | a new inode and its data are marked and belong to no other file |
| `FileSystem.OpenKeeps` | pintos/src/filesys/inode.c:111-142 | an open inode is found again, or entered once; the reference is accounted for |
| `FileSystem.CloseKeeps` | pintos/src/filesys/inode.c:163-186 | closing gives back one reference and keeps the invariant; the releases it does are of marked sectors |
| `FileSystem.CloseFrees` | pintos/src/filesys/inode.c:163-186 | the last close of a removed file frees exactly its sectors, any other close none |
| `FileSystem.DenialsFit` | pintos/src/filesys/inode.c:322-338 | the deny count lies between 0 and the open count, with room for a handle that does not deny yet |
| `FileSystem.LookupFinds` | pintos/src/filesys/directory.c:91-112 | lookup finds the first entry in use with the name, among those it can read |
| `FileSystem.FreeSlotFinds` | pintos/src/filesys/directory.c:161-172 | the slot chosen is the first free one, or the first that cannot be read; all before it are in use |
| `FileSystem.AddKeepsUnique` | pintos/src/filesys/directory.c:141-179 | names stay unique if and only if no entry with the name lies past a short read of the lookup; an entry is overwritten if and only if the search for a free one was cut short at an entry in use |
| `FileSystem.ShortReadDuplicates` | pintos/src/filesys/filesys.c:45-59 | on a disk that satisfies the invariant, creating a name that exists succeeds if the lookup's reads come back short |
| `FileSystem.NamesStayUnique` | pintos/src/filesys/directory.c:141-216 | over any run, names are unique at every point if and only if no create of the run misses a name that is there |
| `FileSystem.WholeReadsMissNothing` | pintos/src/filesys/directory.c:91-112 | no create misses a name if every lookup can read the whole directory |
| `FileSystem.CreateAdds` | pintos/src/filesys/filesys.c:45-59 | a created file's inode sector belonged to nobody; it has the size asked for and one new entry (its zeroed data: `FileBytes.NewFileIsZero`) |
| `FileSystem.FailedCreateLeaks` | pintos/src/filesys/filesys.c:45-59 | a failed create changes no entry, and leaves the free map as it was exactly if it had no data sectors in hand when the directory failed |
| `FileSystem.NameTakenLeaks` | pintos/src/filesys/filesys.c:45-59 | on a disk that satisfies the invariant, creating a name that exists with size 1 fails and leaves a sector marked |
| `FileSystem.OpenFinds` | pintos/src/filesys/filesys.c:66-77 | an opened file is the one its name stands for, and not a removed one; exactly when a file is opened: `FileOutcomes.OpenWhen` |
| `FileSystem.RemoveFrees` | pintos/src/filesys/filesys.c:83-91 | the name is gone; the sectors are freed at once if the file is not open, and none of them otherwise; exactly when a file is removed: `FileOutcomes.RemoveWhen` |
| `FileOutcomes.OpenWhen` | pintos/src/filesys/filesys.c:66-77 | `filesys_open` succeeds if and only if the root directory can be opened, the name is among the entries that can be read, its inode is open already or there is memory for it, and there is memory for the handle |
| `FileOutcomes.RemoveWhen` | pintos/src/filesys/filesys.c:83-91 | `filesys_remove` succeeds if and only if the root directory can be opened and written, the name is among the entries that can be read and its inode is open already or there is memory for it: open files can be removed |
| `FileOutcomes.CreateWhen` | pintos/src/filesys/filesys.c:45-59 | `filesys_create` succeeds if and only if the root directory can be opened and written, the free map has a sector and beside it a run for the data and can be saved, there is memory, the name is valid and not found, and an entry is free |
| `FileOutcomes.AllocateWhen` | pintos/src/filesys/free-map.c:27-41 | the sectors handed out are the lowest free ones in a row; it fails only if there are none or the map cannot be saved |
| `FileOutcomes.LookupWhen` | pintos/src/filesys/directory.c:91-112 | a name is found if and only if an entry in use within reach of the reads has it, and then the first such entry |
| `FileOutcomes.AddWhen` | pintos/src/filesys/directory.c:141-179 | `dir_add` succeeds if and only if the name is valid and not found, there is an entry to write to, and it can be written |
| `FileOutcomes.OpenDoes` | pintos/src/filesys/filesys.c:66-77 | one new handle, which does not deny writes, on the inode of the first entry of the name; entries and free map stay |
| `FileOutcomes.FailedOpen` | pintos/src/filesys/filesys.c:66-77 | an open that fails leaves handles, entries and free map as they were |
| `FileOutcomes.CreateDoes` | pintos/src/filesys/filesys.c:45-59 | the inode goes to the first free sector, the data to the lowest room beside it, the entry to the first free slot, and exactly these sectors are marked |
| `FileOutcomes.RemoveDoes` | pintos/src/filesys/directory.c:184-216 | exactly the first entry of the name is cleared, all handles stay, and an inode that is open is marked removed and otherwise as it was |
| `FileOutcomes.FailedRemove` | pintos/src/filesys/filesys.c:83-91 | a remove that fails changes no entry, no sector and no handle |
| `FileOutcomes.RemovedUntilLastClose` | pintos/src/filesys/inode.c:163-195 | a file removed while it is open keeps its sectors over any run of calls, until the close of its last handle, which frees exactly them |
| `FileOutcomes.ReopenDoes` | pintos/src/filesys/file.c:38-42 | `file_reopen` fails only for want of memory; the new handle is on the same inode and denies nothing |
| `FileOutcomes.DenyDoes` | pintos/src/filesys/file.c:118-141 | a handle is counted once however often it denies writes, and allowing takes that one count back |
| `FileOutcomes.CloseDoes` | pintos/src/filesys/file.c:45-54 | the handle goes with its denial; the inode goes with the last handle; nothing is freed unless the file was removed |
| `FileOutcomes.DeniedWritesNothing` | pintos/src/filesys/inode.c:322-338 | while any handle denies writes the deny count of the file is positive, so writes through every handle write nothing |
| `FileOutcomes.FormatDoes` | pintos/src/filesys/filesys.c:94-103 | the layout of a fresh disk, sector by sector; formatting fails exactly if the free map, its inode, the directory and its inode do not fit |
| `FileSystem.OpKeeps` | pintos/src/filesys/filesys.c:45-91 | every call, however its allocations and transfers turn out, keeps the invariant |
| `FileSystem.RunKeeps` | pintos/src/filesys/inode.c:72-195 | over any run of calls files that are named or open are marked and pairwise disjoint, there is one open inode per sector, open and deny counts are exact, and no assertion fires |
| `FileSystem.HandleProtects` | pintos/src/filesys/inode.c:163-195 | as long as a handle stays open its file's sectors stay its own and marked, and nothing allocated overlaps them, whatever is removed meanwhile |
| `FileSystem.HandleStays` | pintos/src/filesys/inode.c:111-195 | no call but the close of the handle itself moves, shortens or takes away the file behind it |
| `FileSystem.FormatHolds` | pintos/src/filesys/filesys.c:94-103 | a fresh format satisfies the invariant |
| `FileSystem.FreshRuns` | pintos/src/filesys/filesys.c:17-31 | so do all runs from a fresh format with the free map file open |
| `FileSystem.WritesStayInside` | pintos/src/filesys/inode.c:257-318 | writing one file changes the bytes of no other live file and no live inode |
| `FileBytes.FileIsArray` | pintos/src/filesys/inode.c:72-318 | over any run of calls and writes, as long as a handle stays open the bytes of its file are exactly those at the start with the writes made to it, through any handle, applied in order |
| `FileBytes.CallKeepsBytes` | pintos/src/filesys/inode.c:72-195 | no create, open, close or remove changes a byte of an open file, even one that has been removed |
| `FileBytes.ReplayNothing` | pintos/src/filesys/inode.c:257-318 | a run without writes leaves the bytes of an open file as they were |
| `FileBytes.NewFileIsZero` | pintos/src/filesys/inode.c:72-106 | a created file is named, has the size asked for and reads as zeros, in spite of the writes to free map and directory around it |
| `Volume.Mounted.OpenInode` | pintos/src/filesys/inode.c:111-142 | in-place code with the effect of `FileSystem.InodeOpen`, search of the open inodes included, so `FileSystem.OpenKeeps` applies |
| `Volume.Mounted.CloseInode` | pintos/src/filesys/inode.c:163-186 | in-place code with the effect of `FileSystem.InodeClose`, so `FileSystem.CloseKeeps` and `FileSystem.CloseFrees` apply |
| `Volume.Mounted.MakeInode` | pintos/src/filesys/inode.c:72-106 | in-place code with the effect of `FileSystem.InodeCreate`, zeroing one sector at a time |
| `Volume.Mounted.LookUp` | pintos/src/filesys/directory.c:91-112 | in-place code with the effect of `FileSystem.Lookup`, the scan stops at the entry that `FileSystem.LookupFinds` describes |
| `Volume.Mounted.AddEntry` | pintos/src/filesys/directory.c:141-179 | in-place code with the effect of `FileSystem.DirAdd`, so `FileSystem.AddKeepsUnique` applies |
| `Volume.Mounted.CreateFile` | pintos/src/filesys/filesys.c:45-59 | in-place code with the effect of `FileSystem.Create`, and the invariant holds, so `FileOutcomes.CreateWhen`, `FileOutcomes.CreateDoes` and `FileSystem.FailedCreateLeaks` apply |
| `Volume.Mounted.OpenFile` | pintos/src/filesys/filesys.c:66-77 | in-place code with the effect of `FileSystem.Open`, and the invariant holds, so `FileOutcomes.OpenWhen` and `FileOutcomes.OpenDoes` apply |
| `Volume.Mounted.RemoveFile` | pintos/src/filesys/filesys.c:83-91 | in-place code with the effect of `FileSystem.Remove`, and the invariant holds, so `FileOutcomes.RemoveWhen` and `FileOutcomes.RemoveDoes` apply |
| `Volume.Mounted.CloseFile` | pintos/src/filesys/file.c:45-54 | in-place code with the effect of `FileSystem.FileClose`, and the invariant holds |
| `Volume.Mounted.DenyFile` | pintos/src/filesys/file.c:118-127 | in-place code with the effect of `FileSystem.FileDenyWrite`, and the assertion on the deny count holds |
| `Volume.Mounted.AllowFile` | pintos/src/filesys/file.c:132-141 | in-place code with the effect of `FileSystem.FileAllowWrite`, and the assertions on the deny count hold |
| `Loader.ValidateMeans` | pintos/src/userprog/process.c:437-478 | the 32-bit tests, which may wrap, accept exactly the segments that lie in user space above page 0 |
| `Loader.PlanFits` | pintos/src/userprog/process.c:383-404 | the segment arithmetic of `load` stays in 32 bits, satisfies `load_segment`'s assertions and covers the segment to the end of its last page |
| `Loader.PlannedPages` | pintos/src/userprog/process.c:383-404 | the pages that `load` works out are exactly those that hold a byte of the segment |
| `Loader.PageStep` | pintos/src/userprog/process.c:502-535 | the counts of the copy loop never underflow |
| `Loader.Process.LoadSegment` | pintos/src/userprog/process.c:494-537 | pages are loaded in order, each into a page that was not mapped, with the file's bytes and then zeros; nothing mapped before changes; it succeeds if and only if the file is long enough and, for every page, there is a frame and a table entry, the read succeeds and nothing was mapped there |
| `Loader.Process.LoadHeader` | pintos/src/userprog/process.c:379-410 | one loadable header succeeds if and only if it describes user memory above page 0, can be read and had, and none of its pages was mapped; then its pages, and no others, are new and the segment is in place |
| `Loader.LandedMeans` | pintos/src/userprog/process.c:383-410 | for a valid segment, memory at its address holds its file bytes and zeros to the end of the last page |
| `Loader.Process.LoadHeaders` | pintos/src/userprog/process.c:352-416 | it succeeds if and only if no header is of a refused type (dynamic, interpreter, shared library) and every loadable one is valid, can be read and had, and falls on pages that neither were mapped nor belong to an earlier segment; then every segment is in place and exactly the pages of the segments are new; on success and on failure nothing mapped before changes and every new page is a user page above page 0 |
| `ArgStack.Strtok` | pintos/src/lib/string.c:234-275 | the next token is the next space-separated word, terminated in place, and the saved position leaves exactly the remaining words |
| `ArgStack.WordLaws` | pintos/src/lib/string.c:234-275 | what the words of a line are: nothing has none, a leading space makes no difference, a word ends at the end or at the next space |
| `ArgStack.Split` | pintos/src/userprog/process.c:54-69 | the loop finds exactly the words of the line, and fails exactly at 128 of them |
| `ArgStack.SetupStackArguments` | pintos/src/userprog/process.c:37-113 | the stack ends up holding exactly the specified image, with nothing touched below it, and is left alone on failure |
| `ArgStack.HeaderDecodes` | pintos/src/userprog/process.c:84-107 | a program finds argc, argv and the null sentinel |
| `ArgStack.ArgumentDecodes` | pintos/src/userprog/process.c:71-97 | argv[i] points to the i-th word, above everything else and adjacent to the next |
| `ArgStack.LinesFit` | pintos/src/userprog/process.c:37-113 | for every line with fewer than 128 words the image fits two pages; a line of at most 127 characters takes at most 403 bytes |
| `ArgStack.RoundTrip` | pintos/src/userprog/process.c:37-113 | for every line with fewer than 128 words, decoding memory from the final stack pointer gives back argc, the null sentinel and each word |
| `ArgStack.AlignedIffEven` | pintos/src/userprog/process.c:79-82 | the padding aligns the pointers exactly if the strings take an even number of bytes |
| `Octal.FormatOctal` | pintos/src/lib/stdio.c:469-547 | the reversed digit buffer and zero padding give the number in octal, in at least the given width |
| `Octal.ParseOctalField` | pintos/src/lib/ustar.c:129-162 | the loop computes the specified parse, overflow and bad characters included |
| `Octal.FieldRoundTrip` | pintos/src/lib/ustar.c:129-162 | a formatted number with its null byte parses back to itself |
| `UstarMeaning.ParseOctalMeans` | pintos/src/lib/ustar.c:129-162 | a field is accepted, with value v, if and only if it is at least one octal digit and then a space or a null byte, and the digits stand for v, which fits 32 bits |
| `UstarMeaning.FormattedMeans` | pintos/src/lib/ustar.c:129-162 | a formatted number with its null byte is such a field |
| `Ustar.StripPrefixes` | pintos/src/lib/ustar.c:65-73 | the loop terminates and computes the stripped name |
| `Ustar.StripIsIdempotent` | pintos/src/lib/ustar.c:65-73 | stripping twice is stripping once; the result is not empty, is not `..` and does not start with `/`, `./` or `../` |
| `UstarMeaning.StripMeans` | pintos/src/lib/ustar.c:65-73 | the stripped name is what follows all leading `/`, `./` and `../`, or `.` if that is empty or `..` |
| `Ustar.CalculateChksum` | pintos/src/lib/ustar.c:36-54 | the loop computes the sum with the field read as spaces |
| `Ustar.SumChanges` | pintos/src/lib/ustar.c:36-54 | changing a byte outside the field changes the sum by as much, inside not at all |
| `UstarMeaning.SumIsChecksum` | pintos/src/lib/ustar.c:36-54 | the sum is that of the bytes before and after the field plus eight spaces |
| `Ustar.MakeHeader` | pintos/src/lib/ustar.c:82-118 | the header holds exactly the specified fields, or is left alone if the stripped name is longer than 99 |
| `Ustar.ParseHeader` | pintos/src/lib/ustar.c:181-227 | the code computes the specified parse, whose answer on every block is given by `UstarMeaning.EndMeans`, `UstarMeaning.EntryMeans`, `UstarMeaning.HeaderRefused` and `UstarMeaning.EntryRefused` |
| `UstarMeaning.EndMeans` | pintos/src/lib/ustar.c:166-198 | a block ends the archive if and only if all its bytes are zero |
| `UstarMeaning.EntryMeans` | pintos/src/lib/ustar.c:181-227 | a block is an entry with this type and size if and only if its magic, version and checksum are right, its name ends within its field with no prefix, and the size field of a file holds the size, at most 2 147 483 647; the name is the stripped one |
| `UstarMeaning.HeaderRefused` | pintos/src/lib/ustar.c:199-207 | the first four error messages, each returned if and only if it is the first that applies |
| `UstarMeaning.EntryRefused` | pintos/src/lib/ustar.c:208-221 | the other four, each returned if and only if it is the first that applies |
| `UstarMeaning.MadeFields` | pintos/src/lib/ustar.c:82-118 | byte by byte: name, mode 644 or 755, user and group 0, modification time, type, magic, version and owner names of a made header |
| `UstarMeaning.MadeValues` | pintos/src/lib/ustar.c:82-118 | its size field holds the size as an unsigned word and its checksum field the checksum of the finished header |
| `Ustar.HeaderChecksum` | pintos/src/lib/ustar.c:82-118 | the checksum stored in a made header parses to the sum of the finished header |
| `Ustar.RoundTrip` | pintos/src/lib/ustar.c:82-227 | parsing a made header gives the stripped name, the type and the size, 0 for directories; a negative size comes back as too large a file |
| `Ustar.OneByteBreaks` | pintos/src/lib/ustar.c:181-227 | changing any one byte of a made header outside the checksum field makes parsing fail |
| `Arithmetic.CountLeadingZeros` | pintos/src/lib/arithmetic.c:41-73 | the shifting steps count the leading zeros |
| `Arithmetic.NlzNormalises` | pintos/src/lib/arithmetic.c:41-73 | shifting by the count brings the highest bit to bit 31 |
| `Arithmetic.EstimateIsClose` | pintos/src/lib/arithmetic.c:121-124 | in the large-divisor branch the estimate is the true quotient or one more |
| `Arithmetic.UdivIsDivision` | pintos/src/lib/arithmetic.c:77-127 | `udiv64` is exact floor division for every 64-bit dividend and nonzero divisor, and traps on zero |
| `Arithmetic.NoDivideError` | pintos/src/lib/arithmetic.c:77-127 | no `divl` it issues overflows its 32-bit quotient |
| `Arithmetic.UmodIsRemainder` | pintos/src/lib/arithmetic.c:131-135 | the remainder comes back exactly if it fits 32 bits |
| `Arithmetic.SdivTruncates` | pintos/src/lib/arithmetic.c:139-146 | signed division truncates toward zero, exactly except for the most negative number divided by -1 |
| `Arithmetic.SmodIsRemainder` | pintos/src/lib/arithmetic.c:150-154 | the signed remainder comes back exactly if it fits 32 bits |

## Left out

- Device drivers, the boot code, interrupt descriptors, partitions and the system call layer: hardware and plumbing; a disk is a sequence of sectors and a tick is an action.
- Priority scheduling, `process_wait` and thread identifiers with their lock: stubs in the source, or bookkeeping; a thread is named by a number that is not used again, so the reuse of a freed thread page by a new thread is not modelled.
- `thread_foreach` and the list of all threads; tick statistics.
- Locks and condition variables as in-place code: `lock_acquire`, `cond_wait` and the like span several atomic sections of different threads, so `Synch` gives them as steps over a program counter.
- Sleeping with interrupts off: between being dispatched and re-checking the value in `sema_down` a thread runs with interrupts off; the model also allows an interrupt there, which only adds interleavings.
- Other list functions (`list_insert_ordered`, `list_unique`, `list_max`, `list_min`) and `hash_apply`, `hash_bytes`, `hash_string`, `hash_int`: they would add easy members.
- `calloc`; requests within a header and a page of 4 GB, for which `malloc`'s 32-bit page count wraps around: `Malloc.PageCountFits` says exactly which, the state machine takes sizes as unbounded.
- The layout of arena headers and free-list links: the allocator model keeps them beside the pages, and `HeapMemory` lets any byte of a header or a free block change with each call.
- Locks inside `palloc` and `malloc`, and concurrency inside file system calls, which take no lock: calls are sequential.
- `pagedir_clear_page`, dirty bits, the translation lookaside buffer and kernel mappings above `PHYS_BASE`.
- `init_pool` and `palloc_init`: where the pools lie is a parameter.
- The saved copy of the free map: whether it could be written is an argument, its contents are covered by `Bitmap.Packed.Reload`.
- Directory entries, inodes and the free map as bytes: the root directory is a sequence of entries, and `FileBytes` lets a call rewrite the data of the free map and of the root directory at will; `dir_readdir`, file positions and directories other than the root are not modelled.
- The bytes of program headers and the executable header: `load` starts here from decoded headers; the entry point and `setup_stack` are not modelled.
- Paging of the second stack page: `ArgStack` treats the two pages below `PHYS_BASE` as memory; the source maps the first and leaves the other to the page fault handler, which can fail for want of pages (`Mmu.Machine.PageFault`).
- Conversions of `printf` other than zero-padded octal, and `snprintf` truncation, which no ustar field reaches.
