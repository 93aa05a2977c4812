# Pintos, modelled and proved

Pintos is a small teaching kernel for 80x86 machines. This project models the
parts of it where correctness is hardest to see in the code and proves what
those parts are for. Nothing in it runs the kernel: every statement below is a
Dafny contract or lemma over all inputs, all runs or all reachable states.

The source is imperative C, so the model is too where the source updates
things in place: arrays stay arrays, list nodes stay objects with `prev` and
`next` links, module state becomes the fields of a class, and loops stay loops.
Each such method is tied to a function or predicate on values, and what the
source promises is proved of that.

| file | what it models |
|---|---|
| `Kernel.dfy` | scheduler, alarm list, semaphores, locks and condition variables as one transition system: a step is a stretch of code that nothing can come between |
| `KernelPlaces.dfy` | where every thread is, in every reachable state |
| `KernelTime.dfy` | bounded waiting for the CPU, and the exactness of the alarm |
| `KernelSync.dfy`, `KernelMonitor.dfy`, `KernelCond.dfy` | no lost wake-up, mutual exclusion, condition variables |
| `KernelCalls.dfy` | what each kernel call does: at once, field by field, and by the time it returns, over every run |
| `KernelObject.dfy` | the C code of `thread.c` and `synch.c` on the kernel's variables, proved to run the transition system step by step, and so to be safe whatever the threads call |
| `Lists.dfy`, `Sorting.dfy` | doubly linked lists, and the natural merge sort on them |
| `Heapsort.dfy` | heapsort on an array |
| `Hash.dfy` | the chained hash table and its rehashing |
| `Bits.dfy`, `Bitmap.dfy` | bit operations on words, and the word-packed bitmap |
| `Palloc.dfy`, `PallocRace.dfy` | the page allocator, and its race with unlocked frees |
| `Malloc.dfy`, `MallocHeap.dfy` | the block allocator |
| `InodeIO.dfy` | byte-granular file reads and writes over whole sectors |
| `FsFormat.dfy`, `FsState.dfy`, `FileSys.dfy` | the file system: inodes, free map, root directory, and the operations on files |
| `PageTable.dfy`, `Elf.dfy` | two-level page tables, and loading ELF segments through them |
| `Arithmetic.dfy` | 64-bit division from 32-bit division |
| `Stdio.dfy`, `Ustar.dfy` | integer formatting, and headers of ustar archives |
| `Numbers.dfy`, `Sequences.dfy` | facts about integers and sequences that several of the others use |

## How to read the model

- Machine integers are mathematical integers with the source's width written
  out where it matters: `% 0x1_0000_0000`, `ToI64`, the overflow test of
  `parse_octal_field()`.
- What the kernel cannot decide for itself is a parameter: whether an
  allocation succeeds (`allocOk`, `bounce`), what is in memory that the
  allocator writes to for itself (`junk`), which thread calls what and when the
  timer ticks (the `Action` of a step).
- A precondition of a method is an assertion of the C function, or something
  its caller must own: a block to free, an open file, a page to give back.
- Ghost parameters and fields record positions, histories and owners. The code
  never reads them.

## Where the code does less than it says

These are properties of the code as it stands. Each has a lemma or contract
that gives the exact condition.

- `umod64()` and `smod64()` return 32 bits. The remainder is exact for every
  dividend if and only if the divisor is at most 2^32, or its magnitude at most
  2^31 (`Arithmetic.UmodExactness`, `Arithmetic.SmodExactness`).
- `sdiv64()` truncates toward zero for every pair of arguments except the one
  whose quotient is 2^63, the least integer divided by -1
  (`Arithmetic.Sdiv64`). Dividing the least integer by 1 negates it in signed
  arithmetic, which C leaves undefined; the model wraps, as the machine does.
- `malloc()` says that it returns a block of at least the size asked for. The
  sum that computes the page count wraps in 32 bits: the promise holds if and
  only if the size is below 2^32 - 11, and between 2^32 - 4107 and 2^32 - 12 the
  result is always null (`MallocHeap.PageCntEnough`, `MallocHeap.Heap.Malloc`;
  `MallocHeap.PageCntExample` has sizes of both kinds).
- `realloc()` copies the smaller of the two sizes into what `malloc()` gave it.
  The copy stays inside the new block if and only if the new size is below
  2^32 - 11 or the old block has at most 4084 bytes
  (`MallocHeap.CopyFitsExactly`; `MallocHeap.CopyExample` overruns).
- `calloc()` tests whether the product of its arguments fits. The block it
  returns has room for the product if and only if that is below 2^32 - 11
  (`MallocHeap.CallocEnough`, `MallocHeap.Heap.Calloc`;
  `MallocHeap.CallocExample` passes the test and overflows). It clears past the
  block if and only if the wrapped product is not (`MallocHeap.CallocEnough`).
- `bitmap_scan_and_flip()` says that it returns 0 for a count of zero. It
  returns the start index (`Bitmap.FirstFitNothing`).
- `filesys_create()` gives back the new inode's sector when the directory entry
  cannot be made, but not the file's data sectors. The free map is as before if
  and only if the file has no data or there was no room for it
  (`FileSys.LeakExactly`; `FileSys.LeakExample` loses a sector). So ownership is
  stated one way: what a file owns is marked in the free map.
- `format_integer()` says that it appends enough zeros to match the precision.
  Its buffer stops it at 63 digits: the precision is met if and only if it is at
  most 63 (`Stdio.PrecisionMet`).
- `hash.c` defines least and greatest ratios of elements to buckets that it
  never uses: every update moves to the ideal number of buckets
  (`Hash.HashTable.Rehash`).
- `timer_sleep()` still yields in a loop. The alarm proved here is
  `thread_sleep()`.

## Model

| member | source | states |
|---|---|---|
| `KernelPlaces.PlacesAlways` | pintos/src/threads/thread.c:220-322 | in every reachable state of every run exactly one thread runs, the ready list is exactly the ready threads other than idle, the sleep list and each semaphore's waiters are exactly the threads blocked there |
| `KernelPlaces.ElemOnOneList` | pintos/src/threads/thread.h:79-84 | a thread's `elem` is on at most one of the ready list, the sleep list and one semaphore's waiters, at most once; ready list members are ready, the others blocked |
| `KernelPlaces.ScheduleKeeps` | pintos/src/threads/thread.c:497-573 | with nobody running, `schedule()` leaves every thread in its one place, one of them running |
| `KernelPlaces.LeaveKeeps` | pintos/src/threads/thread.c:220-230 | so does a running thread that blocks, dies or, if it is idle, yields |
| `KernelPlaces.YieldKeeps` | pintos/src/threads/thread.c:308-322 | so does a yield |
| `KernelPlaces.SleepKeeps` | pintos/src/threads/thread.c:593-606 | so does going to sleep |
| `KernelPlaces.WakeDueKeeps` | pintos/src/threads/thread.c:608-634 | so does waking every sleeper that is due |
| `KernelPlaces.TickKeeps` | pintos/src/devices/timer.c:171-175 | so does the timer interrupt, with the yield on return |
| `KernelPlaces.DownKeeps` | pintos/src/threads/synch.c:60-78 | so does one test of `sema_down()`, whether it decrements or blocks |
| `KernelPlaces.UpKeeps` | pintos/src/threads/synch.c:108-121 | so does `sema_up()`, with or without waiters |
| `KernelPlaces.CreateKeeps` | pintos/src/threads/thread.c:172-215 | so does creating a thread, which starts blocked and on no list |
| `KernelPlaces.StepKeeps` | pintos/src/threads/thread.c:127-606 | every step of the system keeps the places |
| `KernelTime.QueueProgress` | pintos/src/threads/thread.c:238-250 | whatever happens in between, a waiting thread moves up one place at each `schedule()`, with at most four ticks to a call |
| `KernelTime.DispatchedInTurn` | pintos/src/threads/thread.c:497-573 | the thread at index k of the ready list is dispatched by exactly the (k+1)-th following `schedule()` |
| `KernelTime.BoundedWaiting` | pintos/src/threads/thread.c:127-147 | and so within 4(k+1) ticks |
| `KernelTime.SliceAlways` | pintos/src/threads/thread.c:143-146 | the time slice counter stays below four: the interrupt that reaches it yields |
| `KernelTime.AlarmAlways` | pintos/src/threads/thread.c:608-634 | over every run no sleeper is overdue, and those woken so far left at the first tick that reached their deadline, on one tick in deadline order, first come first served among equals |
| `KernelTime.SleepsExactly` | pintos/src/threads/thread.c:593-634 | a thread that sleeps n ticks at tick `now` is on the sleep list and blocked until exactly the first tick after `now` that is at least `now + n`; the step that reaches that tick puts it on the ready list, or runs it at once |
| `KernelTime.SleeperRuns` | pintos/src/threads/thread.c:593-634 | and it has the CPU again within four ticks for each thread that is ready when the deadline is reached |
| `KernelTime.WakeDueFinishes` | pintos/src/threads/thread.c:617-631 | stopping the scan at the first sleeper that is not due misses none that is |
| `KernelSync.NoLostWakeup` | pintos/src/threads/synch.c:60-121 | in every reachable state the value is initial plus ups minus downs; a semaphore with waiters has a value at most the number of threads already unblocked and about to test it, so a positive one has such a thread on its way |
| `KernelSync.NoLossAlways` | pintos/src/threads/synch.c:60-121 | the invariant behind that, over every run |
| `KernelSync.DownCovered` | pintos/src/threads/synch.c:60-78 | a test of `sema_down()` keeps it |
| `KernelSync.UpCovered` | pintos/src/threads/synch.c:108-121 | `sema_up()` keeps it |
| `KernelSync.IrqTryCovered` | pintos/src/threads/synch.c:83-102 | `sema_try_down()` from an interrupt handler keeps it |
| `KernelMonitor.MutualExclusion` | pintos/src/threads/synch.c:176-247 | over every interleaving the lock's semaphore value plus the threads between their inner down and up is one, and the holder is nobody or that one thread, also where it is not yet set or already cleared |
| `KernelMonitor.LocksAlways` | pintos/src/threads/synch.c:176-247 | the invariant behind that, over every run |
| `KernelMonitor.LockTaken` | pintos/src/threads/synch.c:192-203 | a thread that decrements the lock's semaphore keeps that invariant |
| `KernelMonitor.LockGiven` | pintos/src/threads/synch.c:228-237 | so does the release's `sema_up()` |
| `KernelCond.SignalsInArrivalOrder` | pintos/src/threads/synch.c:287-338 | those signaled so far followed by those queued are the arrivals, each once |
| `KernelCond.ReturnsMatchSignals` | pintos/src/threads/synch.c:287-326 | every `cond_wait()` that returned was popped by exactly one `cond_signal()`, from the one condition variable it waited on, and that signal's `sema_up()` was done |
| `KernelCond.SignalNeverLost` | pintos/src/threads/synch.c:299-305 | a signal sent while the waiter is anywhere between its `lock_release()` and its `sema_down()` is not lost: its semaphore is up and it is not blocked on it |
| `KernelCond.ReturnsHoldingLock` | pintos/src/threads/synch.c:287-305 | `cond_wait()` returns holding the lock of the condition variable it waited on |
| `KernelCond.NoAssertionFails` | pintos/src/threads/synch.c:192-338 | in every reachable state the running thread is in its own code or its kernel call can go on, and no action that can happen calls `thread_unblock()` on a thread that is not blocked: no assertion inside a call fails |
| `KernelCond.CondsAlways` | pintos/src/threads/synch.c:287-338 | over every run: those popped so far followed by those queued are the arrivals, none twice; every waiter's semaphore is upped and downed at most once, as its ticket says; every popped ticket is upped or its signaler is about to |
| `KernelCalls.SemaInitDoes` | pintos/src/threads/synch.c:44-52 | the value is the argument, nobody waits, and no other semaphore changes |
| `KernelCalls.InitsDo` | pintos/src/threads/synch.c:175-263 | a new lock is free and has no holder; on a new condition variable nobody waits |
| `KernelCalls.DownDoes` | pintos/src/threads/synch.c:60-78 | at once: a positive value goes down by one and the caller goes on; at zero the caller joins the end of the waiters, blocked, and the thread that has been ready longest runs |
| `KernelCalls.TryDownDoes` | pintos/src/threads/synch.c:83-102 | from a thread or an interrupt handler: a positive value goes down by one and nothing else changes; at zero nothing changes |
| `KernelCalls.UpDoes` | pintos/src/threads/synch.c:108-121 | from a thread or an interrupt handler: the value goes up by one, and the one who has waited longest becomes ready, last in line |
| `KernelCalls.TryAcquireDoes` | pintos/src/threads/synch.c:209-221 | a free lock is taken by the caller at once; a lock that is not free changes nothing |
| `KernelCalls.WaitReleases` | pintos/src/threads/synch.c:287-303 | a fresh semaphore with value zero joins the end of the queue, then the lock has no holder, then the lock's semaphore goes up |
| `KernelCalls.YieldDoes` | pintos/src/threads/thread.c:308-322 | the thread that has been ready longest runs and the caller is last in line; alone, it goes on |
| `KernelCalls.ExitDoes` | pintos/src/threads/thread.c:287-303 | the caller leaves the CPU, dying, and no other thread or object changes |
| `KernelCalls.CreateDoes` | pintos/src/threads/thread.c:172-215 | the new thread is first blocked, and then, last in line, ready to begin in its own code |
| `KernelCalls.TickDoes` | pintos/src/threads/thread.c:127-147 | a tick takes the CPU away if and only if it is the fourth of the time slice, or the third while somebody sleeps; otherwise the same thread goes on |
| `KernelCalls.SameCall` | pintos/src/threads/synch.c:60-338 | over every run, whatever else happens in between: from its first step to the one that ends it a thread is in one kernel call, and that last step does what the call is for |
| `KernelCalls.DownTakes` | pintos/src/threads/synch.c:60-78 | when `sema_down()` returns, however often it was woken in vain, its last step has decremented the value |
| `KernelCalls.AcquireTakes` | pintos/src/threads/synch.c:192-221 | when `lock_acquire()`, or a `lock_try_acquire()` that found the lock free, returns, the caller is the holder |
| `KernelCalls.ReleaseGives` | pintos/src/threads/synch.c:228-237 | when `lock_release()` returns the lock's semaphore has just gone up to one and the lock has no holder |
| `KernelCalls.WaitReturns` | pintos/src/threads/synch.c:287-305 | when `cond_wait()` returns the caller holds the lock again, which was free just before, and its own ticket has since been popped from that condition variable and its semaphore upped |
| `KernelCalls.SignalReachesFirst` | pintos/src/threads/synch.c:311-322 | when `cond_signal()` returns the one who had waited longest is off the queue and its semaphore has been upped |
| `KernelCalls.BroadcastReachesAll` | pintos/src/threads/synch.c:330-338 | when `cond_broadcast()` returns nobody waits on the condition variable, and everybody who did when it was called has been popped and its semaphore upped |
| `KernelCalls.ExitIsFinal` | pintos/src/threads/thread.c:287-303 | who has called `thread_exit()` never runs again |
| `KernelObject.System.InsertOrdered` | pintos/src/lib/kernel/list.c:445-459 | the loop inserts before the first sleeper due strictly later |
| `KernelObject.System.UpdateSleptThreads` | pintos/src/threads/thread.c:608-634 | the loop wakes exactly the sleepers that `WakeDue` wakes |
| `KernelObject.System.TimerInterrupt` | pintos/src/devices/timer.c:171-175 | the step `Tick`: clock, wake-ups, time slice, and the yield that `intr_handler()` performs on return |
| `KernelObject.System.Do` | pintos/src/threads/synch.c:60-338 | whichever thread is at whatever point of its kernel call, the code does to the kernel's variables one step of the transition system, and the history stays a run of it; what the steps do is stated field by field in `KernelCalls` |
| `KernelObject.System.StepTryDown` | pintos/src/threads/synch.c:83-102 | returns true exactly when the old value was positive, and takes one off it exactly then |
| `KernelObject.System.Execute` | pintos/src/threads/synch.c:60-338 | after any program of calls and interrupts, and at every moment of it, each thread is in its one place, no wake-up is lost, locks exclude, condition variables are in order, no sleeper is overdue and no time slice is overrun; whoever was at place k of the ready list has had the CPU once 4(k+1) ticks have passed |
| `KernelObject.SafeAlways` | pintos/src/threads/thread.c:127-634 | all of these hold in every reachable state |
| `KernelObject.System.constructor` | pintos/src/threads/thread.c:91-124 | the kernel's variables satisfy `Init`, the state runs start from |
| `Lists.List.constructor` | pintos/src/lib/kernel/list.c:61-68 | an empty list is well linked |
| `Lists.List.Insert` | pintos/src/lib/kernel/list.c:168-179 | one element more, before the given one, and both link directions well formed |
| `Lists.List.Remove` | pintos/src/lib/kernel/list.c:248-255 | that element out, its successor returned, both directions well formed |
| `Lists.List.Splice` | pintos/src/lib/kernel/list.c:183-204 | within one list the stretch moves as a whole, everything else stays in order, both directions well formed |
| `Lists.List.SpliceFrom` | pintos/src/lib/kernel/list.c:183-204 | from one list to another the stretch moves as a whole, and both lists stay well linked and apart |
| `Lists.SpliceResult` | pintos/src/lib/kernel/list.c:183-204 | relinking the three cut places gives exactly that order |
| `Lists.List.FindEndOfRun` | pintos/src/lib/kernel/list.c:357-371 | the end of the longest nondecreasing run from the given element |
| `Lists.List.InplaceMerge` | pintos/src/lib/kernel/list.c:379-396 | two adjacent runs become one sorted run of the same nodes, equal ones in order, the rest of the list untouched |
| `Lists.List.MergePass` | pintos/src/lib/kernel/list.c:404-431 | one pass over k runs leaves at most half of them, rounded up, and returns how many it wrote |
| `Lists.List.Sort` | pintos/src/lib/kernel/list.c:404-440 | for any strict weak order a stable sorted rearrangement of the same nodes, well linked both ways, in one pass or fewer than 1 + lg k passes for k runs |
| `Lists.List.InsertOrdered` | pintos/src/lib/kernel/list.c:445-459 | the element goes just before the first element that is greater, the others stay in order |
| `Sorting.InsertedSorted` | pintos/src/lib/kernel/list.c:445-459 | inserted there, a sorted list stays sorted, in the only place where the element follows its equals |
| `Lists.List.Reverse` | pintos/src/lib/kernel/list.c:325-336 | the same nodes in the opposite order, well linked both ways |
| `Lists.PassMerged` | pintos/src/lib/kernel/list.c:404-431 | merging two runs takes one off the count that the pass halves |
| `Sorting.RunsAppend` | pintos/src/lib/kernel/list.c:404-431 | appending a sorted stretch adds at most one run |
| `Sorting.OneRunSorted` | pintos/src/lib/kernel/list.c:436-439 | a list that is a single run is sorted, so the loop may stop |
| `Sorting.MoveStable` | pintos/src/lib/kernel/list.c:389-395 | moving an element in front of strictly greater ones keeps equal ones in order |
| `Sorting.MergeMove` | pintos/src/lib/kernel/list.c:389-395 | a merge step that moves an element keeps the merge state |
| `Heapsort.Heapify` | pintos/src/lib/stdlib.c:96-126 | the heap property is restored, the elements rearranged, in at most log2(cnt/start) descents |
| `Heapsort.Sort` | pintos/src/lib/stdlib.c:131-152 | for any total preorder the array becomes a nondecreasing rearrangement of what it was |
| `Heapsort.BuildHeap` | pintos/src/lib/stdlib.c:140-141 | the first loop makes the whole array a heap |
| `Heapsort.TakeOne` | pintos/src/lib/stdlib.c:144-151 | each turn of the second loop extends the sorted end by one |
| `Heapsort.Sink` | pintos/src/lib/stdlib.c:102-125 | letting the hole sink into its greatest child moves the hole there |
| `Heapsort.RootGreatest` | pintos/src/lib/stdlib.c:144-151 | the root of a heap is its greatest element |
| `Heapsort.TakeRoot` | pintos/src/lib/stdlib.c:144-151 | taking the root to the end keeps the end sorted |
| `Hash.Init` | pintos/src/lib/kernel/hash.c:24-42 | an empty table of four buckets, or none when memory is out |
| `Hash.HashTable.FindBucket` | pintos/src/lib/kernel/hash.c:305-310 | masking with the bucket count less one selects the remainder, as the count is a power of two |
| `Hash.HashTable.FindElem` | pintos/src/lib/kernel/hash.c:314-326 | an equal element, exactly when the table has one |
| `Hash.HashTable.Find` | pintos/src/lib/kernel/hash.c:131-135 | an equal element, exactly when the table has one |
| `Hash.NewBucketCnt` | pintos/src/lib/kernel/hash.c:364-372 | turning off low bits leaves the largest power of two at most half the number of elements, at least four; from 8 elements on, 2n <= elements < 4n |
| `Hash.HashTable.MoveAll` | pintos/src/lib/kernel/hash.c:387-412 | every element moves to its bucket among the new ones: the set of elements is the same |
| `Hash.HashTable.Rehash` | pintos/src/lib/kernel/hash.c:351-413 | the same elements; the bucket count suits them unless memory ran out, and then nothing changes |
| `Hash.HashTable.Insert` | pintos/src/lib/kernel/hash.c:98-110 | an equal element is returned and nothing inserted, otherwise the set gains the new one; also when rehashing fails |
| `Hash.HashTable.Replace` | pintos/src/lib/kernel/hash.c:114-127 | the new element takes the place of an equal one, which is returned |
| `Hash.HashTable.Delete` | pintos/src/lib/kernel/hash.c:144-154 | an equal element is taken out and returned, or there was none |
| `Hash.HashTable.Run` | pintos/src/lib/kernel/hash.c:98-154 | over every sequence of calls the table agrees with a set modulo equality, and while memory lasts 2n <= elements < 4n from 8 elements on |
| `Hash.HashTable.Iterate` | pintos/src/lib/kernel/hash.c:199-235 | an iteration meets every element exactly once |
| `Hash.MoveOne` | pintos/src/lib/kernel/hash.c:400-409 | moving one element between the old and the new buckets loses and repeats none |
| `Bits.LowestBitOff` | pintos/src/lib/kernel/hash.c:328-340 | `x & (x - 1)` is zero exactly for powers of two; otherwise it is smaller and has the same powers of two below it |
| `Bits.MaskIsMod` | pintos/src/lib/kernel/hash.c:305-310 | masking with a power of two less one is the remainder |
| `Bits.MaskTests` | pintos/src/lib/kernel/bitmap.c:197-203 | masking with one bit tests that bit |
| `Bitmap.FirstFitLowest` | pintos/src/lib/kernel/bitmap.c:291-310 | first fit finds a run whenever there is one, and the lowest |
| `Bitmap.FirstFitNothing` | pintos/src/lib/kernel/bitmap.c:312-326 | for a count of zero the scan returns its start |
| `Bitmap.FillUndone` | pintos/src/lib/kernel/bitmap.c:217-226 | filling a run and filling it back restores the bitmap |
| `Bitmap.BitArray.constructor` | pintos/src/lib/kernel/bitmap.c:78-94 | all bits clear |
| `Bitmap.BitArray.Mark` | pintos/src/lib/kernel/bitmap.c:156-166 | exactly that bit becomes true |
| `Bitmap.BitArray.Reset` | pintos/src/lib/kernel/bitmap.c:169-179 | exactly that bit becomes false |
| `Bitmap.BitArray.Test` | pintos/src/lib/kernel/bitmap.c:197-203 | the bit's value |
| `Bitmap.BitArray.SetMultiple` | pintos/src/lib/kernel/bitmap.c:217-228 | exactly those bits get the value |
| `Bitmap.BitArray.Contains` | pintos/src/lib/kernel/bitmap.c:250-263 | whether any of the bits has the value |
| `Bitmap.BitArray.Scan` | pintos/src/lib/kernel/bitmap.c:295-310 | first fit |
| `Bitmap.BitArray.ScanAndFlip` | pintos/src/lib/kernel/bitmap.c:319-326 | first fit, flipped, and nothing else changed |
| `Palloc.Pool.GetMultiple` | pintos/src/threads/palloc.c:70-100 | without concurrent frees: the lowest run of free pages becomes used, and null exactly when there is none or none is asked for |
| `Palloc.Pool.FreeMultiple` | pintos/src/threads/palloc.c:117-142 | exactly those pages become free |
| `Palloc.Pool.GetThenFree` | pintos/src/threads/palloc.c:70-142 | freeing what was just allocated restores the pool |
| `Palloc.Pool.constructor` | pintos/src/threads/palloc.c:153-170 | the bitmap takes the first pages, the rest are free |
| `Palloc.BitmapPagesExact` | pintos/src/threads/palloc.c:153-160 | as few pages as hold two words and a bit for each page, in whole words |
| `Palloc.Init` | pintos/src/threads/palloc.c:45-64 | start-up panics exactly when a bitmap does not fit; otherwise no page is in both pools and every page is accounted for |
| `PallocRace.NoPageTwice` | pintos/src/threads/palloc.c:70-142 | in every interleaving of single bit operations of the locked allocator and unlocked frees, no page is in two outstanding allocations, each is marked, and none still being freed is in one |
| `PallocRace.AllocatesLowest` | pintos/src/threads/palloc.c:70-100 | undisturbed, the steps of an allocation give the caller the lowest run of free pages, and change nothing exactly when there is none |
| `PallocRace.FreesExactly` | pintos/src/threads/palloc.c:117-142 | undisturbed, the steps of a free make exactly the pages given free |
| `PallocRace.RestExactly` | pintos/src/threads/palloc.c:117-142 | what the owner keeps of an allocation is what it does not free |
| `PallocRace.AssertionHolds` | pintos/src/threads/palloc.c:140-141 | at every moment each bit a freeing thread has not cleared yet is set, so its assertion never fails, and each bit the allocator has yet to set is clear |
| `PallocRace.AllReturned` | pintos/src/threads/palloc.c:70-142 | when nothing is outstanding the pool is empty again |
| `PallocRace.NeverStuck` | pintos/src/threads/palloc.c:70-142 | a thread in the middle of a scan, flip or free can always take its next bit operation |
| `PallocRace.InvAlways` | pintos/src/threads/palloc.c:70-142 | the invariant behind these, over every run |
| `PallocRace.StepKeeps` | pintos/src/lib/kernel/bitmap.c:295-326 | every bit operation keeps it |
| `Malloc.BlockInArena` | pintos/src/threads/malloc.c:267-294 | `block_to_arena()` undoes `arena_to_block()`, and its alignment assertion holds |
| `Malloc.ArenaFull` | pintos/src/threads/malloc.c:71-85 | a page, a header of twelve bytes, and as many blocks as fit after it |
| `Malloc.AlignedIsBlock` | pintos/src/threads/malloc.c:267-282 | conversely an address that passes the assertion with room after it is one of the arena's blocks |
| `Malloc.BlocksApart` | pintos/src/threads/malloc.c:285-294 | two blocks of an arena are the same or do not overlap |
| `Malloc.LiveApart` | pintos/src/threads/malloc.c:71-294 | blocks in use never overlap |
| `Malloc.LiveOffHeaders` | pintos/src/threads/malloc.c:71-294 | nor do they overlap an arena's header |
| `Malloc.LiveOffFree` | pintos/src/threads/malloc.c:71-294 | nor a block on a free list |
| `Malloc.AllReturned` | pintos/src/threads/malloc.c:219-264 | once nothing is in use there is no arena, no free block, and every page is back |
| `Malloc.InvNew` | pintos/src/threads/malloc.c:125-146 | a new arena with all its blocks on the free list keeps the allocator's invariant |
| `Malloc.InvPop` | pintos/src/threads/malloc.c:148-153 | so does handing out the first block, which nobody held |
| `Malloc.InvPush` | pintos/src/threads/malloc.c:236-242 | so does giving a block back; the count never passes the arena's blocks |
| `Malloc.InvDrop` | pintos/src/threads/malloc.c:242-253 | so does returning an arena whose blocks are all free |
| `Malloc.InvBig` | pintos/src/threads/malloc.c:105-120 | so does a big block |
| `Malloc.InvBigGone` | pintos/src/threads/malloc.c:257-262 | and freeing it |
| `Malloc.CountAll` | pintos/src/threads/malloc.c:242-246 | the count reaches the arena's blocks exactly when all are free |
| `MallocHeap.PageCntEnough` | pintos/src/threads/malloc.c:109-109 | the pages hold the request exactly when the 32-bit sum does not wrap, and then one page less would not |
| `MallocHeap.PageCntExample` | pintos/src/threads/malloc.c:109-109 | the largest request gets one page, and one that wraps to none |
| `MallocHeap.Heap.constructor` | pintos/src/threads/malloc.c:71-85 | seven descriptors, from 16 to 1024 bytes, and nothing in use |
| `MallocHeap.Heap.FindDesc` | pintos/src/threads/malloc.c:100-106 | the smallest descriptor that satisfies the request, if any does |
| `MallocHeap.Heap.NewArena` | pintos/src/threads/malloc.c:125-146 | a full arena, exactly when a page is free |
| `MallocHeap.Heap.AddBlocks` | pintos/src/threads/malloc.c:141-145 | the loop lists every block of the arena |
| `MallocHeap.Heap.Malloc` | pintos/src/threads/malloc.c:89-154 | a block nobody holds, large enough if and only if the size is below 2^32 - 11, at most twice a small request; null, with no change, exactly when memory is out, nothing is asked for or the count wraps; other blocks' bytes untouched |
| `MallocHeap.NoBlockMeaning` | pintos/src/threads/malloc.c:89-133 | null exactly when nothing is asked for; or, up to 1024 bytes, when the smallest of the seven sizes that will do has no free block and no page is free; or, above, when there is no run of free pages as long as the 32-bit page count, or that is zero |
| `MallocHeap.Heap.BlockSize` | pintos/src/threads/malloc.c:178-186 | the bytes the caller may use |
| `MallocHeap.Heap.RemoveBlocks` | pintos/src/threads/malloc.c:247-251 | the loop takes exactly the arena's blocks off the list |
| `MallocHeap.Heap.DropArena` | pintos/src/threads/malloc.c:242-253 | the arena's page returns to the pool |
| `MallocHeap.Heap.Free` | pintos/src/threads/malloc.c:218-264 | exactly this block stops being in use; other blocks' bytes untouched |
| `MallocHeap.Heap.Realloc` | pintos/src/threads/malloc.c:194-214 | unless the copy overruns, which a check by the caller excludes, the new block begins with what the old one held, the old one is freed and other blocks' bytes are untouched; null exactly when `malloc()` has no block for the new size, and then nothing changes unless that size is zero |
| `MallocHeap.CopyFitsExactly` | pintos/src/threads/malloc.c:205-211 | `realloc()` copies past its new block if and only if the new size is at least 2^32 - 11 and the old block larger than 4084 bytes |
| `MallocHeap.CopyExample` | pintos/src/threads/malloc.c:205-211 | growing a block of two pages to the largest size copies 8180 bytes into 4084 |
| `MallocHeap.Heap.Calloc` | pintos/src/threads/malloc.c:158-175 | a zeroed block, with room for a * b bytes if and only if that is below 2^32 - 11, whatever the overflow test says; null with no change exactly when the test fails or `malloc()` has no block for the computed size; other blocks' bytes untouched |
| `MallocHeap.CallocEnough` | pintos/src/threads/malloc.c:164-170 | the size computed gets a block with room for the product if and only if the product is below 2^32 - 11 |
| `MallocHeap.TestMeaning` | pintos/src/threads/malloc.c:164-167 | the test lets every product through that fits, and refuses exactly those that wrapped below a factor |
| `MallocHeap.CallocExample` | pintos/src/threads/malloc.c:164-167 | an overflow that the test lets through |
| `MallocHeap.Heap.Run` | pintos/src/threads/malloc.c:89-264 | every call of any program does what it is for: which block it gets or gives up, how large, zeroed or holding what the old one held, and every other block the client holds keeps its bytes |
| `MallocHeap.Heap.RunAndFreeAll` | pintos/src/threads/malloc.c:89-264 | after any program of `malloc()`, `calloc()`, `realloc()` and `free()` calls that overrun no block, freeing what is still held returns every page: the pool is as it was |
| `InodeIO.Device.ReadAt` | pintos/src/filesys/inode.c:200-250 | no more than asked for, not past the end of the file, and short only at its end; every byte is the one of the flat file; without a bounce buffer, whole sectors from a sector's start on, as many as are asked for and there |
| `InodeIO.Device.WriteAt` | pintos/src/filesys/inode.c:257-318 | the same count; byte for byte, that part of the disk becomes the buffer's and all the rest is unchanged; nothing when writes are denied |
| `InodeIO.TransferFits` | pintos/src/filesys/inode.c:207-226 | the count by itself: within the file and the request, short only at the end of the file, or of the whole sectors when there is no bounce buffer |
| `InodeIO.NextChunk` | pintos/src/filesys/inode.c:213-221 | each chunk lies in one sector of the file, or the transfer is over with the full count |
| `InodeIO.Device.WriteChunk` | pintos/src/filesys/inode.c:284-308 | one chunk, directly or around a bounce buffer, extends what has been written |
| `InodeIO.WriteThenRead` | pintos/src/filesys/inode.c:200-318 | reading back gives what was written |
| `FsFormat.InodeRoundTrip` | pintos/src/filesys/inode.c:15-21 | an inode read back from its sector is what was written |
| `FsFormat.Le32Bytes` | pintos/src/filesys/inode.c:15-21 | a word on the disk has its lowest byte first |
| `FsFormat.InodeLayout` | pintos/src/filesys/inode.c:15-21 | start, length and magic are the first three words of the sector |
| `FsFormat.SectorsExact` | pintos/src/filesys/inode.c:25-29 | as few sectors as hold the bytes |
| `FsFormat.MadeEntry` | pintos/src/filesys/directory.c:172-174 | the entry that `dir_add()` composes has the name and sector given |
| `FsFormat.EntryLayout` | pintos/src/filesys/directory.c:17-22 | the sector, the name and its null byte, and at the end whether the entry is in use |
| `FsFormat.SetSlot` | pintos/src/filesys/directory.c:17-22 | overwriting one slot changes that entry only |
| `FsState.NamesApart` | pintos/src/filesys/directory.c:141-179 | two names in use differ, lead to different inodes, and those files share no sector; all their sectors are marked |
| `FsState.RemovedApart` | pintos/src/filesys/inode.c:163-195 | a removed file still open shares no sector with any named one, and its sectors are still marked |
| `FsState.InvNew` | pintos/src/filesys/inode.c:72-106 | a new inode in free sectors keeps the invariant and every other file's content |
| `FsState.InvName` | pintos/src/filesys/directory.c:155-179 | so does naming it in an unused slot |
| `FsState.InvUnname` | pintos/src/filesys/directory.c:204-207 | so does erasing an entry |
| `FsState.InvDrop` | pintos/src/filesys/inode.c:177-182 | so does releasing an inode that nothing refers to |
| `FsState.WriteFrame` | pintos/src/filesys/inode.c:257-318 | a write inside one file changes its flat array, no inode and no other file |
| `FsState.OpenClose` | pintos/src/filesys/inode.c:111-186 | opening counts one more opener of that file only, closing undoes it, and a file removed in between is released by that close exactly when nobody else has it open |
| `FileSys.Format` | pintos/src/filesys/filesys.c:94-103 | whatever the disk held: the free map's file and a root directory of 16 unused entries, in the first sectors that were free |
| `FileSys.FormatAndMount` | pintos/src/filesys/filesys.c:17-31 | after formatting, the invariant, a free map that is the one on disk, and no file |
| `FileSys.FileSystem.Mount` | pintos/src/filesys/free-map.c:53-61 | the free map and the files are those on the disk |
| `FileSys.Reboot` | pintos/src/filesys/filesys.c:17-39 | shutting down with no file open and mounting again changes no file, no name and no free sector |
| `FileSys.PackUnpack` | pintos/src/lib/kernel/bitmap.c:340-361 | a free map written and read is the same map |
| `FileSys.MapSizeExact` | pintos/src/lib/kernel/bitmap.c:331-336 | as few whole words as hold the bits |
| `FileSys.FileSystem.WriteMap` | pintos/src/lib/kernel/bitmap.c:355-361 | fails exactly when a bounce buffer is needed and there is none; after a successful write the free map on disk is the one in memory; no other file changes |
| `FileSys.MapRoundTrip` | pintos/src/lib/kernel/bitmap.c:340-361 | what `bitmap_read()` finds is what `bitmap_write()` wrote |
| `FileSys.FileSystem.FreeMapAllocate` | pintos/src/filesys/free-map.c:27-41 | the lowest run is marked, or nothing is, also when writing the map fails |
| `FileSys.FileSystem.FreeMapRelease` | pintos/src/filesys/free-map.c:44-50 | exactly those sectors, all marked before, become free |
| `FileSys.FileSystem.InodeCreate` | pintos/src/filesys/inode.c:72-106 | a file of zeros of the given length in sectors that were free; on failure nothing changes |
| `FileSys.FileSystem.InodeOpen` | pintos/src/filesys/inode.c:111-151 | one opener more, of the same inode when it is already open |
| `FileSys.FileSystem.InodeClose` | pintos/src/filesys/inode.c:163-186 | only the last close of a removed file releases anything, and it releases exactly the file's own sectors, all still marked |
| `FileSys.FileSystem.LookupName` | pintos/src/filesys/directory.c:91-112 | the first entry in use for the name |
| `FileSys.FileSystem.ReadDir` | pintos/src/filesys/directory.c:221-236 | the next name in use and the position after it, or none left |
| `FsState.NamesListed` | pintos/src/filesys/directory.c:218-236 | a listing has every name in use, and none twice |
| `FileSys.FileSystem.FindSlot` | pintos/src/filesys/directory.c:159-169 | the first unused slot, or the end of the directory |
| `FileSys.FileSystem.DirAdd` | pintos/src/filesys/directory.c:141-179 | succeeds exactly for a valid name not in use and a directory not full; one entry more, no file touched |
| `FileSys.FileSystem.DirRemove` | pintos/src/filesys/directory.c:184-216 | succeeds exactly for a name in use; one entry fewer, the file released unless it is open |
| `FileSys.FileSystem.CreateAt` | pintos/src/filesys/filesys.c:50-55 | all or nothing for names and files; after a failure only the inode's sector is given back, and the free map is exactly that |
| `FileSys.FileSystem.GiveUp` | pintos/src/filesys/filesys.c:54-55 | the inode's sector is released and the other files are untouched |
| `FileSys.LeakExactly` | pintos/src/filesys/filesys.c:50-55 | a failed `filesys_create()` leaves the free map as it was if and only if the file has no data or there was no room for it |
| `FileSys.LeakExample` | pintos/src/filesys/filesys.c:50-55 | a concrete leak of one sector |
| `FileSys.FileSystem.Create` | pintos/src/filesys/filesys.c:45-59 | a new file of zeros under a new name, exactly when there is room and the name is valid and free; every other file unchanged, and the free map after a failure |
| `FileSys.CanCreateExactly` | pintos/src/filesys/filesys.c:45-59 | there is room exactly when the name has 1 to 14 characters, no entry has it, an entry is unused, and besides the lowest free sector, which the inode gets, some run of free sectors holds the content |
| `FileSys.FileSystem.Open` | pintos/src/filesys/filesys.c:66-77 | finds exactly the names in the directory, and changes nothing but that file's openers |
| `FileSys.FileSystem.Remove` | pintos/src/filesys/filesys.c:83-91 | the name goes; a file still open stays intact, otherwise its sectors are released |
| `FileSys.FileSystem.Read` | pintos/src/filesys/file.c:81-86 | no more than asked for, within the file, short only at its end, and byte for byte the file's content |
| `FileSys.FileSystem.Write` | pintos/src/filesys/file.c:109-114 | no more than the buffer, within the file, short only at its end or when denied; byte for byte the buffer's content there and the old content elsewhere, and no other file changes |
| `FileSys.FileSystem.SetDenyCnt` | pintos/src/filesys/inode.c:322-338 | at most one denial for each opener, and only the count changes |
| `FileSys.FileSystem.Run` | pintos/src/filesys/filesys.c:45-91 | every call of any sequence does what it is for, from each state to the next; over every run the invariant holds; the free map on disk stays the one in memory while it can be written; a file that is open, removed or not, keeps its content until it is written to or closed; a file with a name keeps it, its place and its content until the name is removed or the file written to; a file whose writes are denied keeps its content, whoever writes, until they are allowed |
| `PageTable.EntryParts` | pintos/src/threads/pte.h:72-108 | what an entry is made of is what is read from it |
| `PageTable.EntryBits` | pintos/src/threads/pte.h:60-108 | which bits of an entry say present, writable and user, and where the frame number begins |
| `PageTable.PagedirCreate` | pintos/src/userprog/pagedir.c:16-23 | a directory without user pages in a page of its own, exactly when the kernel has a page left |
| `PageTable.AddressSpace.GetPage` | pintos/src/userprog/pagedir.c:125-137 | the frame of a page, exactly when it is mapped |
| `PageTable.AddressSpace.MakeTable` | pintos/src/userprog/pagedir.c:56-86 | a missing page table is made, fails exactly when memory is out, and changes no mapping |
| `PageTable.AddressSpace.SetPage` | pintos/src/userprog/pagedir.c:98-119 | one page more, every other as it was |
| `PageTable.AddressSpace.ClearPage` | pintos/src/userprog/pagedir.c:143-157 | that page gone, every other as it was |
| `PageTable.AddressSpace.Destroy` | pintos/src/userprog/pagedir.c:27-48 | every user page, every page table and the directory's own page goes back to its pool once, and nothing else does |
| `PageTable.AddressSpace.InstallPage` | pintos/src/userprog/process.c:461-470 | fails for a page already mapped, and then changes nothing the process sees |
| `PageTable.AddressSpace.LoadPage` | pintos/src/userprog/process.c:404-422 | a frame is filled and installed; on failure it goes back to the pool |
| `Elf.ValidateMeaning` | pintos/src/userprog/process.c:330-371 | the 32-bit tests accept exactly the segments that lie in user memory above page 0, with matching page offsets |
| `Elf.SegmentFits` | pintos/src/userprog/process.c:277-301 | for such a segment the arithmetic does not wrap, the assertions of `load_segment()` hold, and its pages are user pages above page 0 that cover it |
| `Elf.LoadNext` | pintos/src/userprog/process.c:398-427 | one page holds the file's bytes followed by zeros |
| `Elf.LoadSegment` | pintos/src/userprog/process.c:387-430 | the counters reach zero together without underflow; every page shows the file's bytes then zeros, none was mapped before, earlier pages are unchanged; it fails only for want of memory, file bytes or an unmapped page |
| `Elf.LoadedVisible` | pintos/src/userprog/process.c:276-301 | through the page tables address p_vaddr + k shows file byte p_offset + k below p_filesz, and zero up to p_memsz |
| `Elf.LoadHeader` | pintos/src/userprog/process.c:263-306 | exactly the segment's pages become mapped; it fails only for a bad header, a page taken or want of memory |
| `Elf.LoadAll` | pintos/src/userprog/process.c:250-307 | the loop over the program headers in the file, whose signed offset never passes for a valid one; which fields those are is `Elf.TableRoundTrip` |
| `Elf.SegmentPages` | pintos/src/userprog/process.c:283-301 | the pages loaded are exactly those the segment touches |
| `Elf.Load` | pintos/src/userprog/process.c:237-316 | from the bytes of the file: a successful load shows every loadable segment whole and a zero page for the stack, maps no other page, and starts at the entry point; while memory lasts it succeeds exactly when the file is executable, which `Elf.ExecutableExactly` says field by field |
| `Elf.ExecutableExactly` | pintos/src/userprog/process.c:155-371 | for a file that holds the two structures as C lays them out: it is accepted if and only if the fields of the executable header are the ones asked for, nothing is dynamically linked, and every segment is valid, lies in the file, keeps off page 0 and the stack's page and shares no page with another; and the entry point is e_entry |
| `Elf.PhdrRoundTrip` | pintos/src/userprog/process.c:176-186 | each field the kernel uses of a program header is read from where the structure has it |
| `Elf.TableRoundTrip` | pintos/src/userprog/process.c:250-262 | and so for every header of the table |
| `Elf.EhdrRoundTrip` | pintos/src/userprog/process.c:155-171 | e_entry, e_phoff and e_phnum are read from where the structure has them, and the header is accepted if and only if its fields are the ones asked for |
| `Elf.WriteFlag` | pintos/src/userprog/process.c:200-200 | a segment is writable if and only if bit 1 of its flags is set |
| `Arithmetic.Divl` | pintos/src/lib/arithmetic.c:25-37 | the instruction's quotient, for operands on which it does not trap |
| `Arithmetic.Nlz` | pintos/src/lib/arithmetic.c:39-74 | the number of leading zeros |
| `Arithmetic.Udiv64` | pintos/src/lib/arithmetic.c:76-128 | the floor of n/d for all 64-bit n and nonzero d, with no `divl()` out of range |
| `Arithmetic.LongDivision` | pintos/src/lib/arithmetic.c:80-112 | the two-step division by a 32-bit divisor is exact |
| `Arithmetic.EstimateOffByOne` | pintos/src/lib/arithmetic.c:113-127 | the estimate is the quotient or one above it |
| `Arithmetic.EstimateCheck` | pintos/src/lib/arithmetic.c:123-126 | the correction picks the right one |
| `Arithmetic.Umod64` | pintos/src/lib/arithmetic.c:130-135 | n mod d, reduced to 32 bits |
| `Arithmetic.UmodExactness` | pintos/src/lib/arithmetic.c:130-135 | exact for every n if and only if d is at most 2^32 |
| `Arithmetic.Sdiv64` | pintos/src/lib/arithmetic.c:137-147 | truncates toward zero for every pair of arguments except the one whose quotient is 2^63 |
| `Arithmetic.Smod64` | pintos/src/lib/arithmetic.c:149-154 | the truncated remainder, reduced to 32 bits, for every pair of arguments |
| `Arithmetic.SmodExactness` | pintos/src/lib/arithmetic.c:149-154 | exact for every n if and only if the divisor's magnitude is at most 2^31 |
| `Arithmetic.TruncRemainder` | pintos/src/lib/arithmetic.c:137-154 | the truncated remainder is smaller than the divisor and has the dividend's sign |
| `Stdio.PutBody` | pintos/src/lib/stdio.c:501-524 | the digits, precision zeros and # zero, in at most 64 characters |
| `Stdio.PrecisionMet` | pintos/src/lib/stdio.c:515-524 | there are as many digits as the precision asks for if and only if it is at most 63 |
| `Stdio.FormatInteger` | pintos/src/lib/stdio.c:469-547 | what is output, for every flag, width and precision, is the field; it reads as the value, has a minus sign exactly for a negative number, and is as wide as asked for or needed if and only if padding goes on one side |
| `Stdio.DigitsMean` | pintos/src/lib/stdio.c:501-513 | the digits read back, whatever the base and grouping, give the value |
| `Stdio.FieldMeans` | pintos/src/lib/stdio.c:469-547 | read as a whole, with padding, sign, prefix and commas, a field stands for the value printed |
| `Stdio.FieldWidth` | pintos/src/lib/stdio.c:526-546 | a field is as wide as asked for, or as needed, if and only if it is not padded on both sides |
| `Stdio.FieldShape` | pintos/src/lib/stdio.c:526-546 | from left to right spaces, sign, prefix, zeros, digits, spaces; the padding is of one kind, which the flags say |
| `Stdio.SignAndPrefix` | pintos/src/lib/stdio.c:482-499 | which sign and which prefix, for all flags and values |
| `Stdio.BodyLength` | pintos/src/lib/stdio.c:515-524 | as many digits as the value has or the precision asks for, and with `#` an octal number begins with a zero |
| `Stdio.NoLeadingZero` | pintos/src/lib/stdio.c:501-513 | the digits of a value do not begin with a zero |
| `Stdio.Commas` | pintos/src/lib/stdio.c:505-509 | commas stand between groups of digits counted from the right, and nowhere else |
| `Stdio.FieldSign` | pintos/src/lib/stdio.c:482-494 | a minus sign is in the field if and only if a negative number was printed |
| `Stdio.BasesReadable` | pintos/src/lib/stdio.c:138-141 | the four bases meet what reading back needs |
| `Stdio.Vsnprintf` | pintos/src/lib/stdio.c:25-52 | the output cut to leave room for the null byte, and the length it would have had |
| `Ustar.StripAntisocialPrefixes` | pintos/src/lib/ustar.c:65-73 | the loop computes `Strip` |
| `Ustar.StripSafe` | pintos/src/lib/ustar.c:56-73 | a stripped name is not empty, not "..", starts with none of the prefixes, and stripping again changes nothing |
| `Ustar.StripSuffix` | pintos/src/lib/ustar.c:56-73 | stripping takes off nothing but such prefixes: the rest of the name is left, or "." for an empty rest or ".." |
| `Ustar.ParseOctalField` | pintos/src/lib/ustar.c:129-162 | the loop computes `ParseFrom` |
| `Ustar.ParseMeaning` | pintos/src/lib/ustar.c:120-162 | a field parses exactly when it is octal digits ended by a space or null byte inside it and the value fits 32 bits |
| `Ustar.OctalPrinted` | pintos/src/lib/stdio.c:469-547 | a number that fits is printed as exactly that many octal digits |
| `Ustar.OctalRoundTrip` | pintos/src/lib/ustar.c:102-107 | what is printed into a field parses back |
| `Ustar.CalculateChksum` | pintos/src/lib/ustar.c:36-54 | the sum of the bytes with the checksum field as spaces |
| `Ustar.SumMeaning` | pintos/src/lib/ustar.c:36-54 | the sum of all bytes with spaces in the checksum's own field |
| `Ustar.SumSame` | pintos/src/lib/ustar.c:46-51 | the checksum does not depend on its own field |
| `Ustar.MakeHeader` | pintos/src/lib/ustar.c:82-118 | fails exactly for a stripped name over 99 bytes; otherwise every byte is as the layout says, the checksum agrees, and the header parses back to the stripped name, type and size, or is refused for a regular file of negative size |
| `Ustar.HeaderRoundTrip` | pintos/src/lib/ustar.c:82-227 | parsing a header that was made gives the stripped name, the type, and the size, zero for a directory; a regular file of 2 GB or more is refused |
| `Ustar.AcceptedExactly` | pintos/src/lib/ustar.c:181-227 | an entry if and only if magic, version and checksum are right, the name ends in its field, there is no prefix, the type is known and the size fits; and then it says what the fields say |
| `Ustar.TamperedRefused` | pintos/src/lib/ustar.c:206-207 | a header that was made and then changed in any one byte outside the checksum is never taken for an entry |
| `Ustar.RefusedBecause` | pintos/src/lib/ustar.c:199-220 | what each error message says of the header is so |
| `Ustar.OtherParts` | pintos/src/lib/ustar.c:99-115 | mode, owner, time and names of a header that was made |
| `Ustar.HeaderParts` | pintos/src/lib/ustar.c:10-33 | the fields the parser looks at, at their offsets |

## Left out

- Device drivers (disk, keyboard, video, serial, timers and the like): port I/O and timing; the block device is an array of sectors.
- Boot code, context switch, interrupt entry, segment and interrupt tables, TLB flushing: assembly, treated as changing the running thread.
- Start-up before `thread_start()`: runs begin from the state it leaves behind.
- `thread_create()`'s own memory: a created thread gets its page and stack frames without failing, and a dying thread's page is not tracked.
- 64-bit overflow of the tick counter and 32-bit overflow of a semaphore's value: both are unbounded here.
- Priorities, priority donation and the multilevel feedback scheduler: not implemented in the source beyond accessors.
- `timer_sleep()` and the busy-wait delays.
- `list_unique()`, `list_max()`, `list_min()`: single loops over a list.
- The elements of hash buckets are a sequence for each bucket: the buckets' links are those of `list.c`, proved there, and not linked again here. `hash_clear()`, `hash_apply()` and the hash functions are left out.
- MallocHeap.Heap.Realloc: when the copy overruns nothing is promised, because it then writes over memory that others use.
- MallocHeap.Heap.Calloc: nothing is promised when clearing overruns the block, for the same reason.
- The locks of `malloc.c`: calls are one after another.
- Memory contents of pages from the page allocator: zeroing on request and the fill pattern on free are not modelled.
- `palloc_free_multiple()` by a thread that does not own the pages: excluded, as the kernel asserts that they are in use.
- The list of open inodes is a map from sector to inode: at most one inode for each sector is then true by construction.
- Failure of kernel memory allocation inside the file system, except for the buffer with which the free map is written: with it a short read can pass for the end of the directory.
- Too small a disk: formatting it panics, and the model requires room for the free map and the root directory.
- File-system devices of 2 GB and more: `off_t` is a signed 32-bit integer.
- File positions, `dir_reopen()` and `file_reopen()`: simple members around what is modelled.
- Concurrent file-system calls: the source has no locks there, and callers must not overlap.
- Accessed and dirty bits of page table entries.
- `format_string()`, the parsing of format strings and the printing of messages.
- The buffer cache, indirect inodes, subdirectories and file descriptors: not in the source.
- Tests, examples and utilities.
