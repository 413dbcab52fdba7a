# Pintos, verified in Dafny

A model of the Pintos teaching kernel and of the container library that comes with it, with proofs
about both. Pintos runs on a 32-bit x86 machine with one processor; `size_t`, `int` and pointers
are 32 bits wide here as they are there. Run `dafny verify dfyconfig.toml` to check everything.

What is proved, one part of the system at a time:

- **Threads and synchronization** (`threads/thread.c`, `threads/synch.c`): a machine of threads,
  semaphores, locks and condition variables whose steps are the sections that run with interrupts
  off, any thread being able to be interrupted between two of them. Over every run: one thread
  runs, list elements are in one list, a ready thread is dispatched in bounded time, no wakeup is
  lost, locks exclude, and a signalled waiter returns holding its lock. `Scheduler` has the thread
  operations, `Synch` the steps, `SynchWakeups`, `SynchSafety`, `SynchSteps` and `SynchRuns` the
  invariant, `SynchTheorems` the results, `SynchCalls` what each call promises its caller from the
  call to its return, `SynchSignals` whom cond_signal and cond_broadcast wake, and `Kernel` the
  code that changes the lists and fields in place, proved against those operations.
- **Parents and children** (`userprog/process.c`, `threads/thread.c`): `ProcessWait`.
- **The intrusive list** (`list.c`): `LinkedList` has the link surgery; `ListSorting` the in-place
  natural merge sort, against `MergeSortSpec`; `ListShuffling` and `ListOrdering` the rest.
- **64-bit division** on a machine that divides 64 by 32 bits (`lib/arithmetic.c`): `Arithmetic`.
- **The file system** (`filesys/`): a state has the free map, the list of open inodes, the openers
  and the sectors of the device. `InodeIO` is about reading and writing bytes, `DiskFormat` about
  what inodes, entries and the map look like in them, `OpenInodes` about the list, `FileSystem`
  about which sector belongs to whom, `FileSystemDevice` about the device holding all of it,
  `FileSystemRuns` about whole calls and `FileSystemFormat` about formatting. The results over
  every run, writes and reboots included, are in `FileSystemTheorems`: no sector has two owners,
  the counts are those of the openers, and each byte of a file is the one last written to it.
  `FileSystemNames` says which file filesys_open, filesys_create and filesys_remove are about,
  and exactly when they succeed. `FileSystemOrphans`, with `FileSystemLeaks`, says for every
  event of a run exactly when it leaves marked sectors that nothing can reach, and `Directory`
  when names are entered twice. `FileSystemCalls` has the calls as the code makes them, on the
  words of the bitmap, the list and the device.
- **Memory** (`bitmap.c`, `threads/palloc.c`, `threads/malloc.c`): `Bitmap`, `PageAllocator`,
  `Palloc` and `PallocCalls` (the same with interruptions, pages' contents included), `Malloc` and
  `MallocRuns`.
- **The hash table** (`hash.c`), **heapsort** (`lib/stdlib.c`), **page tables**
  (`userprog/pagedir.c`), **the first stack of a process** (`userprog/process.c`), and **printers
  and parsers** (`lib/stdio.c`, `lib/stdlib.c`, `lib/ustar.c`): `HashTable`, `HeapSort`, `PageDir`,
  `StackSetup`, `Formatting`, `Printf` and `Ustar`, with `PrintfLaws` and `UstarLaws` on what each
  conversion and each header looks like.

A module's specification functions say on values what a call does; classes and methods do it in
place, as the code does, and are proved equal to them; lemmas prove about the functions what the
system promises. Memory allocation, disk errors, interrupts and `rand()` are arguments that may
have any value, so every failure path is covered where the state it leaves matters.

Where the code and its comments disagree, the code is followed:

- `umod64` returns 32 bits and `smod64` a signed 32-bit value, so both truncate; the exact
  conditions are proved.
- `filesys_create` leaks the data sectors when the name cannot be entered. It is also not the only
  call after which a marked sector may be used by no inode in the directory or open:
  `FileSystemOrphans` has the exact condition for every event and over every run, and two inputs.
- `dir_add` may write over an entry in use, or enter a name twice, when a read fails for want of
  memory; the exact conditions, with an input for each, are in `Directory`.
- The comment on `free_map_close` says that it writes the free map; it only closes the file.
- `bitmap_scan` with a count of 0 returns its start, not 0.
- The overflow test in `calloc` lets overflows pass, and `malloc` of almost 4 GB wraps; the exact
  conditions are proved.
- A flag `-` in a `printf` format drops the flag `0`; one that a negative argument for a `*` width
  brings does not, and the number is padded on both sides.

## Model

| member | source | states |
|---|---|---|
| Scheduler.RunValid | 20161211_pintos_prj2/src/threads/thread.c:150-377 | In every state any sequence of scheduler operations leads to, exactly one thread is RUNNING, the ready list has no thread twice and holds exactly the READY threads other than the idle thread, all_list has each living thread once, and the only thread left dying is the initial one, which is never freed. |
| Scheduler.DoValid | 20161211_pintos_prj2/src/threads/thread.c:150-377 | One operation (tick with its yield on return, block, unblock, yield, exit, creation) keeps those facts. |
| Scheduler.UnblockValid | 20161211_pintos_prj2/src/threads/thread.c:289-301 | Unblocking a blocked thread keeps them, so it was not on the ready list before. |
| Scheduler.InitValid | 20161211_pintos_prj2/src/threads/thread.c:513-532 | Creating a thread, blocked and not on the ready list, keeps them. |
| Scheduler.ScheduleValid | 20161211_pintos_prj2/src/threads/thread.c:614-628 | Once the current thread is no longer RUNNING, schedule() and its tail make one thread RUNNING again and free a dying predecessor; on the way an empty ready list never sends the processor to a null idle thread. |
| Scheduler.QueueMoves | 20161211_pintos_prj2/src/threads/thread.c:552-559 | A call of schedule() dispatches the front of the ready list and moves every other thread up exactly one place; no other operation takes a thread off the list. |
| Scheduler.DispatchedWithinCalls | 20161211_pintos_prj2/src/threads/thread.c:614-628 | A thread at position k of the ready list is running by the (k+1)-st call of schedule(), in every run. |
| Scheduler.TicksForceCalls | 20161211_pintos_prj2/src/threads/thread.c:165-168 | A run of ticks forces calls of schedule(): at most 4 ticks (TIME_SLICE) pass per call. |
| Scheduler.DispatchedWithinTicks | 20161211_pintos_prj2/src/threads/thread.c:150-168 | Bounded waiting: in any run with 4(k+1) handled timer ticks, a thread at position k of the ready list gets the processor. |
| Scheduler.SliceLasts | 20161211_pintos_prj2/src/threads/thread.c:150-168 | The slice is the running thread's own: in a run in which it neither yields nor blocks nor exits, and with fewer ticks than its slice has left, it is still running, and those that were ready still wait in the same order. |
| Scheduler.YieldRotates | 20161211_pintos_prj2/src/threads/thread.c:363-377 | At the last tick of its slice, or when it yields, a thread goes behind all that are ready, and the front of that line runs with a slice of its own. |
| Scheduler.IdleRunsLast | 20161211_pintos_prj2/src/threads/thread.c:552-559 | The idle thread takes over from another only when that one blocks or exits and none is ready. |
| Scheduler.BlockedStays | 20161211_pintos_prj2/src/threads/thread.c:271-301 | A blocked thread, other than the idle thread, is not running and not on the ready list in any run that does not unblock it. |
| Scheduler.UnblockedJoins | 20161211_pintos_prj2/src/threads/thread.c:289-301 | thread_unblock puts the thread, which was not on it, at the end of the ready list and leaves the running thread, the slice and the others' order alone. |
| Kernel.Threads.NextThreadToRun | 20161211_pintos_prj2/src/threads/thread.c:552-559 | Pops the front of the ready list, or gives the idle thread if the list is empty. |
| Kernel.Threads.ScheduleTail | 20161211_pintos_prj2/src/threads/thread.c:577-605 | Marks the new thread running, starts a new slice and frees a dying predecessor other than the initial thread; changes nothing else. |
| Kernel.Threads.DoSchedule | 20161211_pintos_prj2/src/threads/thread.c:614-628 | In place, what the specification of schedule() says; its ASSERTs on the current status and on the next thread hold. |
| Kernel.Threads.ThreadBlock | 20161211_pintos_prj2/src/threads/thread.c:271-279 | Blocks the running thread and switches, as specified, and keeps the scheduler invariant. |
| Kernel.Threads.ThreadUnblock | 20161211_pintos_prj2/src/threads/thread.c:289-301 | Appends a blocked thread to the ready list, as specified, without preempting, and keeps the invariant. |
| Kernel.Threads.ThreadYield | 20161211_pintos_prj2/src/threads/thread.c:363-377 | Puts the running thread, unless it is the idle thread, at the end of the ready list and switches; keeps the invariant. |
| Kernel.Threads.ThreadTick | 20161211_pintos_prj2/src/threads/thread.c:150-168 | Counts the tick and yields on return exactly at the end of the slice; keeps the invariant. |
| Kernel.Threads.ThreadExit | 20161211_pintos_prj2/src/threads/thread.c:338-359 | Takes the running thread off all_list, marks it dying and switches, as specified, and keeps the invariant. |
| SynchSteps.ProjectsToScheduler | 20161211_pintos_prj2/src/threads/synch.c:60-339 | Every step of a semaphore, lock or condition variable acts on the threads as one operation of the scheduler. |
| SynchSafety.CallIsSafe | 20161211_pintos_prj2/src/threads/synch.c:60-339 | No call makes an ASSERT of thread.c or synch.c fail, if the caller meets the function's own demands. |
| SynchSafety.ContinueIsSafe | 20161211_pintos_prj2/src/threads/synch.c:60-339 | Nor does any later step of a call that was interrupted. |
| SynchSafety.StartInv | 20161211_pintos_prj2/src/threads/thread.c:133-146 | The invariant holds when thread_start has enabled interrupts. |
| SynchRuns.StepKeeps | 20161211_pintos_prj2/src/threads/synch.c:60-339 | Every step, of any thread, keeps the invariant of threads, wait lists, locks and conditions. |
| SynchWakeups.SchedulingKeeps | 20161211_pintos_prj2/src/threads/thread.c:271-377 | Steps that touch no semaphore lose no wakeup and keep each blocked thread on its one wait list. |
| SynchWakeups.UpKeeps | 20161211_pintos_prj2/src/threads/synch.c:108-121 | sema_up keeps the count, the lists and the no-lost-wakeup invariant. |
| SynchWakeups.PopWakes | 20161211_pintos_prj2/src/threads/synch.c:108-121 | If threads wait, sema_up wakes the first and the woken ones still number at least the new value. |
| SynchWakeups.DownKeeps | 20161211_pintos_prj2/src/threads/synch.c:60-102 | A down that finds a positive value keeps all of that. |
| SynchWakeups.SleepKeeps | 20161211_pintos_prj2/src/threads/synch.c:60-76 | A down that finds 0 puts the thread on one list, once, and keeps all of that. |
| SynchWakeups.InitKeeps | 20161211_pintos_prj2/src/threads/synch.c:44-51 | sema_init of a semaphore that no thread sleeps on keeps all of that. |
| SynchSteps.LocksEnter | 20161211_pintos_prj2/src/threads/synch.c:192-222 | A down of a lock's semaphore makes the thread the only one inside. |
| SynchSteps.LocksHolder | 20161211_pintos_prj2/src/threads/synch.c:192-237 | Setting and clearing `holder`, outside the atomic section, keeps: a non-null holder is the thread inside. |
| SynchSteps.LocksLeave | 20161211_pintos_prj2/src/threads/synch.c:229-237 | The up in lock_release leaves no thread inside. |
| SynchSteps.CondsEnqueue | 20161211_pintos_prj2/src/threads/synch.c:288-303 | cond_wait enqueues a waiter with a fresh semaphore of 0, not yet signalled. |
| SynchSteps.CondsPop | 20161211_pintos_prj2/src/threads/synch.c:312-323 | cond_signal takes the waiter that has waited longest off the list, and no other. |
| SynchSteps.CondsSend | 20161211_pintos_prj2/src/threads/synch.c:312-323 | Its sema_up goes to just that waiter. |
| SynchSteps.CondsTake | 20161211_pintos_prj2/src/threads/synch.c:288-303 | The waiter gets past its semaphore only if it was signalled. |
| SynchTheorems.SemaphoreValue | 20161211_pintos_prj2/src/threads/synch.c:60-121 | In every reachable state a semaphore's value is its initial value plus the ups less the completed downs. |
| SynchTheorems.NoLostWakeup | 20161211_pintos_prj2/src/threads/synch.c:60-121 | While threads wait on a semaphore, at least as many as its value have been taken off the list and are still to look at it, each of them running or ready. |
| SynchTheorems.OneListEach | 20161211_pintos_prj2/src/threads/synch.c:60-121 | A thread's list element is in at most one list at a time and once in it; a blocked thread is on one wait list, or between its removal and the wakeup. |
| SynchTheorems.MutualExclusion | 20161211_pintos_prj2/src/threads/synch.c:192-237 | At most one thread is between a lock's down and its up; a non-null holder is that thread, and holder is null meanwhile only in the windows before it is set and after it is cleared. |
| SynchTheorems.CondListsExclusive | 20161211_pintos_prj2/src/threads/synch.c:288-339 | A condition's waiter list is touched only by the holder of its lock. |
| SynchTheorems.SignalWakes | 20161211_pintos_prj2/src/threads/synch.c:312-323 | A signalled waiter's semaphore is 1 and it is not blocked on it. |
| SynchTheorems.SignalArrives | 20161211_pintos_prj2/src/threads/synch.c:312-323 | The sema_up of cond_signal reaches the waiter it took off the list, in whatever state the rest is. |
| SynchTheorems.StillWaiting | 20161211_pintos_prj2/src/threads/synch.c:288-303 | No other step ends a waiter's first wait. |
| SynchTheorems.WaitReturnsHolding | 20161211_pintos_prj2/src/threads/synch.c:288-303 | In any run that takes a thread out of cond_wait, the step out leaves it holding the lock. |
| SynchTheorems.ReturnNeedsSignal | 20161211_pintos_prj2/src/threads/synch.c:288-339 | And some step of the run is the sema_up of a cond_signal or cond_broadcast that took this very thread off the list; whom those signal is the next rows'. |
| SynchSignals.BroadcastSignalsAll | 20161211_pintos_prj2/src/threads/synch.c:331-339 | cond_broadcast signals them all: in any run that begins with the call and after which its caller is out of it, every thread that was on the list at the call has a step of the caller that is the sema_up of its semaphore. |
| SynchSignals.SignalSignalsFirst | 20161211_pintos_prj2/src/threads/synch.c:312-323 | And cond_signal the thread that had waited longest, if any waited. |
| SynchSignals.SignalsNoOthers | 20161211_pintos_prj2/src/threads/synch.c:312-339 | Neither signals a thread that was not on the list at the call, and cond_signal none but the first. |
| SynchSignals.NobodyWaits | 20161211_pintos_prj2/src/threads/synch.c:312-339 | With no thread on the list neither does anything. |
| SynchCalls.ValueOverRuns | 20161211_pintos_prj2/src/threads/synch.c:60-121 | Over any run a semaphore's value rises by the calls of sema_up and falls by the returns of sema_down and the calls of sema_try_down that found it positive, and by nothing else. |
| SynchCalls.DownAtOnce | 20161211_pintos_prj2/src/threads/synch.c:60-76 | sema_down returns at once exactly when the value is positive; otherwise its caller is the last waiter, blocked and off the processor. |
| SynchCalls.UpWakesFirst | 20161211_pintos_prj2/src/threads/synch.c:108-121 | sema_up takes the thread that has waited longest off the list and puts it at the back of the ready list, and the running thread goes on. |
| SynchCalls.AcquireReturnsHolding | 20161211_pintos_prj2/src/threads/synch.c:192-202 | In any run that begins with lock_acquire and after which its caller is out of it, the step out leaves the caller holding the lock. |
| SynchCalls.TryAcquireTakes | 20161211_pintos_prj2/src/threads/synch.c:210-222 | lock_try_acquire takes the lock exactly if no thread is inside it; otherwise nothing changes. |
| SynchCalls.ReleaseLetsGo | 20161211_pintos_prj2/src/threads/synch.c:229-237 | In any run that begins with lock_release and after which its caller is out of it, the step out leaves the caller outside the lock. |
| SynchCalls.WaitWaits | 20161211_pintos_prj2/src/threads/synch.c:288-303 | In any run that begins with cond_wait and after which its caller is out of it, a later step is the sema_up of a signal to this thread, and a still later one takes it out, holding the lock. |
| SynchCalls.WaiterIsOutside | 20161211_pintos_prj2/src/threads/synch.c:288-303 | A thread that waits in cond_wait, for a signal or to have the lock again, is outside the lock. |
| SynchCalls.CreateStarts | 20161211_pintos_prj2/src/threads/thread.c:193-263 | In any run that begins with thread_create and after which its caller is out of it, the step out leaves the new thread at the back of the ready list. |
| SynchCalls.YieldGivesWay | 20161211_pintos_prj2/src/threads/thread.c:363-377 | thread_yield sends its caller behind all that are ready, and the front of that line runs. |
| SynchCalls.ExitLeaves | 20161211_pintos_prj2/src/threads/thread.c:338-359 | thread_exit leaves its caller dead, off the processor and off both lists, and freed unless it is the initial thread. |
| SynchCalls.Initialised | 20161211_pintos_prj2/src/threads/synch.c:44-51 | A semaphore starts with its value and no waiters, a lock with nobody inside and a semaphore of 1, a condition with no waiters. |
| SynchTheorems.RunProjects | 20161211_pintos_prj2/src/threads/synch.c:60-339 | A run of the whole machine is, for the threads, a run of the scheduler with the same ticks. |
| SynchTheorems.WokenRunsSoon | 20161211_pintos_prj2/src/threads/synch.c:108-121 | A thread that a wakeup put at position k of the ready list runs within 4(k+1) handled ticks, whatever the others do. |
| Kernel.Semaphore.SemaInit | 20161211_pintos_prj2/src/threads/synch.c:44-51 | The new semaphore has the given value, no waiters, no ups and no downs. |
| Kernel.Semaphore.SemaUp | 20161211_pintos_prj2/src/threads/synch.c:108-121 | In place, the specification's sema_up: first waiter unblocked, value raised, and the scheduler's invariant kept. |
| Kernel.Semaphore.SemaTryDown | 20161211_pintos_prj2/src/threads/synch.c:83-102 | Succeeds, and takes one, exactly when the value is positive. |
| Kernel.Semaphore.SemaDownTurn | 20161211_pintos_prj2/src/threads/synch.c:60-76 | One turn of the loop: it takes one if it can, and otherwise joins the end of the wait list and blocks. |
| Kernel.Lock.LockInit | 20161211_pintos_prj2/src/threads/synch.c:175-182 | A new lock has no holder and a semaphore of 1. |
| Kernel.Lock.TryAcquire | 20161211_pintos_prj2/src/threads/synch.c:210-222 | Takes the semaphore and becomes the holder, or does neither. |
| Kernel.Lock.AcquireTurn | 20161211_pintos_prj2/src/threads/synch.c:192-202 | One turn of the down: the thread becomes the holder exactly when the down succeeds, and otherwise waits. |
| Kernel.Lock.Release | 20161211_pintos_prj2/src/threads/synch.c:229-237 | Clears the holder and then does the specification's up, which wakes the first waiter. |
| Kernel.Condition.CondInit | 20161211_pintos_prj2/src/threads/synch.c:260-266 | A new condition has no waiters. |
| Kernel.Condition.Enqueue | 20161211_pintos_prj2/src/threads/synch.c:288-303 | The first half of cond_wait puts a fresh semaphore of 0 at the end of the waiters. |
| Kernel.Condition.Signal | 20161211_pintos_prj2/src/threads/synch.c:312-323 | Does the specification's up of the first waiter's semaphore and takes it off the list; with no waiters it does nothing. |
| ProcessWait.StepKeeps | 20161211_pintos_prj2/src/userprog/process.c:109-141 | Each step of thread_create, process_wait, thread_exit and the switch keeps the books of parents, children and exit statuses; the entry it looks at exists. |
| ProcessWait.RunKeeps | 20161211_pintos_prj2/src/userprog/process.c:109-141 | So does every interleaving. |
| ProcessWait.WaitIsSafe | 20161211_pintos_prj2/src/threads/thread.c:338-359 | In every interleaving a page is freed only after its thread has left every child list, a status handed to a waiting parent is the one the child stored, and no step reads or writes a freed thread. |
| ProcessWait.ReapedOnce | 20161211_pintos_prj2/src/userprog/process.c:109-141 | A child is reaped at most once, by its parent, with the status it stored; nothing changes the record afterwards. |
| ProcessWait.LinkedRuns | 20161211_pintos_prj2/src/threads/thread.c:193-263 | In every interleaving a child not yet reaped is on its parent's list or in its parent's hands. |
| ProcessWait.StartLinked | 20161211_pintos_prj2/src/threads/thread.c:88-111 | So it is when the system starts. |
| ProcessWait.LinkedKept | 20161211_pintos_prj2/src/threads/thread.c:193-263 | And each step keeps it so. |
| ProcessWait.NotFoundMeansNone | 20161211_pintos_prj2/src/userprog/process.c:109-141 | In every interleaving process_wait returns -1 at once exactly for threads that are not the caller's children or that it has already reaped. |
| ProcessWait.WaitReturnsAtOnce | 20161211_pintos_prj2/src/userprog/process.c:109-141 | In every interleaving a call of process_wait returns -1 at once if and only if its argument is not a child of the caller or was reaped by an earlier call of its; any other call goes on to wait. |
| ProcessWait.WaitDelivers | 20161211_pintos_prj2/src/userprog/process.c:129-135 | In any run in which a call that waits comes to an end, some step of it reaps the child, and the value it returns is the status that the child stored. |
| ProcessWait.NobodyStuck | 20161211_pintos_prj2/src/userprog/process.c:129-135 | A call that waits can go on once its child has reached thread_exit, and so can the child once it was reaped. |
| ProcessWait.OnlyCallsReturn | 20161211_pintos_prj2/src/userprog/process.c:109-141 | No other step makes a call return, or changes what one has returned. |
| ProcessWait.RunReaped | 20161211_pintos_prj2/src/userprog/process.c:109-141 | In every interleaving each status recorded for a child is one that a call of its parent has returned. |
| ProcessWait.StatusIsLastSet | 20161211_pintos_prj2/src/userprog/syscall.c:191 | In every interleaving that status is the last one the child set, or 0 if it set none. |
| ProcessWait.ExitIsFinal | 20161211_pintos_prj2/src/threads/thread.c:338-359 | thread_exit does not return: in no run that begins with it is its caller in any other place again. |
| ProcessWait.CreateMakes | 20161211_pintos_prj2/src/threads/thread.c:193-263 | In any run that begins with thread_create and after which the call is over, some step leaves the new thread running and on its caller's child list. |
| LinkedList.List.constructor | 20161211_pintos_prj0_2/list.c:63-71 | A new list is well formed and empty. |
| LinkedList.ListInsert | 20161211_pintos_prj0_2/list.c:171-181 | Puts the element just before the given one; the list stays a well-formed doubly linked chain. |
| LinkedList.ListSplice | 20161211_pintos_prj0_2/list.c:186-207 | Moves a block of a chain in front of an element of the same or another chain; both stay well formed, and nothing else moves. |
| LinkedList.PushFront | 20161211_pintos_prj0_2/list.c:211-215 | The element becomes the first. |
| LinkedList.PushBack | 20161211_pintos_prj0_2/list.c:219-223 | The element becomes the last. |
| LinkedList.ListRemove | 20161211_pintos_prj0_2/list.c:259-266 | Takes out just that element and returns its successor. |
| LinkedList.PopFront | 20161211_pintos_prj0_2/list.c:270-276 | Removes and returns the first. |
| LinkedList.PopBack | 20161211_pintos_prj0_2/list.c:280-286 | Removes and returns the last. |
| LinkedList.List.Empty | 20161211_pintos_prj0_2/list.c:320-324 | True just when the list has no elements. |
| ListShuffling.ListSize | 20161211_pintos_prj0_2/list.c:308-317 | Counts the elements by walking the links. |
| ListOrdering.ListReverse | 20161211_pintos_prj0_2/list.c:336-348 | Exchanging every element's two links, and then the ends, leaves a well-formed list of the same elements in reverse order. |
| ListSorting.FindEndOfRun | 20161211_pintos_prj0_2/list.c:368-383 | Stops at the end of the maximal nondecreasing run, or at the end element if that comes first. |
| MergeSortSpec.RunIsMaximal | 20161211_pintos_prj0_2/list.c:368-383 | Such a run has no descent inside and is followed by one, or by the end. |
| ListSorting.InplaceMerge | 20161211_pintos_prj0_2/list.c:390-410 | Relinking one element at a time merges two adjacent ranges; the rest of the list stays. |
| MergeSortSpec.MergeSorted | 20161211_pintos_prj0_2/list.c:390-410 | The merge of two sorted ranges is sorted. |
| MergeSortSpec.MergePermutes | 20161211_pintos_prj0_2/list.c:390-410 | It has the elements of both, each as often. |
| MergeSortSpec.MergeStable | 20161211_pintos_prj0_2/list.c:390-410 | Equivalent elements keep their order, those of the first range first. |
| ListSorting.SortPass | 20161211_pintos_prj0_2/list.c:431-446 | One pass over the links merges adjacent maximal runs and counts the runs it puts out. |
| MergeSortSpec.OutputRunsIsHalf | 20161211_pintos_prj0_2/list.c:431-446 | A pass over r maximal runs puts out exactly ceil(r/2). |
| MergeSortSpec.PassHalvesRuns | 20161211_pintos_prj0_2/list.c:431-446 | And leaves at most that many, since merged runs can only join up. |
| MergeSortSpec.PassStable | 20161211_pintos_prj0_2/list.c:431-446 | A pass is a stable permutation. |
| MergeSortSpec.SortCorrect | 20161211_pintos_prj0_2/list.c:415-451 | For any strict weak order the passes end in a sorted, stable permutation, after at most max(1, ceil(log2 r)) of them. |
| ListSorting.ListSort | 20161211_pintos_prj0_2/list.c:415-451 | list_sort terminates with a well-formed list of the same nodes, sorted and stably permuted, within that many passes. |
| ListOrdering.StableSortIsUnique | 20161211_pintos_prj0_2/list.c:415-451 | There is only one sorted list with the same elements and equivalent ones in the same order, so the stable sort is determined. |
| ListOrdering.ListInsertOrdered | 20161211_pintos_prj0_2/list.c:456-470 | The list becomes its merge with the one new element, which goes behind its equals. |
| ListOrdering.InsertedIsSorted | 20161211_pintos_prj0_2/list.c:456-470 | Inserting the elements of any sequence in order, one by one, gives a sorted stable permutation of it. |
| ListOrdering.InsertionIsSort | 20161211_pintos_prj0_2/list.c:415-470 | It is the very list that list_sort makes. |
| ListOrdering.ListUnique | 20161211_pintos_prj0_2/list.c:476-497 | Removes each element equivalent to the last one kept, and appends the removed ones to the other list, if there is one; both lists stay well formed and apart. |
| ListOrdering.UniqueKeepsFirsts | 20161211_pintos_prj0_2/list.c:476-497 | Of a sorted list it keeps the first of each class of equivalent elements and drops the others in the order they had. |
| ListOrdering.UniqueAscends | 20161211_pintos_prj0_2/list.c:476-497 | What it keeps of a sorted list is strictly ascending. |
| ListOrdering.UniqueLosesNothing | 20161211_pintos_prj0_2/list.c:476-497 | Kept and dropped elements together are the elements of the list, sorted or not. |
| ListShuffling.ListSwap | 20161211_pintos_prj0_2/list.c:566-608 | Exchanges two elements, adjacent in either order or apart; the list stays well formed. |
| ListShuffling.ListShuffle | 20161211_pintos_prj0_2/list.c:550-564 | Makes the swaps that the draws ask for, on the links. |
| ListShuffling.ShufflePermutes | 20161211_pintos_prj0_2/list.c:550-564 | Whatever the draws, the result is a permutation. |
| ListShuffling.ShuffleIsCyclic | 20161211_pintos_prj0_2/list.c:550-564 | It is a single cycle through all positions, so in a list of two or more nothing keeps its place. |
| Arithmetic.Nlz | 20161211_pintos_prj2/src/lib/arithmetic.c:41-73 | The shifting in steps of 16, 8, 4, 2 and 1 counts the leading zeros. |
| Arithmetic.LeadingZerosBracket | 20161211_pintos_prj2/src/lib/arithmetic.c:41-73 | That number is the one for which the value lies between two neighbouring powers of two. |
| Arithmetic.UdivShortIsFloor | 20161211_pintos_prj2/src/lib/arithmetic.c:80-112 | A short divisor: DIVL never traps and the two-word long division is floor division. |
| Arithmetic.UdivLongEstimate | 20161211_pintos_prj2/src/lib/arithmetic.c:113-123 | A long divisor: DIVL does not trap, and after the shift its estimate is the true quotient or one more. |
| Arithmetic.UdivLongIsFloor | 20161211_pintos_prj2/src/lib/arithmetic.c:113-126 | The single conditional correction makes the estimate exact and does not wrap. |
| Arithmetic.Udiv64IsFloor | 20161211_pintos_prj2/src/lib/arithmetic.c:77-127 | For every dividend and every nonzero divisor below 2^64 udiv64 is floor division; the only trap is division by zero. |
| Arithmetic.Sdiv64Truncates | 20161211_pintos_prj2/src/lib/arithmetic.c:139-146 | sdiv64 is truncation toward zero exactly when the operands are not INT64_MIN and -1. |
| Arithmetic.Umod64Exact | 20161211_pintos_prj2/src/lib/arithmetic.c:131-135 | umod64 is the true remainder for every dividend if and only if the divisor is at most 2^32. |
| Arithmetic.Smod64Exact | 20161211_pintos_prj2/src/lib/arithmetic.c:150-154 | smod64 is the true remainder for every dividend if and only if the divisor is at most 2^31 in absolute value. |
| InodeIO.InodeReadAt | 20161211_pintos_prj2/src/filesys/inode.c:200-250 | Moves min(size, max(0, length - offset)) bytes (when no bounce buffer can be had: the whole sectors before the first partial one), each from its place on the device, and touches no other byte of the buffer. |
| InodeIO.InodeWriteAt | 20161211_pintos_prj2/src/filesys/inode.c:257-318 | Moves as many; the device changes in just those bytes. A denied write changes nothing. |
| InodeIO.WriteChunk | 20161211_pintos_prj2/src/filesys/inode.c:270-313 | One turn of the loop changes the bytes of the chunk and no other byte of the device, whether or not it reads the sector first. |
| InodeIO.MovedStep | 20161211_pintos_prj2/src/filesys/inode.c:213-245 | The chunks add up to the whole transfer. |
| InodeIO.MovedIs | 20161211_pintos_prj2/src/filesys/inode.c:207-245 | A transfer stops only at the size asked for or the end of the file, or, without memory for a buffer, in front of the first chunk that is not a whole sector; nothing is moved from an offset past the end. |
| InodeIO.ReadIsSlice | 20161211_pintos_prj2/src/filesys/inode.c:46-54 | What a read brings back is a slice of the file's bytes. |
| InodeIO.WriteIsUpdate | 20161211_pintos_prj2/src/filesys/inode.c:257-318 | A write replaces a slice of its file and leaves every file that shares no sector with it alone. |
| InodeIO.ReadAfterWrite | 20161211_pintos_prj2/src/filesys/inode.c:200-318 | A read after a write gives back what was written where the two overlap, and what was there elsewhere, whatever the alignment. |
| InodeIO.ZeroData | 20161211_pintos_prj2/src/filesys/inode.c:93-100 | inode_create's loop fills the sectors of the data and no others. |
| InodeIO.NewFileIsZeros | 20161211_pintos_prj2/src/filesys/inode.c:72-106 | So a new file reads as zeros, and files that share no sector with it read as before. |
| DiskFormat.InodeRoundTrip | 20161211_pintos_prj2/src/filesys/inode.c:15-21 | What inode_open reads from a sector is the inode that inode_create wrote to it: start, length and magic number in its first twelve bytes, zeros behind. |
| DiskFormat.EntryRoundTrip | 20161211_pintos_prj2/src/filesys/directory.c:17-22 | A directory entry reads back as it was written, whatever its name's field holds behind the null byte: the sector in bytes 0 to 3, the name from byte 4 on, in_use in byte 19. |
| DiskFormat.ErasedEntry | 20161211_pintos_prj2/src/filesys/directory.c:205-208 | Writing an entry back with in_use cleared changes nothing else in it. |
| DiskFormat.MapRoundTrip | 20161211_pintos_prj2/src/lib/kernel/bitmap.c:355-360 | Every bit of the free map reads back from the bytes that bitmap_write writes. |
| OpenInodes.FindOpenMeaning | 20161211_pintos_prj2/src/filesys/inode.c:116-128 | The search of open_inodes finds the first inode of the sector, and nothing exactly if there is none. |
| OpenInodes.DropInodeIs | 20161211_pintos_prj2/src/filesys/inode.c:172 | list_remove takes away the one inode of the sector and leaves the rest of the list as it was, its sectors still distinct. |
| FileSystem.AllocateKeeps | 20161211_pintos_prj2/src/filesys/free-map.c:27-41 | What free_map_allocate gives was free and belonged to no one; when the map cannot be written nothing changes in memory, and what is marked in memory stays marked on disk. |
| FileSystem.CreateInodeKeeps | 20161211_pintos_prj2/src/filesys/inode.c:72-106 | inode_create gives the inode data sectors of its own, or leaves every sector with whom it was. |
| FileSystem.OpenInodeKeeps | 20161211_pintos_prj2/src/filesys/inode.c:111-142 | Opening searches the list, adds one opener to the inode of the sector if it is there and puts a new inode in front if not; the list never has two inodes of a sector. |
| FileSystem.CloseInodeKeeps | 20161211_pintos_prj2/src/filesys/inode.c:163-186 | Closing releases sectors exactly when the inode is removed and this is its last opener, and then all of its sectors and no others. |
| FileSystem.DenyKeeps | 20161211_pintos_prj2/src/filesys/file.c:119-142 | deny_write_cnt stays the number of openers that deny writes. |
| FileSystem.DirAddKeeps | 20161211_pintos_prj2/src/filesys/directory.c:142-180 | dir_add makes the directory the owner of the new inode; the inode of an entry written over is accounted for as lost. |
| FileSystem.EraseKeeps | 20161211_pintos_prj2/src/filesys/directory.c:205-212 | Erasing an entry leaves its inode to its openers. |
| FileSystem.DirRemoveKeeps | 20161211_pintos_prj2/src/filesys/directory.c:185-217 | dir_remove keeps every book, whether it succeeds or fails. |
| FileSystemDevice.AllocateSound | 20161211_pintos_prj2/src/filesys/free-map.c:27-41 | free_map_allocate keeps the books and the device in step: it writes to no sector but those of the free map's own file. |
| FileSystemDevice.CreateInodeSound | 20161211_pintos_prj2/src/filesys/inode.c:72-106 | After inode_create the device holds the new inode in its sector and zeros in its data, and every other inode, file, entry and the map as before. |
| FileSystemDevice.CloseInodeSound | 20161211_pintos_prj2/src/filesys/inode.c:163-186 | Which bits of the map a close clears, exactly; what the device holds of every file that is left is unchanged. |
| FileSystemDevice.DirAddSound | 20161211_pintos_prj2/src/filesys/directory.c:142-180 | dir_add writes one slot of the root directory's data: the entry is on the device, and all else there is as before. |
| FileSystemDevice.EraseSound | 20161211_pintos_prj2/src/filesys/directory.c:205-212 | So does the erasing of an entry. |
| FileSystemDevice.WriteFileSound | 20161211_pintos_prj2/src/filesys/inode.c:257-318 | A write through an open file changes the device so that the flat file has the data at the position, and keeps every inode, entry, map bit and other file on it. |
| FileSystemDevice.ReadFileSound | 20161211_pintos_prj2/src/filesys/file.c:69-75 | A read through an open file moves the position behind the bytes it brings, which lie in the file, and changes nothing else. |
| FileSystemRuns.CreateInSound | 20161211_pintos_prj2/src/filesys/filesys.c:45-59 | filesys_create keeps the invariant, device included: on success there is one live file more, of zeros, and on failure no sector is without an owner but those of `Leak`. |
| FileSystemRuns.CreateSound | 20161211_pintos_prj2/src/filesys/filesys.c:45-59 | With the opening and closing of the root directory around it, it leaves every other file's bytes and every opener as they were. |
| FileSystemRuns.OpenSound | 20161211_pintos_prj2/src/filesys/filesys.c:66-79 | filesys_open leaves one opener more if it succeeds and none if it fails; the invariant is kept. Which file it opens is `FileSystemNames.OpenFinds`. |
| FileSystemNames.OpenFinds | 20161211_pintos_prj2/src/filesys/filesys.c:66-79 | Of the whole filesys_open, if reading is not cut short: it opens the file that the name stands for, at position 0, and succeeds exactly if there is one and memory for the root directory, the inode and the file. |
| FileSystemNames.OpenIsLookup | 20161211_pintos_prj2/src/filesys/directory.c:119-137 | In general it opens the inode of the first entry in use with the name among those read. |
| FileSystemNames.CreateEnters | 20161211_pintos_prj2/src/filesys/filesys.c:45-59 | Of the whole filesys_create, if names are unique and reading is not cut short: afterwards the name stands for an inode that was not live, of the size asked for and all zeros, and every other name for what it did; it succeeds exactly if the root directory opens, the inode can be made and the name can be entered. |
| FileSystemNames.NameEntered | 20161211_pintos_prj2/src/filesys/directory.c:142-180 | dir_add succeeds exactly if the name is neither empty nor too long nor there already, and there is a free slot that can be written; then it stands for the new sector. |
| FileSystemNames.RoomIs | 20161211_pintos_prj2/src/filesys/free-map.c:27-41 | The inode can be made exactly if the lowest free sector is there for it and a run of free sectors beside that for its data, and no write or memory fails. |
| FileSystemNames.RemoveErases | 20161211_pintos_prj2/src/filesys/filesys.c:85-93 | Of the whole filesys_remove, likewise: the name stands for nothing afterwards, and every other name for what it did; it succeeds exactly if the name stood for a file, its entry can be written and there is memory. |
| FileSystemNames.RemoveReleases | 20161211_pintos_prj2/src/filesys/filesys.c:85-93 | If nobody has the file open, all its sectors are free afterwards and no others; if somebody has, all stay, and the inode is marked as removed. |
| FileSystemRuns.RemoveSound | 20161211_pintos_prj2/src/filesys/filesys.c:85-93 | filesys_remove leaves the openers, and the bytes of the file, as they were; the invariant is kept. |
| FileSystemRuns.CloseSound | 20161211_pintos_prj2/src/filesys/file.c:46-55 | file_close takes away one opener, and its denial of writes; the invariant is kept. |
| FileSystemRuns.ReopenSound | 20161211_pintos_prj2/src/filesys/file.c:39-43 | file_reopen adds an independent opener of the same inode, at position 0, exactly if there is memory; the invariant is kept. |
| FileSystemRuns.BootSound | 20161211_pintos_prj2/src/filesys/filesys.c:17-39 | A file system that is shut down, with files open, and started again from the map on disk satisfies the invariant, with the same live inodes. |
| FileSystemFormat.FormatSound | 20161211_pintos_prj2/src/filesys/filesys.c:96-105 | So does one that is formatted, on a device that held anything, and it has no inodes but the free map's and the root directory's. |
| FileSystemFormat.FormatNeeds | 20161211_pintos_prj2/src/filesys/filesys.c:96-105 | A format succeeds exactly on a device with room for the two inodes, the data of the free map and the data of the root directory. |
| FileSystemTheorems.ApplyReady | 20161211_pintos_prj2/src/filesys/filesys.c:45-93 | Every event (create, open, remove, close, reopen, deny, allow, write, read, seek, reboot) keeps the invariant, whichever allocations, reads and writes fail, and changes each file's bytes only as the event says. |
| FileSystemTheorems.RunReady | 20161211_pintos_prj2/src/filesys/filesys.c:45-105 | So does every run of events. |
| FileSystemTheorems.NoTwoOwners | 20161211_pintos_prj2/src/filesys/filesys.c:45-105 | In every run from a format on, writes included: no sector has two owners, every owned sector is marked in memory and on disk, and a marked sector that no inode in the directory or open uses is either accounted for as leaked or used by an inode that was lost. |
| FileSystemTheorems.DeviceHolds | 20161211_pintos_prj2/src/filesys/filesys.c:45-105 | In every run the device holds each live inode in its sector, the directory's entries in the data of the root directory and the map in the data of the free map. |
| FileSystemTheorems.CountsAreOpeners | 20161211_pintos_prj2/src/filesys/inode.c:111-195 | In every run open_inodes has at most one inode for a sector, open_cnt is the number of its openers, deny_write_cnt that of the openers denying writes, and the latter is at most the former. |
| FileSystemTheorems.FilesKeepBytes | 20161211_pintos_prj2/src/filesys/file.c:69-115 | In every run each byte of a live file, read from the device, is the one last written to it, or zero if none was, whatever other files were created, written, closed or removed. |
| FileSystemTheorems.WriteTouches | 20161211_pintos_prj2/src/filesys/inode.c:257-318 | A write touches no sector but those of its own file's data. |
| FileSystemTheorems.ReleasedAtLastClose | 20161211_pintos_prj2/src/filesys/file.c:46-55 | A removed inode's sectors are released by the close of its last opener, all of them, and by no other close. |
| FileSystemLeaks.LeakExactly | 20161211_pintos_prj2/src/filesys/filesys.c:48-55 | filesys_create leaks if and only if the file has data, its inode was made, and its name is empty, too long, found in the directory, or cannot be written for want of a free slot or of memory. |
| FileSystemOrphans.OrphansAre | 20161211_pintos_prj2/src/filesys/filesys.c:45-105 | Every marked sector is used by one of the two inodes of the file system or by one in the directory or open if and only if none is accounted for as leaked and every lost inode is open. |
| FileSystemOrphans.OrphansExactly | 20161211_pintos_prj2/src/filesys/filesys.c:17-93 | For every event: afterwards every marked sector can be reached if and only if it was so before and the event is none of these. A filesys_create that makes the inode and cannot enter the name, of a file with data; one that writes over the entry of a file that is not open; the last close of a file whose entry was written over; a restart while a removed file is open, or such a file exists, or the map on disk has a bit that the one in memory has not. |
| FileSystemOrphans.CreateSettles | 20161211_pintos_prj2/src/filesys/filesys.c:45-59 | That condition for filesys_create, on what is known before the call. |
| FileSystemOrphans.CloseSettles | 20161211_pintos_prj2/src/filesys/file.c:46-55 | The one for file_close. |
| FileSystemOrphans.BootSettles | 20161211_pintos_prj2/src/filesys/filesys.c:17-39 | The one for a restart. |
| FileSystemOrphans.RemoveSettles | 20161211_pintos_prj2/src/filesys/filesys.c:85-93 | filesys_remove leaves nothing behind, whatever fails. |
| FileSystemOrphans.OpenSettles | 20161211_pintos_prj2/src/filesys/filesys.c:66-79 | Nor does filesys_open. |
| FileSystemOrphans.OrphansInRuns | 20161211_pintos_prj2/src/filesys/filesys.c:17-105 | At the end of a run from a format on every marked sector can be reached if and only if no event on the way met its condition. |
| FileSystemOrphans.LeakLeaves | 20161211_pintos_prj2/src/filesys/filesys.c:48-55 | An input: two sectors are free, the size is 512, nothing fails, and the name is empty or there already; after the call a marked sector cannot be reached. |
| FileSystemOrphans.OverwriteLeaves | 20161211_pintos_prj2/src/filesys/filesys.c:48-55 | Another: the first entry is of a file that is not open, the first read for a free slot fails, and the name is new; the call succeeds and leaves that file's sectors behind. |
| FileSystemLeaks.LeakWitness | 20161211_pintos_prj2/src/filesys/filesys.c:48-55 | With two free sectors, a size of 512 and a name that is empty or there already, it leaks though nothing fails. |
| FileSystemLeaks.RootIsClosed | 20161211_pintos_prj2/src/filesys/directory.c:54-77 | Between calls the root directory is not open, so that its opening depends on memory alone. |
| FileSystemCalls.PackMap | 20161211_pintos_prj2/src/lib/kernel/bitmap.c:355-360 | The bytes of the words of a bitmap are the image of its bits. |
| FileSystemCalls.ReadMap | 20161211_pintos_prj2/src/lib/kernel/bitmap.c:340-351 | The bits read back are those that the free map file holds on the device. |
| FileSystemCalls.FreeMapInit | 20161211_pintos_prj2/src/filesys/free-map.c:11-20 | All sectors are free but those of the two inodes that the file system keeps for itself. |
| FileSystemCalls.DoFormat | 20161211_pintos_prj2/src/filesys/filesys.c:96-105 | On the bitmap and the device, whatever that held: succeeds exactly if there is room for the free map and the root directory, and leaves on the device what the specification says. |
| FileSystemCalls.FilesysFormat | 20161211_pintos_prj2/src/filesys/filesys.c:17-31 | And the file system that then starts satisfies the invariant and is the freshly formatted one. |
| FileSystemCalls.Volume.constructor | 20161211_pintos_prj2/src/filesys/free-map.c:53-61 | Started on a device that any run has left, it reads the map of the device into memory and opens the free map, and the invariant holds. |
| FileSystemCalls.Volume.WriteFreeMap | 20161211_pintos_prj2/src/lib/kernel/bitmap.c:355-360 | The packed words go through inode_write_at to the sectors of the free map file; if all are written, the map on the device is the one in memory. |
| FileSystemCalls.Volume.FreeMapAllocate | 20161211_pintos_prj2/src/filesys/free-map.c:27-41 | On the words of the bitmap and the sectors of the device: the sectors found were free and in no one's hands, the map on disk is then the one in memory, a failure leaves the bits as they were, and the invariant is kept. |
| FileSystemCalls.Volume.FreeMapRelease | 20161211_pintos_prj2/src/filesys/free-map.c:44-50 | Clears the bits of the run and no others and writes the map out; if all of it is written, the map on disk is the one in memory. |
| FileSystemCalls.Volume.InodeCreate | 20161211_pintos_prj2/src/filesys/inode.c:72-106 | Gives the inode data that nobody had, zeroed, with both on the device; or changes no bit, no inode and no file; keeps the invariant. |
| FileSystemCalls.Volume.Search | 20161211_pintos_prj2/src/filesys/inode.c:116-128 | The loop over open_inodes finds what the search on values does. |
| FileSystemCalls.Volume.InodeOpen | 20161211_pintos_prj2/src/filesys/inode.c:111-151 | Searches the list; a new inode gets its data from its sector on the device; succeeds exactly if there was one or memory for one; keeps the invariant. The first opening of the free map's inode establishes it. |
| FileSystemCalls.Volume.InodeClose | 20161211_pintos_prj2/src/filesys/inode.c:163-186 | Takes the inode off the list exactly at the last close, clears exactly the bits of a removed inode then, and keeps the invariant. |
| FileSystemCalls.ReadEntry | 20161211_pintos_prj2/src/filesys/directory.c:101-103 | One entry, from its bytes on the device through inode_read_at. |
| FileSystemCalls.Volume.LookupEntry | 20161211_pintos_prj2/src/filesys/directory.c:91-113 | The loop over the entries on the device finds the slot that the lookup on values does, also when a read fails half-way. |
| FileSystemCalls.Volume.FindSlot | 20161211_pintos_prj2/src/filesys/directory.c:160-170 | The loop over the entries on the device stops at the first free slot, or where reading stops. |
| FileSystemCalls.Volume.AddEntry | 20161211_pintos_prj2/src/filesys/directory.c:142-180 | Writes the bytes of the entry to its slot on the device as the specification says, and keeps the invariant. |
| FileSystemCalls.Volume.EraseEntry | 20161211_pintos_prj2/src/filesys/directory.c:205-212 | Writes the entry back with in_use cleared, marks the inode as removed, and keeps the invariant. |
| FileSystemCalls.Volume.RemoveEntry | 20161211_pintos_prj2/src/filesys/directory.c:185-217 | The whole of dir_remove; the openers and files stay as they were, and the invariant is kept. |
| FileSystemCalls.Volume.OpenFile | 20161211_pintos_prj2/src/filesys/file.c:17-35 | Fails exactly without an inode or memory, and then there is no opener left; keeps the invariant. |
| FileSystemCalls.Volume.FileReopen | 20161211_pintos_prj2/src/filesys/file.c:39-43 | Adds an independent opener of the same inode, or none; keeps the invariant. |
| FileSystemCalls.Volume.FileClose | 20161211_pintos_prj2/src/filesys/file.c:46-55 | Takes away this opener only, whether it denied writes or not; keeps the invariant. |
| FileSystemCalls.Volume.FileDenyWrite | 20161211_pintos_prj2/src/filesys/file.c:119-128 | This opener is then among those that deny writes, and the inode's count is their number; keeps the invariant. |
| FileSystemCalls.Volume.FileAllowWrite | 20161211_pintos_prj2/src/filesys/file.c:133-142 | It is then not among them, and the count is their number; keeps the invariant. |
| FileSystemCalls.Volume.FileWrite | 20161211_pintos_prj2/src/filesys/file.c:95-101 | While no opener of the inode denies writes, replaces the bytes at the position, on the device, and moves it behind them; otherwise writes nothing; keeps the invariant. |
| FileSystemCalls.Volume.FileRead | 20161211_pintos_prj2/src/filesys/file.c:69-75 | Brings the file's next bytes from the device, as many as there are of those asked for, and moves the position behind them, and no other opener's; keeps the invariant. |
| FileSystemCalls.Volume.WriteEntry | 20161211_pintos_prj2/src/filesys/directory.c:172-177 | An entry is written whole, to its slot in the root directory's data, exactly if there is such a slot and memory for a buffer; or nothing is. |
| FileSystemCalls.Volume.DirOpenRoot | 20161211_pintos_prj2/src/filesys/directory.c:54-58 | One opener of the root directory more, or none, its failure having closed the inode; keeps the invariant. |
| FileSystemCalls.Volume.CreateFile | 20161211_pintos_prj2/src/filesys/filesys.c:48-55 | The part of filesys_create between the opening and the closing of the root directory: sector, inode and entry, and the sector given back on failure; keeps the invariant. |
| FileSystemCalls.Volume.FilesysCreate | 20161211_pintos_prj2/src/filesys/filesys.c:45-59 | On the device and the bitmap, with sector 0 for "none" as the code has it: other files keep their bytes and other names their files, the new name stands for a new file of zeros, the openers stay as they were, and the invariant is kept. |
| FileSystemCalls.NeverZero | 20161211_pintos_prj2/src/filesys/filesys.c:48-55 | Sector 0 is never given out, so it can stand for "none". |
| FileSystemCalls.Volume.OpenEntry | 20161211_pintos_prj2/src/filesys/directory.c:119-137 | dir_lookup opens the inode whose sector is in the first entry in use with the name on the device, at position 0. |
| FileSystemCalls.Volume.FilesysOpen | 20161211_pintos_prj2/src/filesys/filesys.c:66-79 | One opener more exactly if it succeeds, and it is of the file that the name stands for; no file and no entry changes; keeps the invariant. |
| FileSystemCalls.Volume.FilesysRemove | 20161211_pintos_prj2/src/filesys/filesys.c:85-93 | The name is gone and the others stand for what they did; leaves openers and the bytes of all files as they were, and keeps the invariant. |
| Directory.LookupMeaning | 20161211_pintos_prj2/src/filesys/directory.c:91-113 | lookup finds the first slot in use with the name, and nothing exactly when there is none among those read. |
| Directory.FreeSlotMeaning | 20161211_pintos_prj2/src/filesys/directory.c:160-170 | The slot dir_add writes to is the first that is free. |
| Directory.AddEntersOneName | 20161211_pintos_prj2/src/filesys/directory.c:142-180 | With reads that succeed, dir_add enters exactly one name in the map from names to inodes, and fails exactly when the name is empty or too long, is there already, or there is no free slot (or it cannot be written). |
| Directory.LostExactly | 20161211_pintos_prj2/src/filesys/directory.c:152-177 | dir_add writes over an entry in use if and only if the name is good and was not found, the entry can be written, and reading stops before a free slot although every entry up to there is in use. |
| Directory.LostWitness | 20161211_pintos_prj2/src/filesys/directory.c:152-177 | An input: the first slot is in use, the name is new, and the first read for a free slot fails; the inode of that slot is lost. |
| Directory.NamesBreakExactly | 20161211_pintos_prj2/src/filesys/directory.c:152-177 | dir_add enters a name twice if and only if the name is there already, in another slot and behind the place where the lookup was cut short, and the entry can be written. |
| Directory.NamesWitness | 20161211_pintos_prj2/src/filesys/directory.c:152-177 | A directory and a call in which it does. |
| Directory.EraseDropsOneName | 20161211_pintos_prj2/src/filesys/directory.c:205-212 | Erasing drops exactly one name. |
| Directory.NamesKept | 20161211_pintos_prj2/src/filesys/filesys.c:45-93 | Every event whose reads of entries are not cut short keeps names unique. |
| Directory.NamesAreUnique | 20161211_pintos_prj2/src/filesys/filesys.c:45-105 | In every run from a format on in which no read of entries is cut short, names are unique. |
| Directory.NextMeaning | 20161211_pintos_prj2/src/filesys/directory.c:222-237 | dir_readdir gives the next name of the listing and goes past it; without one the listing is at its end, or reading stopped. |
| FileSystemCalls.Volume.ReadDir | 20161211_pintos_prj2/src/filesys/directory.c:222-237 | The loop over the entries on the device gives that name and moves the position there, also when a read fails; keeps the invariant. |
| FileSystemCalls.Volume.ListNames | 20161211_pintos_prj2/src/filesys/fsutil.c:25-26 | Calling it until it gives no name gives the front of the listing, and all of it if no read fails. |
| FileSystemCalls.Volume.FsutilLs | 20161211_pintos_prj2/src/filesys/fsutil.c:14-29 | So does the listing of the root directory, which leaves every opener, entry and file as it was. |
| Directory.ListingIsDirectory | 20161211_pintos_prj2/src/filesys/directory.c:222-237 | Reading to the end gives a name exactly if it can be looked up. |
| Directory.ListingOnce | 20161211_pintos_prj2/src/filesys/directory.c:222-237 | And gives each name once. |
| Bitmap.OrSets | 20161211_pintos_prj0_2/bitmap.c:161-171 | The or instruction with a bit's mask sets that bit and no other. |
| Bitmap.AndClears | 20161211_pintos_prj0_2/bitmap.c:174-184 | The and instruction with its complement clears that bit and no other. |
| Bitmap.XorFlips | 20161211_pintos_prj0_2/bitmap.c:189-199 | The xor instruction flips that bit and no other. |
| Bitmap.LastMaskBit | 20161211_pintos_prj0_2/bitmap.c:68-73 | last_mask has exactly the bits of the last word that are in use. |
| Bitmap.BitMap.Create | 20161211_pintos_prj0_2/bitmap.c:102-114 | All bits are false, whatever the memory held. |
| Bitmap.BitMap.Set | 20161211_pintos_prj0_2/bitmap.c:149-184 | Changes one bit to the given value. |
| Bitmap.BitMap.Flip | 20161211_pintos_prj0_2/bitmap.c:189-199 | Inverts one bit. |
| Bitmap.BitMap.Test | 20161211_pintos_prj0_2/bitmap.c:202-208 | Gives the bit. |
| Bitmap.BitMap.SetMultiple | 20161211_pintos_prj0_2/bitmap.c:222-233 | Sets the bits of the range and no others. |
| Bitmap.BitMap.CountBits | 20161211_pintos_prj0_2/bitmap.c:237-251 | Counts the bits of the range with the value. |
| Bitmap.CountIs | 20161211_pintos_prj0_2/bitmap.c:237-251 | The count is the number of the places in the range whose bit has the value. |
| Bitmap.BitMap.Contains | 20161211_pintos_prj0_2/bitmap.c:255-268 | True exactly if some bit of the range has the value. |
| Bitmap.BitMap.ScanBits | 20161211_pintos_prj0_2/bitmap.c:300-315 | Finds what the specification's scan finds, with `start` for a count of 0. |
| Bitmap.ScanFindsLowest | 20161211_pintos_prj0_2/bitmap.c:300-315 | That is the lowest place from `start` on where all bits have the value, and nothing exactly if there is none. |
| Bitmap.BitMap.ScanAndFlip | 20161211_pintos_prj0_2/bitmap.c:324-331 | Flips the run it found, and nothing if it found none. |
| Bitmap.BitMap.Read | 20161211_pintos_prj0_2/bitmap.c:345-356 | The bits come back from the file, and those past the last are cleared. |
| Bitmap.BitMap.Expand | 20161211_pintos_prj0_2/bitmap.c:378-389 | The same bits, followed by new ones that are false. |
| Palloc.StepKeeps | 20161211_pintos_prj2/src/threads/palloc.c:70-142 | Any step of any thread, single bits at a time with frees outside the lock, keeps: a page is marked exactly if it has an owner or is in the hands of one call, never both and never two. |
| Palloc.StepsFit | 20161211_pintos_prj2/src/threads/palloc.c:70-142 | No step reads or writes outside the bitmap. |
| Palloc.RunKeeps | 20161211_pintos_prj2/src/threads/palloc.c:70-142 | So does every interleaving. |
| Palloc.NoPageTwice | 20161211_pintos_prj2/src/threads/palloc.c:70-101 | In every interleaving from init_pool on, the pages a call is about to return, or is filling with zeros, are marked, belong to no one and are in no other call's hands. |
| Palloc.FirstFit | 20161211_pintos_prj2/src/threads/palloc.c:70-101 | A call that no free disturbs returns the lowest run of free pages long enough, and fails exactly if there is none; whatever is freed meanwhile, it fails only if there was none when it took the lock, and goes no higher than the lowest there was then. |
| Palloc.CleanedKept | 20161211_pintos_prj2/src/threads/palloc.c:89-93 | No step of another thread, a free that wipes its pages or a store by an owner included, touches the bytes that a call with PAL_ZERO has cleared. |
| Palloc.ZeroPages | 20161211_pintos_prj2/src/threads/palloc.c:70-101 | In every interleaving a page becomes the caller's when its call returns, and if the call has PAL_ZERO every byte of the page is 0 then, whatever is freed or written meanwhile. |
| Palloc.FlagStays | 20161211_pintos_prj2/src/threads/palloc.c:70-101 | Whether a call has PAL_ZERO does not change while it lasts. |
| Palloc.FreeAsserts | 20161211_pintos_prj2/src/threads/palloc.c:136-141 | The ASSERT of palloc_free_multiple holds: the pages it has wiped are all marked. |
| PallocCalls.GetReturns | 20161211_pintos_prj2/src/threads/palloc.c:70-101 | In every interleaving a call of palloc_get_multiple that has ended had found a result, the lowest run of free pages long enough, or none if there was none, unless a free disturbed it; and when it returned all the pages of that result were its caller's. |
| PallocCalls.FreeReturns | 20161211_pintos_prj2/src/threads/palloc.c:117-142 | In every interleaving each page of a palloc_free_multiple is nobody's from the call on, and a call that has ended has cleared its bit. |
| PageAllocator.LayoutFits | 20161211_pintos_prj2/src/threads/palloc.c:45-62 | The two pools lie one behind the other between 1 MB and the end of RAM, each behind its bitmap, which fits; the user pool has at most the limit. |
| PageAllocator.PoolFits | 20161211_pintos_prj2/src/threads/palloc.c:153-170 | A pool's bitmap, sized for all of its memory, leaves the rest to its pages and holds a bit for each. |
| PageAllocator.Allocator.constructor | 20161211_pintos_prj2/src/threads/palloc.c:45-62 | Afterwards every page of both pools is free. |
| PageAllocator.Allocator.GetMultiple | 20161211_pintos_prj2/src/threads/palloc.c:70-101 | Takes the first free run of the right pool that is long enough and clears it if asked to; the other pool and all other pages stay as they were, and so does everything when there is no such run. |
| PageAllocator.Allocator.FreeMultiple | 20161211_pintos_prj2/src/threads/palloc.c:117-142 | Finds the pool the pages came from and makes them free there, and nothing else. |
| PageAllocator.FreeUndoesGet | 20161211_pintos_prj2/src/threads/palloc.c:70-142 | Giving back what a call took leaves the pool as it was before the call. |
| Malloc.MallocInit | 20161211_pintos_prj2/src/threads/malloc.c:71-85 | The descriptors are those for 16 to 1024 bytes, with as many blocks as fit a page behind the header. |
| Malloc.BlockPlace | 20161211_pintos_prj2/src/threads/malloc.c:267-294 | A block lies inside its page behind the header, and its address gives back its page and number. |
| Malloc.BlocksApart | 20161211_pintos_prj2/src/threads/malloc.c:285-294 | Two blocks of any arenas do not overlap. |
| Malloc.BigEnough | 20161211_pintos_prj2/src/threads/malloc.c:105-120 | A big block holds the bytes asked for if and only if adding the header does not wrap 32 bits. |
| Malloc.NewArenaKeeps | 20161211_pintos_prj2/src/threads/malloc.c:124-146 | A new arena puts each of its blocks on the free list once and keeps the books. |
| Malloc.TakeKeeps | 20161211_pintos_prj2/src/threads/malloc.c:148-153 | Taking the first free block keeps the books. |
| Malloc.GiveKeeps | 20161211_pintos_prj2/src/threads/malloc.c:238-242 | Returning a block keeps the books. |
| Malloc.DropKeeps | 20161211_pintos_prj2/src/threads/malloc.c:241-253 | An arena is given back exactly when all its blocks are free, and takes its own blocks off the list and no others. |
| Malloc.MallocKeeps | 20161211_pintos_prj2/src/threads/malloc.c:89-154 | malloc keeps the books and returns a block that was not in use, or changes nothing; which of the two is the next row's. |
| Malloc.MallocOutcome | 20161211_pintos_prj2/src/threads/malloc.c:89-154 | malloc returns null if and only if it is asked for no bytes, or the smallest descriptor that is large enough has no free block and there is no page, or none is large enough and there are no pages or their number wraps to 0. Otherwise a small block is one of that descriptor, and a new arena is made only if it had no free block; a big one has pages of its own. |
| Malloc.NoPages | 20161211_pintos_prj2/src/threads/malloc.c:109-112 | The number of pages for a big block wraps to 0 exactly for sizes from 2^32 - 4107 to 2^32 - 12. |
| Malloc.FreeKeeps | 20161211_pintos_prj2/src/threads/malloc.c:218-264 | free keeps the books and takes just that block out of use. |
| MallocRuns.LiveSize | 20161211_pintos_prj2/src/threads/malloc.c:178-186 | A block in use is aligned, inside its arena and at least as large as asked for, unless the size wrapped. |
| MallocRuns.LiveApart | 20161211_pintos_prj2/src/threads/malloc.c:89-154 | Blocks in use do not overlap. |
| MallocRuns.BooksBalance | 20161211_pintos_prj2/src/threads/malloc.c:89-264 | In every run, between calls: free_cnt is the number of an arena's blocks on its free list, every arena has a block in use, and blocks in use are aligned, large enough and apart. |
| MallocRuns.ReallocKeepsBytes | 20161211_pintos_prj2/src/threads/malloc.c:194-214 | realloc keeps the first min(old, new) bytes and every other block's bytes; it fails exactly when malloc of the new size has nothing to give, and the old block is as it was then; a new size of 0 frees it. |
| MallocRuns.Allocator.AddArena | 20161211_pintos_prj2/src/threads/malloc.c:137-145 | In place, the specification's new arena, block by block. |
| MallocRuns.Allocator.PopBlock | 20161211_pintos_prj2/src/threads/malloc.c:148-153 | In place, the specification's taking of a block. |
| MallocRuns.Allocator.FindDesc | 20161211_pintos_prj2/src/threads/malloc.c:100-105 | The loop finds the smallest descriptor that is large enough. |
| MallocRuns.Allocator.MallocBlock | 20161211_pintos_prj2/src/threads/malloc.c:89-154 | In place, the specification's malloc: null exactly for want of what the size needs, and otherwise a block of the smallest descriptor that is large enough, or pages of its own; with the invariant kept. |
| MallocRuns.Allocator.RemoveArena | 20161211_pintos_prj2/src/threads/malloc.c:244-252 | In place, the specification's giving back of an arena, block by block. |
| MallocRuns.Allocator.FreeBlock | 20161211_pintos_prj2/src/threads/malloc.c:218-264 | In place, the specification's free, with the invariant kept. |
| MallocRuns.CallocTestMisses | 20161211_pintos_prj2/src/threads/malloc.c:158-175 | calloc asks for the product if and only if it fits 32 bits and both factors are 0 or neither is; its test refuses 0 times another number, and does not tell overflows: 65537 times 65537 passes it. |
| MallocRuns.CallocZeroes | 20161211_pintos_prj2/src/threads/malloc.c:158-175 | calloc returns a new block whose bytes are all zero and changes no byte of a block in use, or returns null, exactly if its test fails or malloc has nothing to give, and changes nothing. |
| HashTable.MaskIsMod | 20161211_pintos_prj0_2/hash.c:307-312 | For a power of two, masking with one less is the remainder. |
| HashTable.LeastBitOff | 20161211_pintos_prj0_2/hash.c:331-342 | Turning off the least 1-bit makes a number smaller but not below its highest power of two, and gives 0 just for powers of two. |
| HashTable.IdealBuckets | 20161211_pintos_prj0_2/hash.c:366-374 | The loop ends with a power of two, at least 4, with elem_cnt < 4 times it, and at most elem_cnt / 2 unless it is 4. |
| HashTable.Pushed | 20161211_pintos_prj0_2/hash.c:418-423 | Pushing an element on its bucket adds it to the table and keeps each element in its own bucket, once. |
| HashTable.Removed | 20161211_pintos_prj0_2/hash.c:426-431 | Removing an element from its bucket takes just that one out of the table. |
| HashTable.Hash.constructor | 20161211_pintos_prj0_2/hash.c:26-44 | A new table is empty, with four buckets. |
| HashTable.Hash.FindBucket | 20161211_pintos_prj0_2/hash.c:307-312 | The bucket is the hash modulo the number of buckets. |
| HashTable.Hash.FindElem | 20161211_pintos_prj0_2/hash.c:316-328 | Finds an element of the bucket equal to the given one, and nothing only if there is none. |
| HashTable.Hash.Find | 20161211_pintos_prj0_2/hash.c:133-137 | Finds the element of the table equal to the given one, and nothing only if there is none. |
| HashTable.Hash.InsertElem | 20161211_pintos_prj0_2/hash.c:418-423 | Adds one element and counts it. |
| HashTable.Hash.RemoveElem | 20161211_pintos_prj0_2/hash.c:426-431 | Takes out one element and counts it. |
| HashTable.Hash.Insert | 20161211_pintos_prj0_2/hash.c:100-112 | Adds the element unless an equal one is there, which it returns; the table stays valid also when rehash finds no memory. |
| HashTable.Hash.Replace | 20161211_pintos_prj0_2/hash.c:116-129 | Puts the element in the place of an equal one, which it returns. |
| HashTable.Hash.Delete | 20161211_pintos_prj0_2/hash.c:146-156 | Takes out the element equal to the given one, and no other. |
| HashTable.Hash.Rehash | 20161211_pintos_prj0_2/hash.c:353-415 | The same elements, each once and in its own bucket; the number of buckets is then in proportion, if memory was found. |
| HashTable.Iterator.Next | 20161211_pintos_prj0_2/hash.c:220-237 | Gives the next of the elements that are left. |
| HashTable.IterationIsTable | 20161211_pintos_prj0_2/hash.c:201-237 | An iteration meets each element of the table, exactly once. |
| PageDir.EntryBits | 20161211_pintos_prj2/src/threads/pte.h:71-104 | An entry made for a frame is present, gives the frame back, and says whether it is writable. |
| PageDir.PageDirectory.Create | 20161211_pintos_prj2/src/userprog/pagedir.c:16-23 | A new directory maps no user page, and the kernel's half as init_page_dir does; no frame is used twice. |
| PageDir.PageDirectory.LookupPage | 20161211_pintos_prj2/src/userprog/pagedir.c:56-86 | Finds the word for the page, adding an empty table if asked to; no user mapping changes, nor the kernel half. |
| PageDir.TableAdded | 20161211_pintos_prj2/src/userprog/pagedir.c:69-81 | A new empty table changes no mapping. |
| PageDir.EntryWritten | 20161211_pintos_prj2/src/userprog/pagedir.c:110-116 | Storing through the word found changes the mapping of that page and of no other. |
| PageDir.PageDirectory.WriteEntry | 20161211_pintos_prj2/src/userprog/pagedir.c:110-116 | That store, in place. |
| PageDir.PageDirectory.SetPage | 20161211_pintos_prj2/src/userprog/pagedir.c:98-119 | Maps one page to its frame and changes no other mapping, nor the kernel half; fails only for want of memory, and then changes nothing; with fresh frames no frame is used twice, and only those frames are used up. |
| PageDir.PageDirectory.GetPage | 20161211_pintos_prj2/src/userprog/pagedir.c:125-137 | The frame exactly if the page is present; changes nothing. |
| PageDir.PageDirectory.ClearPage | 20161211_pintos_prj2/src/userprog/pagedir.c:143-157 | Makes one page not present, keeping its other bits, and changes nothing else; no frame is used twice then, if none was before. |
| PageDir.MappedApart | 20161211_pintos_prj2/src/userprog/pagedir.c:98-119 | Fresh frames keep the frames of pages, tables and directory apart. |
| PageDir.PageDirectory.Destroy | 20161211_pintos_prj2/src/userprog/pagedir.c:27-48 | Gives back, in order, what the loops over tables and entries say; no frame twice, as long as no frame was used twice. |
| PageDir.FreedOnce | 20161211_pintos_prj2/src/userprog/pagedir.c:27-48 | That is every present page, every user page table and the directory, each exactly once, and nothing else, whenever no frame is used twice, which the operations keep. |
| PageDir.ApartFrames | 20161211_pintos_prj2/src/userprog/pagedir.c:27-48 | No frame used twice, page by page, is what the loops over tables and entries need. |
| PageDir.InstallPage | 20161211_pintos_prj2/src/userprog/process.c:528-537 | Maps the page if it is not mapped and a table can be had, and otherwise changes nothing; the frames stay apart. |
| PageDir.LoadSegment | 20161211_pintos_prj2/src/userprog/process.c:454-497 | On the two-level directory: on success every address of the segment holds the file's byte or, after those, zero, each page with the flag for writing asked for; other pages and frames stay as they were, also on failure, whose cause is one of four named ones; frames are kept apart, and those not used are still free. |
| PageDir.PageAdded | 20161211_pintos_prj2/src/userprog/process.c:463-495 | Each turn of the loop adds one such page. |
| PageDir.PageBytesAre | 20161211_pintos_prj2/src/userprog/process.c:466-483 | What is read and zeroed makes up one page of the segment. |
| StackSetup.NextToken | 20161211_pintos_prj2/src/lib/string.c:234-275 | strtok_r: the next word, ended by a null byte, or none exactly if only delimiters are left; the text still to come is not touched. |
| StackSetup.WordsFound | 20161211_pintos_prj2/src/userprog/process.c:553-565 | Words without spaces, set apart by any numbers of spaces, are found again, those and no others. |
| StackSetup.TextIsWords | 20161211_pintos_prj2/src/userprog/process.c:553-565 | And every text is such a row of words and spaces, so this says what the words of any command line are. |
| StackSetup.SetArgv | 20161211_pintos_prj2/src/userprog/process.c:553-565 | The arguments are the space-separated words of the command line, in order. |
| StackSetup.PushStrings | 20161211_pintos_prj2/src/userprog/process.c:571-578 | The strings lie below the top of the page, whole and apart. |
| StackSetup.PushPointers | 20161211_pintos_prj2/src/userprog/process.c:585-592 | The pointers lie below them in order, ended by a null pointer, and leave the strings alone. |
| StackSetup.SetStack | 20161211_pintos_prj2/src/userprog/process.c:567-604 | Through argc and argv on the final stack, whose pointer is a multiple of 4, exactly the arguments read back. |
| StackSetup.ReadingIsUnique | 20161211_pintos_prj2/src/userprog/process.c:567-604 | No other list of arguments reads back from the same stack. |
| StackSetup.SetUpArguments | 20161211_pintos_prj2/src/userprog/process.c:553-604 | For every command line of at most 128 words that fit the page, the words come back from the stack. |
| HeapSort.Heapify | 20161211_pintos_prj2/src/lib/stdlib.c:96-123 | Given a heap below position i, it makes one from i on, and permutes. |
| HeapSort.SiftStep | 20161211_pintos_prj2/src/lib/stdlib.c:101-122 | Each swap moves the one place where the heap may be broken down to the larger child. |
| HeapSort.RootIsLargest | 20161211_pintos_prj2/src/lib/stdlib.c:131-152 | The root of a heap is at least every element. |
| HeapSort.RootRemoved | 20161211_pintos_prj2/src/lib/stdlib.c:146-151 | Moving it behind the heap extends the sorted tail. |
| HeapSort.Sort | 20161211_pintos_prj2/src/lib/stdlib.c:131-152 | For every total preorder the array ends sorted, and a permutation of what it was. |
| HeapSort.BinarySearch | 20161211_pintos_prj2/src/lib/stdlib.c:184-207 | In a sorted array it finds a match exactly if there is one. |
| Formatting.Atoi | 20161211_pintos_prj2/src/lib/stdlib.c:9-41 | Skips spaces and a sign and reads the digits, counting down so that INT_MIN is read too. |
| Formatting.FormatInteger | 20161211_pintos_prj2/src/lib/stdio.c:469-547 | The digits gathered in reverse, with group commas, precision zeros, sign, prefix and padding, come out in order. |
| Formatting.DigitsBack | 20161211_pintos_prj2/src/lib/stdio.c:501-513 | The digits put out for a number up to 2^31 read back as the number. |
| Formatting.AtoiOfFormatD | 20161211_pintos_prj2/src/lib/stdlib.c:9-41 | atoi of "%d" gives back every 32-bit int. |
| PrintfLaws.AtoiReads | 20161211_pintos_prj2/src/lib/stdlib.c:9-41 | atoi skips white space, takes a sign, reads the digits that follow up to whatever else comes, and gives their value, wrapped to 32 bits. |
| Printf.ReadConversion | 20161211_pintos_prj2/src/lib/stdio.c:339-460 | Flags, width, precision and type as the specification reads them, `*` included. |
| Printf.ParseThen | 20161211_pintos_prj2/src/lib/stdio.c:339-460 | What a conversion means does not depend on the format or the arguments behind it. |
| Printf.Sink.PutInteger | 20161211_pintos_prj2/src/lib/stdio.c:469-546 | Puts out what format_integer's loops make of the value. |
| Printf.Sink.OutputDup | 20161211_pintos_prj2/src/lib/stdio.c:549-555 | Puts out a character as often as asked, and nothing for a count that is not positive. |
| Printf.Sink.PutString | 20161211_pintos_prj2/src/lib/stdio.c:560-572 | Puts out the string, padded on the side asked for. |
| Printf.StringLength | 20161211_pintos_prj2/src/lib/stdio.c:294-301 | The length of a string, limited by the precision if there is one; what is shown for it is `PrintfLaws.PercentS`. |
| Printf.Sink.PutNumber | 20161211_pintos_prj2/src/lib/stdio.c:181-291 | Each numeric conversion cuts its argument to the type and formats it in its base. |
| Printf.Sink.PutConversion | 20161211_pintos_prj2/src/lib/stdio.c:178-331 | One conversion puts out its text and leaves the arguments behind its own. |
| Printf.Vprintf | 20161211_pintos_prj2/src/lib/stdio.c:156-333 | The loop over the format, formatting in place, puts out the text that the specification gives; what that text is, conversion by conversion, is said by the rows on `PrintfLaws`. |
| PrintfLaws.SpecParses | 20161211_pintos_prj2/src/lib/stdio.c:339-460 | Flags in any order and number, a width, a precision and a length, as they are written, are parsed to just those. |
| PrintfLaws.PercentS | 20161211_pintos_prj2/src/lib/stdio.c:291-303 | %s with any flags, width and precision puts out the first min(precision, length) bytes of the string, all of it without a precision, in a field of at least the width, blanks in front, or behind under the flag -. |
| PrintfLaws.PlainPercentS | 20161211_pintos_prj2/src/lib/stdio.c:291-303 | Plain %s puts out exactly the string. |
| PrintfLaws.PercentSOfNull | 20161211_pintos_prj2/src/lib/stdio.c:294-296 | A null pointer is shown as (null). |
| PrintfLaws.PercentC | 20161211_pintos_prj2/src/lib/stdio.c:283-289 | %c puts out the lowest byte of its argument, in a field of the width. |
| PrintfLaws.PlainText | 20161211_pintos_prj2/src/lib/stdio.c:160-169 | A format without a percent sign is its own text. |
| PrintfLaws.DigitsRead | 20161211_pintos_prj2/src/lib/stdio.c:501-513 | The digits put out for a number, in any base and case, are digits of that base and case, read back as the number, and have no zero in front. |
| PrintfLaws.PercentSigned | 20161211_pintos_prj2/src/lib/stdio.c:185-226 | %d and %i put out the argument, cut to its type, with any flags but ', width, precision and length: blanks, the sign that the flags ask for, zeros up to the precision or width, and decimal digits that read back as its magnitude, in a field of at least the width. |
| PrintfLaws.PercentUnsigned | 20161211_pintos_prj2/src/lib/stdio.c:228-281 | So do %o, %u, %x and %X in base 8, 10 and 16, with lower-case or upper-case digits and the prefix that the flag # asks for, under %o that of `OctalZero`. |
| PrintfLaws.PercentP | 20161211_pintos_prj2/src/lib/stdio.c:305-315 | %p puts out what %#x does. |
| PrintfLaws.TypesCut | 20161211_pintos_prj2/src/lib/stdio.c:191-268 | What a length modifier makes of an argument is the value of its 8, 16, 32 or 64 bits, signed or not. |
| PrintfLaws.OctalZero | 20161211_pintos_prj2/src/lib/stdio.c:515-521 | The flag # under %o adds a zero exactly where there is none in front. |
| PrintfLaws.GroupsAre | 20161211_pintos_prj2/src/lib/stdio.c:501-513 | Under the flag ' a comma stands after every third digit from the right, in base 16 every fourth, but never in front; the digits are those without the flag. |
| PrintfLaws.StarWidth | 20161211_pintos_prj2/src/lib/stdio.c:378-394 | A star takes the width from the arguments, and a negative one is that width with the flag -. |
| PrintfLaws.FieldWidth | 20161211_pintos_prj2/src/lib/stdio.c:526-546 | A number takes its width, or what it needs if that is more, except if a flag 0 meets a - that came from a negative argument: then it is padded on both sides. |
| PrintfLaws.PaddedTwice | 20161211_pintos_prj2/src/lib/stdio.c:373-394 | An input: "%0*d" of -3 and 7 puts out five characters. |
| Printf.PrintThen | 20161211_pintos_prj2/src/lib/stdio.c:156-333 | The text of two formats in a row is the two texts in a row, the second with the arguments the first left. |
| Printf.Sink.Put | 20161211_pintos_prj2/src/lib/stdio.c:45-52 | Counts every character and keeps those that fit. |
| Printf.Vsnprintf | 20161211_pintos_prj2/src/lib/stdio.c:25-42 | The buffer gets as much of the text as fits before a null byte, and nothing past it changes; the result is the length of all of the text. |
| Printf.AtoiOfPercentD | 20161211_pintos_prj2/src/lib/stdio.c:156-333 | The text of the format "%d" is one that atoi reads back. |
| Ustar.StripPrefixes | 20161211_pintos_prj2/src/lib/ustar.c:65-73 | Strips as the specification does, with "." for an empty name or "..". |
| Ustar.StripTwice | 20161211_pintos_prj2/src/lib/ustar.c:65-73 | A stripped name is not empty and has nothing left to strip. |
| Ustar.StrippedIs | 20161211_pintos_prj2/src/lib/ustar.c:65-73 | What is stripped is a row of "/", "./" and "../"; what is left is the end of the name and begins with none of them, or is "." where nothing or ".." is left. |
| Ustar.ParseOctalField | 20161211_pintos_prj2/src/lib/ustar.c:129-162 | Reads the field as the specification does, and fails on overflow, on other characters, and without an end. |
| Ustar.OctalReads | 20161211_pintos_prj2/src/lib/ustar.c:129-162 | Digits with a null byte behind them are read as their value, if it fits 32 bits. |
| Ustar.FormatOReads | 20161211_pintos_prj2/src/lib/stdio.c:469-547 | A number below 8^w printed with "%0wo" is w octal digits with that value. |
| Ustar.OctalFormats | 20161211_pintos_prj2/src/lib/ustar.c:102-115 | The formats "%07o" and "%011o" put out just that. |
| Ustar.NumberReads | 20161211_pintos_prj2/src/lib/ustar.c:129-162 | So parse_octal_field gives back every number the header fields can hold, all sizes up to 2^31 - 1 among them. |
| Ustar.CalculateChksum | 20161211_pintos_prj2/src/lib/ustar.c:36-54 | The sum of the bytes, with blanks for the checksum's own. |
| UstarLaws.ChecksumIs | 20161211_pintos_prj2/src/lib/ustar.c:36-54 | It is the sum of the bytes in front of its field and behind it, and of eight blanks. |
| Ustar.ChecksumIgnoresItself | 20161211_pintos_prj2/src/lib/ustar.c:36-54 | The checksum does not depend on the field it is stored in. |
| Ustar.MakeHeader | 20161211_pintos_prj2/src/lib/ustar.c:82-118 | Fails only for a name over 99 bytes when stripped; otherwise every field holds its text, null bytes after it, and the checksum field the checksum of the finished header. |
| UstarLaws.HeaderBytes | 20161211_pintos_prj2/src/lib/ustar.c:99-115 | Where everything is: name, mode 0644 or 0755, owner 0, size, time 2006-01-01, checksum, type, magic, version and the name root, in their fields and formats, and null bytes elsewhere. |
| Ustar.ParseHeader | 20161211_pintos_prj2/src/lib/ustar.c:181-227 | Finds what the specification's parser finds, each error included, in order. |
| UstarLaws.ParsesExactly | 20161211_pintos_prj2/src/lib/ustar.c:181-227 | A header is accepted exactly if it is not all null, has the magic and the version, a checksum that is right, a name that ends in its field and no prefix, and is of a directory or of a file with a size below 2^31; all null is the end of the archive. |
| Ustar.ParseOfHeader | 20161211_pintos_prj2/src/lib/ustar.c:181-227 | Of any header ustar_make_header makes, it finds the stripped name, the type, and the size, or 0 for a directory. |
| Ustar.CorruptionDetected | 20161211_pintos_prj2/src/lib/ustar.c:181-227 | A header that is accepted is no longer accepted once any one byte outside the checksum field has changed. |

## Left out

- SynchRuns.StepKeeps: thread ids are never reused and `tid_lock` is not part of the machine; a semaphore is initialised while no thread sleeps on it, and a condition is used with one lock, as their comments demand.
- Kernel.Semaphore.SemaDownTurn: states one turn of the loop, since other threads run between two turns; that the turns add up is proved on the machine of steps.
- Kernel.Lock.AcquireTurn: the same; and the later halves of cond_wait and cond_broadcast, which wait or repeat, are steps of `Synch` only.
- Palloc.RunKeeps: the pool is modelled on values, one access to a bit or a byte per step, because a method cannot be interrupted half-way; the same calls, uninterrupted and in place, are methods of `PageAllocator.Allocator`. PAL_ASSERT and the panics are left out.
- ProcessWait.RunKeeps: parents and children are modelled on values, one access to the shared fields per step, for the same reason; `load_finish` and `child_load_success` are not modelled.
- Scheduler.InitValid: the thread's stack frames, name and priority are left out.
- ListShuffling.ListShuffle: `rand()` is any function of the number of the draw.
- Arithmetic.Sdiv64Truncates: negating INT64_MIN wraps, as the compiler in use makes it.
- FileSystem.CreateInodeKeeps: is about ownership only; that the new data reads as zeros is `InodeIO.NewFileIsZeros`, and that it does so on the device `FileSystemDevice.CreateInodeSound`.
- FileSystemCalls.Volume.FreeMapRelease: states what it does and not the invariant, which holds again only when the caller has given up the sectors; its callers ensure it.
- FileSystemCalls.DoFormat: is for a format that finds the memory it needs; a panic, there or for a map that cannot be opened or read at the start, ends the run.
- FileSystemTheorems.ApplyReady: the free map's file and the root directory are opened and closed by the system itself; file sizes are below 2^31 and names are strings, as their types say; the `loose`, `lost` and `bytes` of a state keep the books and are not in the code.
- Directory.AddEntersOneName: is for calls whose reads of entries succeed; exactly what happens otherwise is in `Directory.LostExactly` and `Directory.NamesBreakExactly`.
- MallocRuns.ReallocKeepsBytes: is for a block in use; a size that wraps when the header is added is left to `Malloc.BigEnough`.
- MallocRuns.Allocator.MallocBlock: the descriptors' locks are left out, so a call is one step.
- Bitmap.BitMap.Read: is for a read that brings the whole file.
- Bitmap.BitMap.Expand: is for a `bitmap_create` that finds memory; the code goes on without a test.
- HashTable.Hash.constructor: the failure for want of memory is left out.
- HashTable.Hash.Insert: buckets are sequences; the links between a bucket's elements are those of `LinkedList`. `hash_apply`, `hash_clear` and the hash functions for bytes, strings and integers are left out; a comparison and hash that agree are demanded of the caller.
- PageDir.PageDirectory.Create: the failure for want of memory is left out; physical and kernel virtual addresses are the same numbers, and the TLB is not modelled.
- PageDir.LoadSegment: whether a page of the file can be read for want of a bounce buffer is an argument; what is in a page that was taken and given back is not modelled.
- StackSetup.SetUpArguments: is for command lines whose words number at most 128 and fit the page, which the code relies on without a test.
- Printf.Vprintf: arguments that do not match the format, or a format that ends inside a conversion, are the caller's errors; widths, precisions and lengths are not wrapped at 2^31.
- Ustar.MakeHeader: the message for a name that is too long is left out.
- `list_max`, `list_min`, `hash_cur` and the other accessors: would only add easy members.
- `timer.c`, `intq.c`, `random.c`, `hex_dump` and the simple loops of `string.c`: the same.
- Devices, inline assembly, interrupts other than the timer's, booting, the GDT and the TSS: hardware effects with nothing to state.
- System-call dispatch, `process_execute`'s load handshake, `exception.c`, `rtc.c`, `partition.c`, the example programs and host utilities: plumbing, or without a property that holds.
- The priority scheduler and the sleep list of the third project: not part of this model.
