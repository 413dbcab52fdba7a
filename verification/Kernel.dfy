/** The functions of threads/thread.c and threads/synch.c as they are written, updating the
    kernel's variables in place; each is proved against the value-level operation of the same
    name in Scheduler and Synch. */
module Kernel {
  import opened Options
  import opened Sequences
  import opened Scheduler
  import Synch

  /** The static variables of thread.c. */
  class Threads {
    var status: map<Tid, Status>
    var readyList: seq<Tid>
    var allList: seq<Tid>
    var idleThread: Option<Tid>
    var running: Tid
    var threadTicks: nat
    var freed: set<Tid>

    ghost function View(): Sched
      reads this
    {
      Sched(status, readyList, allList, idleThread.Some?, running, threadTicks, freed)
    }

    ghost predicate Sane()
      reads this
    {
      Valid(View()) && (idleThread.Some? ==> idleThread.value == IDLE)
    }

    /** next_thread_to_run, when there is a thread to run. */
    method NextThreadToRun() returns (next: Tid)
      requires readyList != [] || idleThread == Some(IDLE)
      modifies `readyList
      ensures next == Next(old(View()))
      ensures readyList == if old(readyList) == [] then [] else old(readyList)[1..]
    {
      if readyList == [] {
        next := idleThread.value;
      } else {
        next := readyList[0];
        readyList := readyList[1..];
      }
    }

    /** thread_schedule_tail: `prev` is the thread switched from, if there was a switch. */
    method ScheduleTail(prev: Option<Tid>)
      requires prev.Some? ==> prev.value in status && prev.value != running
      modifies `status, `threadTicks, `freed
      ensures View() == var s := old(View()).(status := old(status)[running := Running], ticks := 0);
                        if prev.Some? then Reap(s, prev.value) else s
    {
      status := status[running := Running];
      threadTicks := 0;
      if prev.Some? && status[prev.value] == Dying && prev.value != MAIN {
        status := status - {prev.value};
        freed := freed + {prev.value};
      }
    }

    /** schedule: the ASSERTs on the current thread's status and on `next` hold. */
    method DoSchedule()
      requires running in status && status[running] != Running
      requires readyList != [] || idleThread == Some(IDLE)
      modifies this
      ensures View() == Schedule(old(View())) && idleThread == old(idleThread)
    {
      var cur := running;
      var next := NextThreadToRun();
      var prev := None;
      if cur != next {
        running := next;
        prev := Some(cur);
      }
      ScheduleTail(prev);
    }

    method ThreadBlock()
      requires Sane() && (idleThread.Some? || running != IDLE)
      modifies this
      ensures Sane() && View() == Block(old(View()))
    {
      BlockValid(View());
      ghost var before := Blocking(View());
      CanSchedule(before);
      status := status[running := Blocked];
      assert View() == before;
      DoSchedule();
    }

    method ThreadUnblock(t: Tid)
      requires Sane() && t in status && status[t] == Blocked && !(t == IDLE && idleThread.Some?)
      modifies `readyList, `status
      ensures Sane() && View() == Unblock(old(View()), t)
    {
      UnblockValid(View(), t);
      readyList := readyList + [t];
      status := status[t := Ready];
    }

    method ThreadYield()
      requires threadTicks <= SLICE && Valid(View().(ticks := 0)) && (idleThread.Some? ==> idleThread.value == IDLE)
      modifies this
      ensures Sane() && View() == Yield(old(View()))
    {
      YieldValid(View());
      ghost var before := Yielding(View());
      CanSchedule(before);
      if idleThread != Some(running) {
        readyList := readyList + [running];
      }
      status := status[running := Ready];
      assert View() == before;
      DoSchedule();
    }

    /** thread_tick, and the return from the interrupt. */
    method ThreadTick()
      requires Sane()
      modifies this
      ensures Sane() && View() == Tick(old(View()))
    {
      TickValid(View());
      FreshSlice(View());
      threadTicks := threadTicks + 1;
      if threadTicks >= SLICE {
        ThreadYield();
      }
    }

    /** The end of thread_exit. */
    method ThreadExit()
      requires Sane() && running != IDLE
      modifies this
      ensures Sane() && View() == Exit(old(View()))
    {
      ExitValid(View());
      ghost var before := Exiting(View());
      CanSchedule(before);
      allList := Without(allList, running);
      status := status[running := Dying];
      assert View() == before;
      DoSchedule();
    }
  }

  lemma CanSchedule(s: Sched)
    requires Switching(s)
    ensures s.current in s.status && s.status[s.current] != Running && (s.ready != [] || s.idleSet)
  {
  }

  /** struct semaphore. */
  class Semaphore {
    var value: nat
    var waiters: seq<Tid>
    ghost var initial: nat
    ghost var ups: nat
    ghost var downs: nat

    constructor SemaInit(n: nat)
      ensures Entry() == Synch.NewSema(n)
    {
      value := n;
      waiters := [];
      initial, ups, downs := n, 0, 0;
    }

    /** The semaphore's entry in the table of the step relation. */
    ghost function Entry(): Synch.Sema
      reads this
    {
      Synch.Sema(value, waiters, initial, ups, downs)
    }

    /** The table with this semaphore alone in it. */
    ghost function Table(): map<Synch.SemId, Synch.Sema>
      reads this
      ensures Synch.Plain(0) in Table()
    {
      map[Synch.Plain(0) := Entry()]
    }

    method SemaUp(threads: Threads)
      requires threads.Sane()
      requires waiters != [] ==> CanDo(threads.View(), OpUnblock(waiters[0]))
      modifies this, threads
      ensures threads.Sane()
      ensures Table() == Synch.UpSems(old(Table()), Synch.Plain(0))
      ensures threads.View() == Synch.UpSched(old(threads.View()), old(Table()), Synch.Plain(0))
    {
      if waiters != [] {
        var t := waiters[0];
        waiters := waiters[1..];
        threads.ThreadUnblock(t);
      }
      value := value + 1;
      ups := ups + 1;
    }

    method SemaTryDown() returns (success: bool)
      modifies this
      ensures success <==> old(value) > 0
      ensures Table() == Synch.TryDownSems(old(Table()), Synch.Plain(0))
    {
      success := value > 0;
      if success {
        value := value - 1;
        downs := downs + 1;
      }
    }

    /** One turn of the loop of sema_down: the test, and either the decrement or a block. */
    method SemaDownTurn(threads: Threads) returns (done: bool)
      requires threads.Sane() && (threads.idleThread.Some? || threads.running != IDLE)
      modifies this, threads
      ensures threads.Sane() && (done <==> old(value) > 0)
      ensures Table() == Synch.DownSems(old(Table()), Synch.Plain(0), old(threads.running))
      ensures threads.View() == Synch.DownSched(old(threads.View()), old(Table()), Synch.Plain(0))
    {
      done := value > 0;
      if done {
        value := value - 1;
        downs := downs + 1;
      } else {
        waiters := waiters + [threads.running];
        threads.ThreadBlock();
      }
    }
  }

  /** struct lock */
  class Lock {
    const semaphore: Semaphore
    var holder: Option<Tid>

    constructor LockInit()
      ensures holder == None && fresh(semaphore) && semaphore.Entry() == Synch.NewSema(1)
    {
      holder := None;
      semaphore := new Semaphore.SemaInit(1);
    }

    method TryAcquire(threads: Threads) returns (success: bool)
      requires holder != Some(threads.running)
      modifies this, semaphore
      ensures success <==> old(semaphore.value) > 0
      ensures holder == if success then Some(threads.running) else old(holder)
      ensures semaphore.Table() == Synch.TryDownSems(old(semaphore.Table()), Synch.Plain(0))
    {
      success := semaphore.SemaTryDown();
      if success {
        holder := Some(threads.running);
      }
    }

    /** lock_acquire, one turn of sema_down at a time */
    method AcquireTurn(threads: Threads) returns (done: bool)
      requires threads.Sane() && (threads.idleThread.Some? || threads.running != IDLE)
      requires holder != Some(threads.running)
      modifies this, semaphore, threads
      ensures threads.Sane() && (done <==> old(semaphore.value) > 0)
      ensures holder == if done then Some(old(threads.running)) else old(holder)
      ensures semaphore.Table() == Synch.DownSems(old(semaphore.Table()), Synch.Plain(0), old(threads.running))
      ensures threads.View() == Synch.DownSched(old(threads.View()), old(semaphore.Table()), Synch.Plain(0))
    {
      var t := threads.running;
      done := semaphore.SemaDownTurn(threads);
      if done {
        holder := Some(t);
      }
    }

    /** lock_release */
    method Release(threads: Threads)
      requires threads.Sane() && holder == Some(threads.running)
      requires semaphore.waiters != [] ==> CanDo(threads.View(), OpUnblock(semaphore.waiters[0]))
      modifies this, semaphore, threads
      ensures threads.Sane() && holder == None
      ensures semaphore.Table() == Synch.UpSems(old(semaphore.Table()), Synch.Plain(0))
      ensures threads.View() == Synch.UpSched(old(threads.View()), old(semaphore.Table()), Synch.Plain(0))
    {
      holder := None;
      semaphore.SemaUp(threads);
    }
  }

  /** struct condition: the semaphores of those who wait, one each. */
  class Condition {
    var waiters: seq<Semaphore>

    constructor CondInit()
      ensures waiters == []
    {
      waiters := [];
    }

    /** cond_wait, up to lock_release: what the caller then waits for is its own semaphore. */
    method Enqueue() returns (waiter: Semaphore)
      modifies this
      ensures fresh(waiter) && waiter.Entry() == Synch.NewSema(0) && waiters == old(waiters) + [waiter]
    {
      waiter := new Semaphore.SemaInit(0);
      waiters := waiters + [waiter];
    }

    /** cond_signal: wakes the one that has waited longest, if there is one. */
    method Signal(threads: Threads)
      requires threads.Sane()
      requires waiters != [] && waiters[0].waiters != [] ==> CanDo(threads.View(), OpUnblock(waiters[0].waiters[0]))
      modifies this, threads, if waiters == [] then {} else {waiters[0]}
      ensures threads.Sane()
      ensures old(waiters) == [] ==> waiters == [] && threads.View() == old(threads.View())
      ensures old(waiters) != [] ==>
        && waiters == old(waiters)[1..]
        && old(waiters)[0].Table() == Synch.UpSems(old(waiters[0].Table()), Synch.Plain(0))
        && threads.View() == Synch.UpSched(old(threads.View()), old(waiters[0].Table()), Synch.Plain(0))
    {
      if waiters != [] {
        var first := waiters[0];
        waiters := waiters[1..];
        first.SemaUp(threads);
      }
    }
  }
}
