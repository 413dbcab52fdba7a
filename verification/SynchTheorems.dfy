/** What holds over every interleaving of threads and interrupts, from thread_start on. */
module SynchTheorems {
  import opened Options
  import opened Sequences
  import opened Scheduler
  import opened Synch
  import opened SynchWakeups
  import opened SynchSafety
  import opened SynchSteps
  import opened SynchRuns

  /** Each event meets the demands the functions make of their callers. */
  ghost predicate Allowed(s: State, es: seq<Event>)
    requires Inv(s)
    decreases |es|
  {
    es == [] || (CallerOk(s, es[0]) && (StepKeeps(s, es[0]); Allowed(Apply(s, es[0]), es[1..])))
  }

  ghost function AfterRun(s: State, es: seq<Event>): (r: State)
    requires Inv(s) && Allowed(s, es)
    ensures Inv(r)
    decreases |es|
  {
    if es == [] then s else (StepKeeps(s, es[0]); AfterRun(Apply(s, es[0]), es[1..]))
  }

  /** The states any run from thread_start goes through. */
  ghost predicate Reachable(s: State) {
    StartInv();
    exists es :: Allowed(Start(), es) && AfterRun(Start(), es) == s
  }

  lemma ReachableInv(s: State)
    requires Reachable(s)
    ensures Inv(s)
  {
    StartInv();
  }

  lemma {:induction false} AllowedPrefix(s: State, es: seq<Event>, p: nat)
    requires Inv(s) && Allowed(s, es) && p <= |es|
    ensures Allowed(s, es[..p])
    decreases p
  {
    hide Inv, CallerOk, Apply, Safe;
    if p > 0 {
      StepKeeps(s, es[0]);
      AllowedPrefix(Apply(s, es[0]), es[1..], p - 1);
      assert es[..p][1..] == es[1..][..p - 1];
    }
  }

  // ---- semaphores ----

  /** The value of a semaphore is what it started at, plus the ups, less the completed downs. */
  lemma SemaphoreValue(s: State, id: SemId)
    requires Reachable(s) && id in s.sems
    ensures s.sems[id].value == s.sems[id].initial + s.sems[id].ups - s.sems[id].downs
  {
    hide Valid, Known, Lists, Wakeups, Locks, Conds, Reachable;
    ReachableInv(s);
    assert CountOk(s.sems[id]);
  }

  /** No wakeup is lost: while threads wait, at least as many as the value says have been taken
      off the list and are still to look at it, and each of them is running or about to. */
  lemma NoLostWakeup(s: State, id: SemId)
    requires Reachable(s) && id in s.sems && s.sems[id].waiters != []
    ensures |Woken(s.sched, s.pc, id)| >= s.sems[id].value
    ensures forall t | t in Woken(s.sched, s.pc, id) :: t == s.sched.current || t in s.sched.ready
  {
    hide Counts, Lists, Locks, Conds, Reachable;
    ReachableInv(s);
    WokenWillRun(s, id);
  }

  lemma WokenWillRun(s: State, id: SemId)
    requires Inv(s)
    ensures forall t | t in Woken(s.sched, s.pc, id) :: t == s.sched.current || t in s.sched.ready
  {
    hide Core, Locks, Conds;
  }

  // ---- lists ----

  /** A thread's list element is in at most one list: the ready list if it is ready, one
      semaphore's wait list if it is blocked, and once only. */
  lemma OneListEach(s: State, t: Tid)
    requires Reachable(s)
    ensures Distinct(s.sched.ready) && forall id | id in s.sems :: Distinct(s.sems[id].waiters)
    ensures forall id | id in s.sems && t in s.sems[id].waiters :: t !in s.sched.ready && t != s.sched.current
    ensures forall id, k | id in s.sems && k in s.sems && t in s.sems[id].waiters && t in s.sems[k].waiters :: id == k
    ensures Blk(s.sched, t) ==> OffList(s.pc, t) || OnList(s.pc, s.sems, t)
  {
    hide Counts, Wakeups, Locks, Conds, Reachable, Known;
    ReachableInv(s);
    forall id | id in s.sems && t in s.sems[id].waiters
      ensures t !in s.sched.ready && t != s.sched.current && Asleep(s.pc, t) == Some(id)
    {
      assert Blk(s.sched, t);
    }
  }

  // ---- locks ----

  /** Mutual exclusion: at most one thread is past a lock's down and not yet at its up; `holder`,
      when it is not null, is that thread, and it is null only in the two windows around them. */
  lemma MutualExclusion(s: State, l: LockId)
    requires Reachable(s) && l in s.holder
    ensures l in s.inside && OfLock(l) in s.sems && s.sems[OfLock(l)].value + |s.inside[l]| == 1
    ensures forall t, u | t in s.inside[l] && u in s.inside[l] :: t == u
    ensures s.holder[l].Some? ==> s.inside[l] == {s.holder[l].value}
    ensures forall t | t in s.inside[l] :: t in s.pc && (s.holder[l] == None <==> InWindow(s.pc[t], l))
  {
    hide Core, Known, Valid, Conds, Reachable, PlaceOk;
    ReachableInv(s);
    assert LockOk(s.pc, s.sems[OfLock(l)].value, s.holder[l], s.inside[l], l);
    if t :| t in s.inside[l] {
      OnlyOneInside(s.pc, s.sems[OfLock(l)].value, s.holder[l], s.inside[l], l, t);
    }
  }

  // ---- condition variables ----

  /** Threads at work on the list of a condition. */
  predicate UsesCond(p: Pc, l: LockId) {
    (p.Enqueued? || p.Popping? || p.Waking?) && p.c.lock == l
  }

  /** The lists of a lock's conditions are touched by its holder only. */
  lemma CondListsExclusive(s: State, l: LockId, t: Tid)
    requires Reachable(s) && t in s.pc && UsesCond(s.pc[t], l)
    ensures l in s.holder && s.holder[l] == Some(t)
  {
    hide Core, Known, Valid, Conds, Reachable, LockOk;
    ReachableInv(s);
    assert PlaceOk(s.sems, s.holder, s.inside, t, s.pc[t]);
  }

  /** cond_signal wakes the waiter it took off the list, the one that has waited longest: its
      semaphore is 1 and it is not blocked on it. */
  lemma SignalWakes(s: State, u: Tid)
    requires Reachable(s) && u in s.sig && Awaits(s.pc, u).Some? && s.sig[u] == Sent
    ensures OfWaiter(u) in s.sems && s.sems[OfWaiter(u)].value == 1 && !Blk(s.sched, u)
  {
    hide Locks, Valid, Counts, Reachable;
    ReachableInv(s);
    assert EntryOk(s.pc, s.sems, s.conds, s.sig, u, Awaits(s.pc, u).value);
    if Blk(s.sched, u) {
      assert OffList(s.pc, u) || OnList(s.pc, s.sems, u);
      OnlyOwnerWaits(s, u);
    }
  }

  lemma OnlyOwnerWaits(s: State, u: Tid)
    requires Inv(s) && OfWaiter(u) in s.sems && u in s.sems[OfWaiter(u)].waiters
    ensures s.sems[OfWaiter(u)].value == 0
  {
    hide Locks, Conds, Valid, Counts, Known;
    var id := OfWaiter(u);
    assert Asleep(s.pc, u) == Some(id) && Blk(s.sched, u);
    assert Woken(s.sched, s.pc, id) == {};
  }

  /** The event is the sema_up of a cond_signal that took `t` off its list. */
  predicate SignalsTo(s: State, e: Event, t: Tid) {
    e == Continue && s.sched.current in s.pc && s.pc[s.sched.current].Popping? && s.pc[s.sched.current].t == t
  }

  predicate Unsignalled(s: State, t: Tid, c: Cond) {
    Awaits(s.pc, t) == Some(c) && t in s.sig && s.sig[t] != Sent
  }

  /** The second half of cond_signal: the waiter is signalled, and on its way. */
  lemma SignalArrives(s: State, t: Tid)
    requires Inv(s) && CallerOk(s, Continue) && SignalsTo(s, Continue, t)
    ensures Safe(s, Continue)
    ensures var r := Apply(s, Continue); t in r.sig && r.sig[t] == Sent && Awaits(r.pc, t).Some?
  {
    hide Core, Valid, Known, Locks, Conds;
    StepKeeps(s, Continue);
    PoppedWaits(s, t);
  }

  lemma PoppedWaits(s: State, t: Tid)
    requires Inv(s) && SignalsTo(s, Continue, t)
    ensures t != s.sched.current && Awaits(s.pc, t).Some?
  {
    hide Core, Valid, Known, Locks, EntryOk;
    assert PoppingOk(s.pc, s.sig, s.sched.current);
  }

  /** Only a signal ends the first wait of cond_wait. */
  lemma StillWaiting(s: State, e: Event, t: Tid, c: Cond)
    requires Inv(s) && CallerOk(s, e) && Safe(s, e) && Unsignalled(s, t, c) && !SignalsTo(s, e, t)
    ensures Unsignalled(Apply(s, e), t, c)
  {
    hide Inv, Resume, SafeContinue, Tick, Yield, Exit, Init, UpSched, UpSems, TryDownSems, DownSems, DownSched;
    NotStarting(s, t, c);
    if e == Continue {
      StillWaitingAtContinue(s, s.pc[s.sched.current], t, c);
    }
  }

  lemma StillWaitingAtContinue(s: State, pc: Pc, t: Tid, c: Cond)
    requires Inv(s) && s.sched.current in s.pc && pc == s.pc[s.sched.current] && SafeContinue(s, pc)
    requires s.sched.current in s.sched.status && Unsignalled(s, t, c) && !(pc.Popping? && pc.t == t)
    ensures Unsignalled(Resume(s, pc), t, c)
  {
    hide Inv, Block, UpSems, DownSems, DownSched;
    NotStarting(s, t, c);
    if s.sched.current == t && pc.Down? {
      DownWaits(s, t, c);
    }
  }

  lemma NotStarting(s: State, t: Tid, c: Cond)
    requires Inv(s) && Awaits(s.pc, t) == Some(c)
    ensures t in s.pc && !s.pc[t].Starting?
    ensures s.sched.current in s.pc && s.pc[s.sched.current].Creating? ==> s.pc[s.sched.current].child != t
  {
    hide Core, Valid, Locks, Conds;
  }

  lemma DownWaits(s: State, t: Tid, c: Cond)
    requires Inv(s) && Unsignalled(s, t, c) && s.pc[t].Down? && OfWaiter(t) in s.sems
    ensures s.sems[OfWaiter(t)].value == 0
  {
    hide Core, Valid, Locks, Known;
    assert EntryOk(s.pc, s.sems, s.conds, s.sig, t, c);
  }

  /** Where a thread is while inside cond_wait for `c`. */
  predicate InWait(p: Pc, c: Cond) {
    || AwaitsAt(p) == Some(c)
    || (p.Down? && p.goal == ForRelock(c))
    || p == SetHolder(c.lock)
  }

  lemma WaitGoesOn(s: State, e: Event, t: Tid, c: Cond)
    requires Inv(s) && CallerOk(s, e) && Safe(s, e) && t in s.pc && InWait(s.pc[t], c)
    ensures var r := Apply(s, e); t in r.pc && (InWait(r.pc[t], c) || (r.pc[t] == Free && Holds(r.holder, t, c.lock)))
  {
    hide Inv, Resume, SafeContinue, Tick, Yield, Exit, Init, UpSched, UpSems, TryDownSems, DownSems, DownSched;
    WaiterNotStarting(s, t);
    if e == Continue {
      WaitGoesOnAtContinue(s, s.pc[s.sched.current], t, c);
    }
  }

  lemma WaitGoesOnAtContinue(s: State, pc: Pc, t: Tid, c: Cond)
    requires Inv(s) && s.sched.current in s.pc && pc == s.pc[s.sched.current] && SafeContinue(s, pc)
    requires s.sched.current in s.sched.status && t in s.pc && InWait(s.pc[t], c)
    ensures var r := Resume(s, pc);
      t in r.pc && (InWait(r.pc[t], c) || (r.pc[t] == Free && Holds(r.holder, t, c.lock)))
  {
    hide Inv, Block, UpSems, DownSems, DownSched;
    WaiterNotStarting(s, t);
  }

  lemma WaiterNotStarting(s: State, t: Tid)
    requires Inv(s) && s.sched.current in s.pc && t in s.pc && !s.pc[t].Starting?
    ensures s.pc[s.sched.current].Creating? ==> s.pc[s.sched.current].child != t
  {
    hide Core, Valid, Locks, Conds;
  }

  /** cond_wait returns holding the lock: in any run that takes a thread out of it, the step out
      leaves the thread as the lock's holder. */
  lemma {:induction false} WaitReturnsHolding(s: State, es: seq<Event>, t: Tid, c: Cond) returns (q: nat)
    requires Inv(s) && Allowed(s, es) && t in s.pc && InWait(s.pc[t], c)
    requires t in AfterRun(s, es).pc && AfterRun(s, es).pc[t] == Free
    ensures q <= |es| && Allowed(s, es[..q])
    ensures var r := AfterRun(s, es[..q]); t in r.pc && r.pc[t] == Free && Holds(r.holder, t, c.lock)
    decreases |es|
  {
    hide Inv, CallerOk, Safe, Apply;
    var e, rest := es[0], es[1..];
    StepKeeps(s, e);
    WaitGoesOn(s, e, t, c);
    var r := Apply(s, e);
    if InWait(r.pc[t], c) {
      var k := WaitReturnsHolding(r, rest, t, c);
      q := k + 1;
      assert es[..q][1..] == rest[..k];
    } else {
      q := 1;
      assert es[..1] == [e];
    }
  }

  /** And it does not return without a cond_signal or cond_broadcast that took this thread off
      the list: some step of the run is the sema_up of one. */
  lemma {:induction false} ReturnNeedsSignal(s: State, es: seq<Event>, t: Tid, c: Cond) returns (p: nat)
    requires Inv(s) && Allowed(s, es) && Unsignalled(s, t, c)
    requires t in AfterRun(s, es).pc && AfterRun(s, es).pc[t] == Free
    ensures p < |es| && Allowed(s, es[..p]) && SignalsTo(AfterRun(s, es[..p]), es[p], t)
    decreases |es|
  {
    hide Inv, CallerOk, Safe, Apply;
    var e, rest := es[0], es[1..];
    StepKeeps(s, e);
    if SignalsTo(s, e, t) {
      p := 0;
    } else {
      StillWaiting(s, e, t, c);
      var k := ReturnNeedsSignal(Apply(s, e), rest, t, c);
      p := k + 1;
      assert es[..p][1..] == rest[..k];
    }
  }

  // ---- bounded waiting ----

  /** The scheduler's side of a run: one operation of thread.c per event. */
  ghost function SchedOps(s: State, es: seq<Event>): (ops: seq<Op>)
    requires Inv(s) && Allowed(s, es)
    ensures |ops| == |es|
    decreases |es|
  {
    if es == [] then []
    else (StepKeeps(s, es[0]); [SchedOp(s, es[0])] + SchedOps(Apply(s, es[0]), es[1..]))
  }

  function CountTicks(es: seq<Event>): nat {
    if es == [] then 0 else (if es[0] == TimerTick then 1 else 0) + CountTicks(es[1..])
  }

  lemma {:induction false} RunProjects(s: State, es: seq<Event>)
    requires Inv(s) && Allowed(s, es)
    ensures CanRun(s.sched, SchedOps(s, es)) && Run(s.sched, SchedOps(s, es)) == AfterRun(s, es).sched
    ensures TotalTicks(SchedOps(s, es)) == CountTicks(es)
    decreases |es|
  {
    hide Inv, CallerOk, Safe, Apply, SchedOp, Do, CanDo;
    if es == [] {
      CurrentAlive(s);
    } else {
      StepKeeps(s, es[0]);
      ProjectsToScheduler(s, es[0]);
      TicksProject(s, es[0]);
      CurrentAlive(s);
      RunProjects(Apply(s, es[0]), es[1..]);
      assert SchedOps(s, es)[1..] == SchedOps(Apply(s, es[0]), es[1..]);
    }
  }

  lemma CurrentAlive(s: State)
    requires Inv(s)
    ensures Valid(s.sched) && s.sched.current in s.sched.status
  {
    hide Known, Core, Locks, Conds;
  }

  lemma TicksProject(s: State, e: Event)
    requires Safe(s, e)
    ensures SchedOp(s, e) == OpTick <==> e == TimerTick
  {
  }

  lemma {:induction false} OpsPrefix(s: State, es: seq<Event>, p: nat)
    requires Inv(s) && Allowed(s, es) && p <= |es|
    ensures Allowed(s, es[..p]) && SchedOps(s, es[..p]) == SchedOps(s, es)[..p]
    decreases p
  {
    hide Inv, CallerOk, Safe, Apply, SchedOp;
    AllowedPrefix(s, es, p);
    if p > 0 {
      StepKeeps(s, es[0]);
      OpsPrefix(Apply(s, es[0]), es[1..], p - 1);
      assert es[..p][1..] == es[1..][..p - 1];
    }
  }

  /** A thread that a wakeup put at position `k` of the ready list gets the processor within
      4(k+1) handled timer ticks, whatever the other threads and the interrupts do. */
  lemma WokenRunsSoon(s: State, es: seq<Event>, k: nat) returns (p: nat)
    requires Inv(s) && Allowed(s, es) && k < |s.sched.ready| && CountTicks(es) >= SLICE * (k + 1)
    ensures p <= |es| && Allowed(s, es[..p]) && AfterRun(s, es[..p]).sched.current == s.sched.ready[k]
  {
    hide Inv, CanRun, Run, Allowed, SchedOps, AfterRun, Valid, TotalTicks, CountTicks;
    CurrentAlive(s);
    RunProjects(s, es);
    p := DispatchedWithinTicks(s.sched, SchedOps(s, es), k);
    OpsPrefix(s, es, p);
    RunProjects(s, es[..p]);
  }
}
