/** What the calls of threads/synch.c and thread_create promise the thread that makes them, from the
    call to its return, whatever the other threads and the interrupts do meanwhile. */
module SynchCalls {
  import opened Options
  import opened Sequences
  import opened Scheduler
  import opened Synch
  import opened SynchWakeups
  import opened SynchSafety
  import opened SynchSteps
  import opened SynchRuns
  import opened SynchTheorems

  // ---- sema_up, sema_down and sema_try_down ----

  /** The event is a sema_up of semaphore `i`. */
  predicate Gives(s: State, e: Event, i: nat) {
    || e == IntrUp(i) || e == CallUp(i)
    || (e == Continue && i == 0 && s.sched.current in s.pc && s.pc[s.sched.current] == BootUp)
  }

  /** With the event a sema_down of semaphore `i` returns, or a sema_try_down finds it positive. */
  predicate Takes(s: State, e: Event, i: nat)
    requires Safe(s, e)
  {
    if e == IntrTryDown(i) || e == CallTryDown(i) then Plain(i) in s.sems && s.sems[Plain(i)].value > 0
    else
      (var t, r := s.sched.current, Apply(s, e);
       && t in r.pc && r.pc[t] == Free
       && (e == CallDown(i) || (e == Continue && s.pc[t].Down? && s.pc[t].goal == ForSema(i))))
  }

  /** A semaphore changes with the calls that are made of it, and with nothing else. */
  predicate Counted(s: State, e: Event, i: nat)
    requires Safe(s, e) && Plain(i) in s.sems
  {
    var r := Apply(s, e);
    && Plain(i) in r.sems
    && r.sems[Plain(i)].value + (if Takes(s, e, i) then 1 else 0)
       == s.sems[Plain(i)].value + (if Gives(s, e, i) then 1 else 0)
  }

  lemma ValueStep(s: State, e: Event, i: nat)
    requires CallerOk(s, e) && Safe(s, e) && Plain(i) in s.sems
    ensures Counted(s, e, i)
  {
    if e == Continue {
      ValueContinue(s, i);
    } else if e.CallDown? || e.CallAcquire? {
      ValueDownCall(s, e, i);
    } else if e.IntrUp? || e.CallUp? || e.IntrTryDown? || e.CallTryDown? {
      ValueCall(s, e, i);
    } else {
      hide Apply, Safe, CallerOk;
      OtherSema(s, e, i);
    }
  }

  lemma ValueCall(s: State, e: Event, i: nat)
    requires Safe(s, e) && Plain(i) in s.sems && (e.IntrUp? || e.CallUp? || e.IntrTryDown? || e.CallTryDown?)
    ensures Counted(s, e, i)
  {
    hide UpSched;
  }

  lemma ValueDownCall(s: State, e: Event, i: nat)
    requires Safe(s, e) && Plain(i) in s.sems && (e.CallDown? || e.CallAcquire?)
    ensures Counted(s, e, i)
  {
    hide DownTurn;
    ValueDown(s, if e.CallDown? then ForSema(e.i) else ForLock(e.l), i);
  }

  lemma OtherSema(s: State, e: Event, i: nat)
    requires CallerOk(s, e) && Safe(s, e) && Plain(i) in s.sems && e != Continue && !e.CallDown? && !e.CallAcquire?
    requires !e.IntrUp? && !e.CallUp? && !e.IntrTryDown? && !e.CallTryDown?
    ensures var r := Apply(s, e); Plain(i) in r.sems && r.sems[Plain(i)] == s.sems[Plain(i)]
  {
    hide Tick, Yield, Exit, Init, Resume, SafeContinue;
  }

  lemma SameSems(s: State, c: Cond, all: bool)
    requires c in s.conds
    ensures PopWaiter(s, c, all).sems == s.sems
  {
  }

  lemma ValueDown(s: State, g: Goal, i: nat)
    requires DownSafe(s, g) && s.sched.current in s.sched.status && Plain(i) in s.sems
    ensures var r, t := DownTurn(s, g), s.sched.current;
      && Plain(i) in r.sems && t in r.pc && (r.pc[t] == Free ==> g.ForSema?)
      && r.sems[Plain(i)].value + (if g == ForSema(i) && r.pc[t] == Free then 1 else 0) == s.sems[Plain(i)].value
  {
    hide DownSched;
  }

  lemma ValueContinue(s: State, i: nat)
    requires CallerOk(s, Continue) && Safe(s, Continue) && Plain(i) in s.sems
    ensures Counted(s, Continue, i)
  {
    hide Block, UpSched, DownTurn, PopWaiter;
    match s.pc[s.sched.current] {
      case Down(g, asleep) => ValueDown(s, g, i);
      case Waking(c) => SameSems(s, c, true);
      case _ =>
    }
  }

  ghost function Given(s: State, es: seq<Event>, i: nat): nat
    requires Inv(s) && Allowed(s, es)
    decreases |es|
  {
    if es == [] then 0
    else (StepKeeps(s, es[0]); (if Gives(s, es[0], i) then 1 else 0) + Given(Apply(s, es[0]), es[1..], i))
  }

  ghost function Taken(s: State, es: seq<Event>, i: nat): nat
    requires Inv(s) && Allowed(s, es)
    decreases |es|
  {
    if es == [] then 0
    else (StepKeeps(s, es[0]); (if Takes(s, es[0], i) then 1 else 0) + Taken(Apply(s, es[0]), es[1..], i))
  }

  /** Over any run the value of a semaphore rises by the calls of sema_up and falls by the returns of
      sema_down and by the calls of sema_try_down that found it positive. */
  lemma {:induction false} ValueOverRuns(s: State, es: seq<Event>, i: nat)
    requires Inv(s) && Allowed(s, es) && Plain(i) in s.sems
    ensures var r := AfterRun(s, es);
      Plain(i) in r.sems && r.sems[Plain(i)].value == s.sems[Plain(i)].value + Given(s, es, i) - Taken(s, es, i)
    decreases |es|
  {
    hide Inv, CallerOk, Safe, Apply, Takes, Gives;
    if es != [] {
      StepKeeps(s, es[0]);
      ValueStep(s, es[0], i);
      ValueOverRuns(Apply(s, es[0]), es[1..], i);
    }
  }

  /** sema_down returns at once exactly when the value is positive; otherwise its caller is the last of
      the waiters and off the processor. */
  lemma DownAtOnce(s: State, i: nat)
    requires Inv(s) && CallerOk(s, CallDown(i)) && Safe(s, CallDown(i))
    ensures Plain(i) in s.sems && Plain(i) in Apply(s, CallDown(i)).sems
    ensures Takes(s, CallDown(i), i) == (s.sems[Plain(i)].value > 0)
    ensures var r, t, m := Apply(s, CallDown(i)), s.sched.current, s.sems[Plain(i)];
      if m.value > 0 then r.sched == s.sched && r.sems[Plain(i)].waiters == m.waiters
      else r.sems[Plain(i)].waiters == m.waiters + [t] && Blk(r.sched, t) && r.sched.current != t
  {
    hide Inv, Block;
    CallerSleeps(s);
  }

  /** A thread that blocks is off the processor. */
  lemma CallerSleeps(s: State)
    requires Inv(s) && s.sched.current in s.pc && s.pc[s.sched.current] == Free
    ensures s.sched.current in s.sched.status
    ensures Blk(Block(s.sched), s.sched.current) && Block(s.sched).current != s.sched.current
  {
    hide Inv;
    NotIdleCaller(s);
  }

  lemma NotIdleCaller(s: State)
    requires Inv(s) && s.sched.current in s.pc && s.pc[s.sched.current] == Free
    ensures Valid(s.sched) && s.sched.current != IDLE
  {
    hide Core, Locks, Conds;
  }

  /** sema_up puts the thread that has waited longest at the back of the ready list. */
  lemma UpWakesFirst(s: State, e: Event, i: nat)
    requires CallerOk(s, e) && Safe(s, e) && (e == IntrUp(i) || e == CallUp(i))
    ensures var r, w := Apply(s, e), s.sems[Plain(i)].waiters;
      && r.sched.ready == (if w == [] then s.sched.ready else s.sched.ready + [w[0]])
      && r.sems[Plain(i)].waiters == (if w == [] then [] else w[1..]) && r.sched.current == s.sched.current
  {
  }

  // ---- lock_acquire, lock_try_acquire and lock_release ----

  /** Where a thread is inside lock_acquire. */
  predicate InAcquire(p: Pc, l: LockId) {
    (p.Down? && p.goal == ForLock(l)) || p == SetHolder(l)
  }

  lemma AcquireGoesOn(s: State, e: Event, t: Tid, l: LockId)
    requires Inv(s) && CallerOk(s, e) && Safe(s, e) && t in s.pc && InAcquire(s.pc[t], l)
    ensures var r := Apply(s, e); t in r.pc && (InAcquire(r.pc[t], l) || (r.pc[t] == Free && Holds(r.holder, t, l)))
  {
    hide Inv, Resume, SafeContinue, Tick, Yield, Exit, Init, UpSched, UpSems, TryDownSems, DownSems, DownSched;
    WaiterNotStarting(s, t);
    if e == Continue {
      AcquireGoesOnAtContinue(s, s.pc[s.sched.current], t, l);
    }
  }

  lemma AcquireGoesOnAtContinue(s: State, pc: Pc, t: Tid, l: LockId)
    requires Inv(s) && s.sched.current in s.pc && pc == s.pc[s.sched.current] && SafeContinue(s, pc)
    requires s.sched.current in s.sched.status && t in s.pc && InAcquire(s.pc[t], l)
    ensures var r := Resume(s, pc);
      t in r.pc && (InAcquire(r.pc[t], l) || (r.pc[t] == Free && Holds(r.holder, t, l)))
  {
    hide Inv, Block, UpSems, DownSems, DownSched;
    WaiterNotStarting(s, t);
  }

  lemma AcquireBegins(s: State, l: LockId)
    requires CallerOk(s, CallAcquire(l)) && Safe(s, CallAcquire(l))
    ensures var r, t := Apply(s, CallAcquire(l)), s.sched.current; t in r.pc && InAcquire(r.pc[t], l)
  {
    hide UpSems, DownSems, DownSched;
  }

  lemma {:induction false} AcquireEnds(s: State, es: seq<Event>, t: Tid, l: LockId) returns (q: nat)
    requires Inv(s) && Allowed(s, es) && t in s.pc && InAcquire(s.pc[t], l)
    requires t in AfterRun(s, es).pc && AfterRun(s, es).pc[t] == Free
    ensures q <= |es| && Allowed(s, es[..q])
    ensures var r := AfterRun(s, es[..q]); t in r.pc && r.pc[t] == Free && Holds(r.holder, t, l)
    decreases |es|
  {
    hide Inv, CallerOk, Safe, Apply, Holds;
    var e, rest := es[0], es[1..];
    StepKeeps(s, e);
    AcquireGoesOn(s, e, t, l);
    var r := Apply(s, e);
    if InAcquire(r.pc[t], l) {
      var k := AcquireEnds(r, rest, t, l);
      q := k + 1;
      assert es[..q][1..] == rest[..k];
    } else {
      q := 1;
      assert es[..1] == [e];
    }
  }

  /** lock_acquire returns holding the lock: in any run that begins with the call and at whose end its
      caller is out of it, some step takes it out, and it is the holder then. */
  lemma AcquireReturnsHolding(s: State, es: seq<Event>, l: LockId) returns (q: nat)
    requires Inv(s) && es != [] && es[0] == CallAcquire(l) && Allowed(s, es)
    requires var r := AfterRun(s, es); s.sched.current in r.pc && r.pc[s.sched.current] == Free
    ensures 0 < q <= |es| && Allowed(s, es[..q])
    ensures var r, t := AfterRun(s, es[..q]), s.sched.current; t in r.pc && r.pc[t] == Free && Holds(r.holder, t, l)
  {
    hide Inv, CallerOk, Safe, Apply, Holds, InAcquire;
    StepKeeps(s, es[0]);
    AcquireBegins(s, l);
    var k := AcquireEnds(Apply(s, es[0]), es[1..], s.sched.current, l);
    q := k + 1;
    assert es[..q][1..] == es[1..][..k];
  }

  /** lock_try_acquire goes on to take the lock exactly if no thread has it, and otherwise has returned
      with nothing changed. */
  lemma TryAcquireTakes(s: State, l: LockId)
    requires Inv(s) && CallerOk(s, CallTryAcquire(l)) && Safe(s, CallTryAcquire(l))
    ensures var r, t := Apply(s, CallTryAcquire(l)), s.sched.current;
      && l in s.inside && l in r.inside
      && (if s.inside[l] == {} then t in r.pc && InAcquire(r.pc[t], l) && r.inside[l] == {t} else r == s)
  {
    hide Inv, Apply, Safe, CallerOk;
    TryIs(s, l);
    LockHasOne(s, l);
  }

  lemma TryIs(s: State, l: LockId)
    requires Inv(s) && CallerOk(s, CallTryAcquire(l)) && Safe(s, CallTryAcquire(l))
    ensures l in s.holder && DownSafe(s, ForLock(l)) && Apply(s, CallTryAcquire(l)) == TryAcquire(s, l)
  {
    hide Inv;
  }

  lemma LockHasOne(s: State, l: LockId)
    requires Inv(s) && l in s.holder
    ensures l in s.inside && OfLock(l) in s.sems && s.sems[OfLock(l)].value + |s.inside[l]| == 1
  {
    hide Valid, Core, Known, Conds, PlaceOk;
    assert LockOk(s.pc, s.sems[OfLock(l)].value, s.holder[l], s.inside[l], l);
  }

  lemma ReleaseStep(s: State, e: Event, t: Tid, l: LockId)
    requires Inv(s) && CallerOk(s, e) && Safe(s, e) && t in s.pc && s.pc[t] == Releasing(l, None) && l in s.inside
    ensures var r := Apply(s, e);
      t in r.pc && l in r.inside && (r.pc[t] == Releasing(l, None) || (r.pc[t] == Free && t !in r.inside[l]))
  {
    hide Inv, Resume, SafeContinue, Tick, Yield, Exit, Init, UpSched, UpSems, TryDownSems, DownSems, DownSched;
    WaiterNotStarting(s, t);
    if e == Continue {
      ReleaseContinue(s, s.pc[s.sched.current], t, l);
    }
  }

  lemma ReleaseContinue(s: State, pc: Pc, t: Tid, l: LockId)
    requires Inv(s) && s.sched.current in s.pc && pc == s.pc[s.sched.current] && SafeContinue(s, pc)
    requires s.sched.current in s.sched.status && t in s.pc && s.pc[t] == Releasing(l, None) && l in s.inside
    ensures var r := Resume(s, pc);
      t in r.pc && l in r.inside && (r.pc[t] == Releasing(l, None) || (r.pc[t] == Free && t !in r.inside[l]))
  {
    hide Inv, Block, UpSems, DownSems, DownSched;
    WaiterNotStarting(s, t);
  }

  lemma {:induction false} ReleaseEnds(s: State, es: seq<Event>, t: Tid, l: LockId) returns (q: nat)
    requires Inv(s) && Allowed(s, es) && t in s.pc && s.pc[t] == Releasing(l, None) && l in s.inside
    requires t in AfterRun(s, es).pc && AfterRun(s, es).pc[t] == Free
    ensures q <= |es| && Allowed(s, es[..q])
    ensures var r := AfterRun(s, es[..q]); t in r.pc && r.pc[t] == Free && l in r.inside && t !in r.inside[l]
    decreases |es|
  {
    hide Inv, CallerOk, Safe, Apply;
    var e, rest := es[0], es[1..];
    StepKeeps(s, e);
    ReleaseStep(s, e, t, l);
    var r := Apply(s, e);
    if r.pc[t] == Free {
      q := 1;
      assert es[..1] == [e];
    } else {
      var k := ReleaseEnds(r, rest, t, l);
      q := k + 1;
      assert es[..q][1..] == rest[..k];
    }
  }

  lemma ReleaseBegins(s: State, l: LockId)
    requires Inv(s) && CallerOk(s, CallRelease(l)) && Safe(s, CallRelease(l))
    ensures var r, t := Apply(s, CallRelease(l)), s.sched.current;
      t in r.pc && r.pc[t] == Releasing(l, None) && l in r.inside
  {
    hide Valid, Core, Known, Conds, LockOk, PlaceOk;
  }

  /** lock_release returns with its caller outside the lock: some step of the call was the up of the
      lock's semaphore. */
  lemma ReleaseLetsGo(s: State, es: seq<Event>, l: LockId) returns (q: nat)
    requires Inv(s) && es != [] && es[0] == CallRelease(l) && Allowed(s, es)
    requires var r := AfterRun(s, es); s.sched.current in r.pc && r.pc[s.sched.current] == Free
    ensures 0 < q <= |es| && Allowed(s, es[..q])
    ensures var r, t := AfterRun(s, es[..q]), s.sched.current;
      t in r.pc && r.pc[t] == Free && l in r.inside && t !in r.inside[l]
  {
    hide Inv, CallerOk, Safe, Apply;
    StepKeeps(s, es[0]);
    ReleaseBegins(s, l);
    var k := ReleaseEnds(Apply(s, es[0]), es[1..], s.sched.current, l);
    q := k + 1;
    assert es[..q][1..] == es[1..][..k];
  }

  // ---- cond_wait ----

  lemma WaitBegins(s: State, c: Cond)
    requires CallerOk(s, CallWait(c)) && Safe(s, CallWait(c))
    ensures var r, t := Apply(s, CallWait(c)), s.sched.current;
      && t in r.pc && InWait(r.pc[t], c) && Unsignalled(r, t, c)
      && c in r.conds && r.conds[c] == s.conds[c] + [t]
  {
  }

  /** cond_wait returns only after it was signalled, and holding the lock: the call joins the end of
      the list, a later step of the run is the sema_up of a cond_signal or cond_broadcast that took it
      off the list, and the step out of the call leaves its caller as the lock's holder. */
  lemma WaitWaits(s: State, es: seq<Event>, c: Cond) returns (p: nat, q: nat)
    requires Inv(s) && es != [] && es[0] == CallWait(c) && Allowed(s, es)
    requires var r := AfterRun(s, es); s.sched.current in r.pc && r.pc[s.sched.current] == Free
    ensures 0 < p < q <= |es| && Allowed(s, es[..p]) && Allowed(s, es[..q])
    ensures SignalsTo(AfterRun(s, es[..p]), es[p], s.sched.current)
    ensures var r, t := AfterRun(s, es[..q]), s.sched.current;
      t in r.pc && r.pc[t] == Free && Holds(r.holder, t, c.lock)
  {
    hide Inv, CallerOk, Safe, Apply, Holds, InWait, Unsignalled, SignalsTo;
    StepKeeps(s, es[0]);
    WaitBegins(s, c);
    var s1, rest, t := Apply(s, es[0]), es[1..], s.sched.current;
    var j := WaitReturnsHolding(s1, rest, t, c);
    var k := ReturnNeedsSignal(s1, rest[..j], t, c);
    assert rest[..j][..k] == rest[..k];
    p, q := k + 1, j + 1;
    assert es[..q][1..] == rest[..j];
    assert es[..p][1..] == rest[..k];
  }

  /** While it waits, to be signalled or for the lock, it is outside the lock. */
  lemma WaiterIsOutside(s: State, t: Tid, c: Cond)
    requires Inv(s) && t in s.pc && s.pc[t].Down? && (s.pc[t].goal == ForSignal(c) || s.pc[t].goal == ForRelock(c))
    ensures c.lock in s.inside && t !in s.inside[c.lock] && !Holds(s.holder, t, c.lock)
  {
    hide Valid, Core, Known, Conds, InWindow;
    assert PlaceOk(s.sems, s.holder, s.inside, t, s.pc[t]);
    assert LockOk(s.pc, s.sems[OfLock(c.lock)].value, s.holder[c.lock], s.inside[c.lock], c.lock);
  }

  // ---- thread_create ----

  /** At the back of the ready list, and in no call. */
  predicate Runnable(s: State, u: Tid) {
    s.sched.ready != [] && s.sched.ready[|s.sched.ready| - 1] == u && u in s.pc && s.pc[u] == Free
  }

  lemma {:induction false} CreateEnds(s: State, es: seq<Event>, t: Tid, u: Tid) returns (q: nat)
    requires Inv(s) && Allowed(s, es) && t in s.pc && s.pc[t] == Creating(u)
    requires t in AfterRun(s, es).pc && AfterRun(s, es).pc[t] == Free
    ensures 0 < q <= |es| && Allowed(s, es[..q])
    ensures var r := AfterRun(s, es[..q]); t in r.pc && r.pc[t] == Free && Runnable(r, u)
    decreases |es|
  {
    hide Inv, CallerOk, Safe, Apply;
    var e, rest := es[0], es[1..];
    StepKeeps(s, e);
    CreateStep(s, e, t, u);
    var r := Apply(s, e);
    if r.pc[t] == Free {
      q := 1;
      assert es[..1] == [e];
    } else {
      var k := CreateEnds(r, rest, t, u);
      q := k + 1;
      assert es[..q][1..] == rest[..k];
    }
  }

  lemma CreateStep(s: State, e: Event, t: Tid, u: Tid)
    requires Inv(s) && CallerOk(s, e) && Safe(s, e) && t in s.pc && s.pc[t] == Creating(u)
    ensures var r := Apply(s, e); t in r.pc && (r.pc[t] == Creating(u) || (r.pc[t] == Free && Runnable(r, u)))
  {
    hide Inv, Resume, SafeContinue, Tick, Yield, Exit, Init, UpSched, UpSems, TryDownSems, DownSems, DownSched;
    WaiterNotStarting(s, t);
    if e == Continue {
      CreateContinue(s, s.pc[s.sched.current], t, u);
    }
  }

  lemma CreateContinue(s: State, pc: Pc, t: Tid, u: Tid)
    requires Inv(s) && s.sched.current in s.pc && pc == s.pc[s.sched.current] && SafeContinue(s, pc)
    requires s.sched.current in s.sched.status && t in s.pc && s.pc[t] == Creating(u)
    ensures var r := Resume(s, pc); t in r.pc && (r.pc[t] == Creating(u) || (r.pc[t] == Free && Runnable(r, u)))
  {
    hide Inv, Block, UpSems, DownSems, DownSched;
    WaiterNotStarting(s, t);
  }

  lemma CreateBegins(s: State, u: Tid)
    requires CallerOk(s, CallCreate(u)) && Safe(s, CallCreate(u))
    ensures var r, t := Apply(s, CallCreate(u)), s.sched.current; t in r.pc && r.pc[t] == Creating(u)
  {
  }

  /** thread_create returns with the new thread ready to run, behind all others. */
  lemma CreateStarts(s: State, es: seq<Event>, u: Tid) returns (q: nat)
    requires Inv(s) && es != [] && es[0] == CallCreate(u) && Allowed(s, es)
    requires var r := AfterRun(s, es); s.sched.current in r.pc && r.pc[s.sched.current] == Free
    ensures 0 < q <= |es| && Allowed(s, es[..q])
    ensures var r, t := AfterRun(s, es[..q]), s.sched.current; t in r.pc && r.pc[t] == Free && Runnable(r, u)
  {
    hide Inv, CallerOk, Safe, Apply, Runnable;
    StepKeeps(s, es[0]);
    CreateBegins(s, u);
    var k := CreateEnds(Apply(s, es[0]), es[1..], s.sched.current, u);
    q := k + 1;
    assert es[..q][1..] == es[1..][..k];
  }

  // ---- thread_yield, thread_exit and the initialisers ----

  lemma CallerRuns(s: State)
    requires Inv(s) && s.sched.current in s.pc && s.pc[s.sched.current] == Free
    ensures Valid(s.sched) && s.sched.current != IDLE && s.sched.current in s.sched.status
  {
    hide Core, Locks, Conds;
  }

  /** thread_yield sends its caller behind all that are ready, and the front of that line runs. */
  lemma YieldGivesWay(s: State)
    requires Inv(s) && CallerOk(s, CallYield) && Safe(s, CallYield)
    ensures var r, line := Apply(s, CallYield), s.sched.ready + [s.sched.current];
      r.sched.current == line[0] && r.sched.ready == line[1..] && r.pc == s.pc && r.sems == s.sems
  {
    hide Inv;
    CallerRuns(s);
    YieldRotates(s.sched, OpYield);
  }

  /** thread_exit leaves its caller off the processor, off the ready list and dead. */
  lemma ExitLeaves(s: State)
    requires Inv(s) && CallerOk(s, CallExit) && Safe(s, CallExit)
    ensures var r, t := Apply(s, CallExit), s.sched.current;
      && r.sched.current != t && t !in r.sched.ready && t !in r.sched.all && Dead(r.sched, t)
      && t in r.pc && r.pc[t] == Gone && (t != MAIN ==> t in r.sched.freed)
  {
    hide Inv;
    CallerRuns(s);
    ExitValid(s.sched);
  }

  /** The initialisers: a semaphore has its value, a lock and a condition are nobody's. */
  lemma Initialised(s: State, i: nat, value: nat, l: LockId, c: Cond)
    ensures Safe(s, CallSemaInit(i, value)) ==>
      var r := Apply(s, CallSemaInit(i, value));
      Plain(i) in r.sems && r.sems[Plain(i)].value == value && r.sems[Plain(i)].waiters == []
    ensures Safe(s, CallLockInit(l)) ==>
      var r := Apply(s, CallLockInit(l));
      && l in r.holder && r.holder[l] == None && l in r.inside && r.inside[l] == {}
      && OfLock(l) in r.sems && r.sems[OfLock(l)].value == 1 && r.sems[OfLock(l)].waiters == []
    ensures Safe(s, CallCondInit(c)) ==>
      var r := Apply(s, CallCondInit(c)); c in r.conds && r.conds[c] == []
  {
  }
}
