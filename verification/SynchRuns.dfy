/** Every run of the step relation: the invariant, and what it means for semaphores, locks and
    condition variables. */
module SynchRuns {
  import opened Options
  import opened Sequences
  import opened Scheduler
  import opened Synch
  import opened SynchWakeups
  import opened SynchSafety
  import opened SynchSteps

  lemma SchedPart(s: State, e: Event)
    requires Inv(s) && Safe(s, e)
    ensures Valid(Apply(s, e).sched) && Effect(s.sched, SchedOp(s, e), Apply(s, e).sched)
  {
    hide *;
    assert Valid(s.sched) by { InvValid(s); }
    ProjectsToScheduler(s, e);
    DoValid(s.sched, SchedOp(s, e));
    DoEffect(s.sched, SchedOp(s, e));
  }

  lemma InvValid(s: State)
    requires Inv(s)
    ensures Valid(s.sched)
  {
  }

  // ---- threads and wait lists ----

  /** The idle thread blocks only in its loop. */
  lemma IdleBlocked(sched: Sched, pc: map<Tid, Pc>, sems: map<SemId, Sema>)
    requires Known(sched, pc) && Core(sched, pc, sems)
    ensures Blk(sched, IDLE) ==> OffList(pc, IDLE)
  {
    hide Counts, Wakeups;
    assert Blk(sched, IDLE) ==> OffList(pc, IDLE) || OnList(pc, sems, IDLE);
  }

  lemma QuietBlocks(sched: Sched, op: Op, after: Sched, pc: map<Tid, Pc>, q: Pc)
    requires Effect(sched, op, after) && !Blk(sched, sched.current) && sched.current in pc
    requires Blk(sched, IDLE) ==> OffList(pc, IDLE)
    requires op.OpTick? || op.OpYield? || op.OpStoreIdle? || op.OpNone? || op.OpExit? || (op.OpBlock? && q.IdleLoop?)
    ensures var pc' := pc[sched.current := q];
      && (forall u | Blk(after, u) :: OffList(pc', u) || (Blk(sched, u) && !OffList(pc, u)))
      && (forall u | Blk(sched, u) :: OffList(pc, u) || Blk(after, u))
  {
  }

  /** Steps that touch no semaphore and move only the running thread. */
  lemma QuietStep(sched: Sched, op: Op, after: Sched, pc: map<Tid, Pc>, sems: map<SemId, Sema>, q: Pc)
    requires Known(sched, pc) && Core(sched, pc, sems) && Effect(sched, op, after)
    requires !Blk(sched, sched.current) && sched.current in pc
    requires op.OpTick? || op.OpYield? || op.OpStoreIdle? || op.OpNone? || op.OpExit? || (op.OpBlock? && q.IdleLoop?)
    requires q == pc[sched.current] || (InterruptsOn(q) && InterruptsOn(pc[sched.current]))
    ensures Core(after, pc[sched.current := q], sems)
  {
    hide Core, Known, Effect, Blk;
    var pc' := pc[sched.current := q];
    IdleBlocked(sched, pc, sems);
    QuietBlocks(sched, op, after, pc, q);
    assert forall u :: Asleep(pc', u) == Asleep(pc, u);
    SchedulingKeeps(sched, pc, after, pc', sems);
  }

  /** sema_up, after which the running thread is at `q`. */
  lemma UpStep(sched: Sched, pc: map<Tid, Pc>, sems: map<SemId, Sema>, id: SemId, q: Pc)
    requires Known(sched, pc) && Core(sched, pc, sems) && id in sems
    requires sems[id].waiters != [] ==> sems[id].waiters[0] in sched.status
    requires Effect(sched, UpOp(sems, id), UpSched(sched, sems, id))
    requires !Blk(sched, sched.current) && sched.current in pc && !pc[sched.current].Starting?
    requires !pc[sched.current].Gone?
    requires q == pc[sched.current] || (InterruptsOn(q) && InterruptsOn(pc[sched.current]))
    requires SamePlaceKind(pc[sched.current], q, OpNone) || q == pc[sched.current]
    ensures Core(UpSched(sched, sems, id), pc[sched.current := q], UpSems(sems, id))
    ensures Known(UpSched(sched, sems, id), pc[sched.current := q])
  {
    hide Core, Known, Effect;
    UpKnown(sched, pc, sems, id);
    UpKeeps(sched, pc, sems, id);
    var after := UpSched(sched, sems, id);
    NoEffect(after);
    QuietStep(after, OpNone, after, pc, UpSems(sems, id), q);
    if q != pc[sched.current] {
      KnownStep(after, OpNone, after, pc, sched.current, q);
    } else {
      assert pc[sched.current := q] == pc;
    }
  }

  lemma UpKnown(sched: Sched, pc: map<Tid, Pc>, sems: map<SemId, Sema>, id: SemId)
    requires Known(sched, pc) && Core(sched, pc, sems) && id in sems
    requires sems[id].waiters != [] ==> sems[id].waiters[0] in sched.status
    requires Effect(sched, UpOp(sems, id), UpSched(sched, sems, id))
    ensures Known(UpSched(sched, sems, id), pc)
  {
    hide Known, Effect, Wakeups, Counts;
    if sems[id].waiters != [] {
      var w := sems[id].waiters[0];
      assert w in sems[id].waiters;
      assert Asleep(pc, w) == Some(id);
      KnownUnblock(sched, w, UpSched(sched, sems, id), pc);
    }
  }

  /** A turn of sema_down's loop that finds 0. */
  lemma SleepStep(sched: Sched, after: Sched, pc: map<Tid, Pc>, sems: map<SemId, Sema>, g: Goal)
    requires Known(sched, pc) && Core(sched, pc, sems) && Effect(sched, OpBlock, after)
    requires !Blk(sched, sched.current) && sched.current in pc
    requires pc[sched.current] == Free || (pc[sched.current].Down? && pc[sched.current].goal == g)
    requires Target(sched.current, g) in sems && sems[Target(sched.current, g)].value == 0
    ensures Core(after, pc[sched.current := Down(g, true)], DownSems(sems, Target(sched.current, g), sched.current))
    ensures Known(after, pc[sched.current := Down(g, true)])
  {
    hide Core, Known;
    IdleBlocked(sched, pc, sems);
    KnownStep(sched, OpBlock, after, pc, sched.current, Down(g, true));
    NotIdle(sched, pc, sched.current);
    SleepKeeps(sched, after, pc, sems, Target(sched.current, g), g, sched.current);
  }

  /** A down that succeeds, after which the thread is at `q`. */
  lemma TakeStep(sched: Sched, pc: map<Tid, Pc>, sems: map<SemId, Sema>, id: SemId, q: Pc)
    requires Known(sched, pc) && Core(sched, pc, sems)
    requires !Blk(sched, sched.current) && sched.current in pc && !pc[sched.current].Starting?
    requires !pc[sched.current].Gone?
    requires id in sems && sems[id].value > 0
    requires InterruptsOn(pc[sched.current]) || Asleep(pc, sched.current) == Some(id)
    requires InterruptsOn(q) && SamePlaceKind(pc[sched.current], q, OpNone)
    ensures Core(sched, pc[sched.current := q], TryDownSems(sems, id)) && Known(sched, pc[sched.current := q])
  {
    hide Core;
    DownKeeps(sched, pc, sems, id, sched.current, q);
    NoEffect(sched);
    KnownStep(sched, OpNone, sched, pc, sched.current, q);
  }

  lemma NotIdle(sched: Sched, pc: map<Tid, Pc>, t: Tid)
    requires Known(sched, pc) && t in pc && !IdlePc(pc[t])
    ensures t != IDLE
  {
  }

  lemma Unknown(sched: Sched, pc: map<Tid, Pc>, u: Tid)
    requires Known(sched, pc) && u !in pc
    ensures u !in sched.status
  {
  }

  lemma ChildStarting(sched: Sched, pc: map<Tid, Pc>, t: Tid)
    requires Known(sched, pc) && t in pc && pc[t].Creating?
    ensures pc[t].child in pc && pc[pc[t].child].Starting?
  {
  }

  /** thread_create, before and after its thread_unblock. */
  lemma CreateStep(sched: Sched, after: Sched, pc: map<Tid, Pc>, sems: map<SemId, Sema>, u: Tid)
    requires Known(sched, pc) && Core(sched, pc, sems) && Effect(sched, OpInit(u), after)
    requires !Blk(sched, sched.current) && sched.current in pc && pc[sched.current] == Free && u !in pc
    ensures Core(after, pc[u := Starting][sched.current := Creating(u)], sems)
  {
    hide Core, Known;
    var pc' := pc[u := Starting][sched.current := Creating(u)];
    IdleBlocked(sched, pc, sems);
    assert forall t :: Asleep(pc', t) == Asleep(pc, t);
    Unknown(sched, pc, u);
    SchedulingKeeps(sched, pc, after, pc', sems);
  }

  lemma LaunchStep(sched: Sched, after: Sched, pc: map<Tid, Pc>, sems: map<SemId, Sema>, u: Tid)
    requires Known(sched, pc) && Core(sched, pc, sems) && Effect(sched, OpUnblock(u), after)
    requires !Blk(sched, sched.current) && sched.current in pc && pc[sched.current] == Creating(u)
    ensures Core(after, pc[u := Free][sched.current := Free], sems)
  {
    hide Core, Known;
    var pc' := pc[u := Free][sched.current := Free];
    IdleBlocked(sched, pc, sems);
    ChildStarting(sched, pc, sched.current);
    assert forall t :: Asleep(pc', t) == Asleep(pc, t);
    SchedulingKeeps(sched, pc, after, pc', sems);
  }

  /** sema_init on a semaphore that no one sleeps on. */
  lemma InitStep(sched: Sched, pc: map<Tid, Pc>, sems: map<SemId, Sema>, id: SemId, value: nat)
    requires Core(sched, pc, sems)
    requires id !in sems || (exists t :: id == OfWaiter(t) && !Blk(sched, t))
    ensures Core(sched, pc, sems[id := NewSema(value)])
  {
    forall t | Blk(sched, t) ensures Asleep(pc, t) != Some(id) {
      assert OffList(pc, t) || OnList(pc, sems, t);
    }
    InitKeeps(sched, pc, sems, id, value);
  }

  lemma SchedulingStep(s: State, op: Op, after: Sched)
    requires Known(s.sched, s.pc) && Core(s.sched, s.pc, s.sems) && Effect(s.sched, op, after)
    requires !Blk(s.sched, s.sched.current) && s.sched.current in s.pc && op in {OpTick, OpYield}
    ensures Known(after, s.pc) && Core(after, s.pc, s.sems)
  {
    hide Core;
    assert s.pc[s.sched.current := s.pc[s.sched.current]] == s.pc;
    QuietStep(s.sched, op, after, s.pc, s.sems, s.pc[s.sched.current]);
  }

  lemma PlaceStep(s: State, q: Pc)
    requires Known(s.sched, s.pc) && Core(s.sched, s.pc, s.sems)
    requires !Blk(s.sched, s.sched.current) && s.sched.current in s.pc && !s.pc[s.sched.current].Starting?
    requires !s.pc[s.sched.current].Gone?
    requires SamePlaceKind(s.pc[s.sched.current], q, OpNone)
    requires InterruptsOn(q) && InterruptsOn(s.pc[s.sched.current])
    ensures Known(s.sched, s.pc[s.sched.current := q]) && Core(s.sched, s.pc[s.sched.current := q], s.sems)
  {
    hide Core, Known, Effect;
    NoEffect(s.sched);
    QuietStep(s.sched, OpNone, s.sched, s.pc, s.sems, q);
    KnownStep(s.sched, OpNone, s.sched, s.pc, s.sched.current, q);
  }

  lemma PlainUpThreads(s: State, i: nat)
    requires Inv(s) && UpSafe(s, Plain(i)) && s.sched.current in s.pc && InterruptsOn(s.pc[s.sched.current])
    ensures ThreadsOk(Up(s, Plain(i)))
  {
    hide Valid, Known, Core, Effect, Blk;
    CurrentIsUp(s);
    UpEffect(s, Plain(i));
    assert s.pc[s.sched.current := s.pc[s.sched.current]] == s.pc;
    UpStep(s.sched, s.pc, s.sems, Plain(i), s.pc[s.sched.current]);
  }

  lemma UpEffect(s: State, id: SemId)
    requires Inv(s) && UpSafe(s, id)
    ensures Effect(s.sched, UpOp(s.sems, id), Up(s, id).sched)
  {
    hide Valid, Known, Core, Effect;
    CurrentIsUp(s);
    UpProjects(s, id);
    DoEffect(s.sched, UpOp(s.sems, id));
  }

  lemma PlainTryDownThreads(s: State, i: nat)
    requires Inv(s) && Plain(i) in s.sems && s.sched.current in s.pc && InterruptsOn(s.pc[s.sched.current])
    ensures Known(s.sched, s.pc) && Core(s.sched, s.pc, TryDownSems(s.sems, Plain(i)))
  {
    hide Valid, Known, Core, Blk;
    CurrentIsUp(s);
    if s.sems[Plain(i)].value > 0 {
      assert s.pc[s.sched.current := s.pc[s.sched.current]] == s.pc;
      DownKeeps(s.sched, s.pc, s.sems, Plain(i), s.sched.current, s.pc[s.sched.current]);
    }
  }

  lemma DownTurnThreads(s: State, g: Goal)
    requires Inv(s) && DownSafe(s, g) && s.sched.current in s.sched.status && s.sched.current in s.pc
    requires s.pc[s.sched.current] == Free || (s.pc[s.sched.current].Down? && s.pc[s.sched.current].goal == g)
    ensures ThreadsOk(DownTurn(s, g))
  {
    hide Valid, Known, Core, Blk, Locks, Conds;
    CurrentIsUp(s);
    var id := Target(s.sched.current, g);
    if s.sems[id].value == 0 {
      DownTurnProjects(s, g);
      DoEffect(s.sched, OpBlock);
      hide Effect;
      SleepStep(s.sched, Block(s.sched), s.pc, s.sems, g);
    } else {
      TakeStep(s.sched, s.pc, s.sems, id, After(g));
    }
  }

  lemma TryAcquireThreads(s: State, l: LockId)
    requires Inv(s) && DownSafe(s, ForLock(l)) && s.sched.current in s.pc && s.pc[s.sched.current] == Free
    ensures ThreadsOk(TryAcquire(s, l))
  {
    hide Valid, Known, Core, Blk, Locks, Conds;
    CurrentIsUp(s);
    if s.sems[OfLock(l)].value > 0 {
      TakeStep(s.sched, s.pc, s.sems, OfLock(l), SetHolder(l));
    }
  }

  lemma EnqueueThreads(s: State, c: Cond)
    requires Inv(s) && c in s.conds && s.sched.current in s.pc && s.pc[s.sched.current] == Free
    ensures ThreadsOk(Enqueue(s, c))
  {
    hide Valid, Known, Core, Blk, Locks, Conds;
    CurrentIsUp(s);
    PlaceStep(s, Enqueued(c));
    InitStep(s.sched, s.pc[s.sched.current := Enqueued(c)], s.sems, OfWaiter(s.sched.current), 0);
  }

  lemma PopThreads(s: State, c: Cond, all: bool)
    requires Inv(s) && c in s.conds && s.sched.current in s.pc
    requires s.pc[s.sched.current] == Free || s.pc[s.sched.current] == Waking(c)
    ensures ThreadsOk(PopWaiter(s, c, all))
  {
    hide Valid, Known, Core, Blk, Locks, Conds;
    CurrentIsUp(s);
    PlaceStep(s, if s.conds[c] == [] then Free else Popping(s.conds[c][0], c, all));
  }

  ghost predicate ThreadsOk(s: State) {
    Known(s.sched, s.pc) && Core(s.sched, s.pc, s.sems)
  }

  lemma ThreadsAtCalls(s: State, e: Event)
    requires Inv(s) && Safe(s, e) && e != Continue
    ensures ThreadsOk(Apply(s, e))
  {
    hide Valid, Known, Core, Locks, Conds, Effect, Blk;
    SchedPart(s, e);
    CurrentIsUp(s);
    var t, after := s.sched.current, Apply(s, e).sched;
    match e {
      case TimerTick => SchedulingStep(s, SchedOp(s, e), after);
      case CallYield => SchedulingStep(s, SchedOp(s, e), after);
      case CallExit =>
        KnownExit(s.sched, after, s.pc);
        QuietStep(s.sched, OpExit, after, s.pc, s.sems, Gone);
      case CallCreate(u) =>
        KnownCreate(s.sched, u, after, s.pc);
        CreateStep(s.sched, after, s.pc, s.sems, u);
      case IntrUp(i) => PlainUpThreads(s, i);
      case CallUp(i) => PlainUpThreads(s, i);
      case IntrTryDown(i) => PlainTryDownThreads(s, i);
      case CallTryDown(i) => PlainTryDownThreads(s, i);
      case CallSemaInit(i, value) => InitStep(s.sched, s.pc, s.sems, Plain(i), value);
      case CallLockInit(l) => InitStep(s.sched, s.pc, s.sems, OfLock(l), 1);
      case CallCondInit(c) =>
      case CallDown(i) => DownTurnThreads(s, ForSema(i));
      case CallAcquire(l) => DownTurnThreads(s, ForLock(l));
      case CallTryAcquire(l) => TryAcquireThreads(s, l);
      case CallRelease(l) => PlaceStep(s, Releasing(l, None));
      case CallWait(c) => EnqueueThreads(s, c);
      case CallSignal(c, all) => PopThreads(s, c, all);
    }
  }

  lemma ThreadsAtContinue(s: State, pc: Pc)
    requires Inv(s) && s.sched.current in s.pc && s.pc[s.sched.current] == pc
    requires s.sched.current in s.sched.status && SafeContinue(s, pc)
    requires Effect(s.sched, ContinueOp(s, pc), Resume(s, pc).sched)
    ensures ThreadsOk(Resume(s, pc))
  {
    hide Valid, Known, Core, Locks, Conds, Effect, Blk, UpSems, DownTurn, PopWaiter;
    CurrentIsUp(s);
    var t, after := s.sched.current, Resume(s, pc).sched;
    match pc {
      case Creating(u) =>
        KnownLaunch(s.sched, u, after, s.pc);
        LaunchStep(s.sched, after, s.pc, s.sems, u);
      case Down(g, asleep) => DownTurnThreads(s, g);
      case SetHolder(l) => PlaceStep(s, Free);
      case Releasing(l, back) =>
        UpThreads(s, OfLock(l), if back.Some? then Down(ForSignal(back.value), false) else Free);
      case Enqueued(c) => PlaceStep(s, Releasing(c.lock, Some(c)));
      case Popping(u, c, all) =>
        UpThreads(s, OfWaiter(u), if all then Waking(c) else Free);
      case Waking(c) => PopThreads(s, c, true);
      case Boot =>
        KnownStep(s.sched, OpStoreIdle, after, s.pc, t, BootUp);
        QuietStep(s.sched, OpStoreIdle, after, s.pc, s.sems, BootUp);
      case BootUp => UpThreads(s, Plain(0), IdleLoop);
      case IdleLoop => IdleSleeps(s, after);
    }
  }

  lemma IdleSleeps(s: State, after: Sched)
    requires Known(s.sched, s.pc) && Core(s.sched, s.pc, s.sems) && Effect(s.sched, OpBlock, after)
    requires !Blk(s.sched, s.sched.current) && s.sched.current in s.pc && s.pc[s.sched.current] == IdleLoop
    ensures Known(after, s.pc) && Core(after, s.pc, s.sems)
  {
    hide Core, Known, Effect, Blk;
    assert s.pc[s.sched.current := IdleLoop] == s.pc;
    QuietStep(s.sched, OpBlock, after, s.pc, s.sems, IdleLoop);
    KnownStep(s.sched, OpBlock, after, s.pc, s.sched.current, IdleLoop);
  }

  lemma UpThreads(s: State, id: SemId, q: Pc)
    requires Inv(s) && UpSafe(s, id) && s.sched.current in s.pc
    requires InterruptsOn(s.pc[s.sched.current]) && InterruptsOn(q) && SamePlaceKind(s.pc[s.sched.current], q, OpNone)
    ensures var r := Up(s, id);
      Known(r.sched, s.pc[s.sched.current := q]) && Core(r.sched, s.pc[s.sched.current := q], r.sems)
  {
    hide Valid, Known, Core, Effect, Blk, Locks, Conds;
    CurrentIsUp(s);
    UpEffect(s, id);
    UpStep(s.sched, s.pc, s.sems, id, q);
  }

  // ---- locks and condition variables ----

  /** The part of the state that the locks and the condition variables live in. */
  ghost predicate MonitorsOk(s: State) {
    Locks(s.pc, s.sems, s.holder, s.inside) && Conds(s.pc, s.sems, s.conds, s.sig)
  }

  lemma SamePlaceLocks(s: State, sems: map<SemId, Sema>)
    requires MonitorsOk(s) && SameLockValues(s.sems, sems) && SameWaiterValues(s.sems, sems) && s.sched.current in s.pc
    ensures Locks(s.pc, sems, s.holder, s.inside) && Conds(s.pc, sems, s.conds, s.sig)
  {
    hide Conds, LockOk;
    var t := s.sched.current;
    assert s.pc[t := s.pc[t]] == s.pc;
    PlaceSurvives(s, sems, t);
    LocksFrame(s.pc, s.sems, sems, s.holder, s.inside, t, s.pc[t]);
    CondsSems(s.pc, s.sems, sems, s.conds, s.sig);
  }

  lemma PlaceSurvives(s: State, sems: map<SemId, Sema>, t: Tid)
    requires MonitorsOk(s) && s.sems.Keys <= sems.Keys && t in s.pc
    ensures PlaceOk(sems, s.holder, s.inside, t, s.pc[t])
  {
    hide Conds, LockOk;
    assert PlaceOk(s.sems, s.holder, s.inside, t, s.pc[t]);
  }

  /** The running thread moves on, and nothing else changes for locks and conditions. */
  lemma MoveMonitors(s: State, sems: map<SemId, Sema>, q: Pc)
    requires MonitorsOk(s) && SameLockValues(s.sems, sems) && SameWaiterValues(s.sems, sems)
    requires s.sched.current in s.pc && SameWindows(s.pc, s.sched.current, q)
    requires PlaceOk(sems, s.holder, s.inside, s.sched.current, q)
    requires Awaits(s.pc, s.sched.current) == AwaitsAt(q) && Plainly(q, s.conds) && !s.pc[s.sched.current].Popping?
    ensures Locks(s.pc[s.sched.current := q], sems, s.holder, s.inside)
    ensures Conds(s.pc[s.sched.current := q], sems, s.conds, s.sig)
  {
    hide Locks, Conds, PlaceOk, SameWindows, SameLockValues, SameWaiterValues;
    LocksFrame(s.pc, s.sems, sems, s.holder, s.inside, s.sched.current, q);
    CondsFrame(s.pc, s.sems, sems, s.conds, s.sig, s.sched.current, q);
  }

  /** A thread that was not there before, or was only starting. */
  lemma CreateMonitors(s: State, u: Tid, qu: Pc, q: Pc)
    requires MonitorsOk(s) && s.sched.current in s.pc && u != s.sched.current
    requires (u !in s.pc && qu == Starting) || (u in s.pc && s.pc[u] == Starting && qu == Free)
    requires (s.pc[s.sched.current] == Free && q == Creating(u)) || (s.pc[s.sched.current] == Creating(u) && q == Free)
    ensures Locks(s.pc[u := qu][s.sched.current := q], s.sems, s.holder, s.inside)
    ensures Conds(s.pc[u := qu][s.sched.current := q], s.sems, s.conds, s.sig)
  {
    hide Locks, Conds;
    LocksFrame(s.pc, s.sems, s.sems, s.holder, s.inside, u, qu);
    CondsFrame(s.pc, s.sems, s.sems, s.conds, s.sig, u, qu);
    LocksFrame(s.pc[u := qu], s.sems, s.sems, s.holder, s.inside, s.sched.current, q);
    CondsFrame(s.pc[u := qu], s.sems, s.sems, s.conds, s.sig, s.sched.current, q);
  }

  /** A down of a lock's semaphore that succeeds. */
  lemma EnterMonitors(s: State, l: LockId)
    requires MonitorsOk(s) && s.sched.current in s.pc && l in s.holder
    requires OfLock(l) in s.sems && s.sems[OfLock(l)].value > 0
    requires Awaits(s.pc, s.sched.current) == None
    requires s.pc[s.sched.current] == Free || s.pc[s.sched.current].Down?
    ensures Locks(s.pc[s.sched.current := SetHolder(l)], TryDownSems(s.sems, OfLock(l)), s.holder,
                  s.inside[l := LockInside(s, l) + {s.sched.current}])
    ensures Conds(s.pc[s.sched.current := SetHolder(l)], TryDownSems(s.sems, OfLock(l)), s.conds, s.sig)
  {
    hide Locks, Conds;
    LockKnown(s, l);
    LocksEnter(s.pc, s.sems, s.holder, s.inside, s.sched.current, l);
    CondsFrame(s.pc, s.sems, TryDownSems(s.sems, OfLock(l)), s.conds, s.sig, s.sched.current, SetHolder(l));
  }

  function LockInside(s: State, l: LockId): set<Tid> {
    if l in s.inside then s.inside[l] else {}
  }

  lemma LockKnown(s: State, l: LockId)
    requires MonitorsOk(s)
    ensures l in s.inside <==> l in s.holder
    ensures l in s.holder <==> OfLock(l) in s.sems
  {
    hide Conds, LockOk, PlaceOk;
  }

  lemma DownTurnMonitors(s: State, g: Goal)
    requires MonitorsOk(s) && DownSafe(s, g) && s.sched.current in s.sched.status && s.sched.current in s.pc
    requires (s.pc[s.sched.current] == Free && (g.ForSema? || g.ForLock?))
             || (s.pc[s.sched.current].Down? && s.pc[s.sched.current].goal == g)
    ensures MonitorsOk(DownTurn(s, g))
  {
    hide Locks, Conds;
    var t := s.sched.current;
    var id := Target(t, g);
    if s.sems[id].value == 0 {
      GoalPlace(s, g);
      MoveMonitors(s, DownSems(s.sems, id, t), Down(g, true));
    } else {
      match g {
        case ForSema(i) => MoveMonitors(s, TryDownSems(s.sems, id), Free);
        case ForLock(l) =>
          LockKnown(s, l);
          EnterMonitors(s, l);
        case ForRelock(c) =>
          LockKnown(s, c.lock);
          EnterMonitors(s, c.lock);
        case ForSignal(c) => TakeMonitors(s, c);
      }
    }
  }

  lemma GoalPlace(s: State, g: Goal)
    requires MonitorsOk(s) && DownSafe(s, g) && s.sched.current in s.pc
    requires (s.pc[s.sched.current] == Free && (g.ForSema? || g.ForLock?))
             || (s.pc[s.sched.current].Down? && s.pc[s.sched.current].goal == g)
    ensures PlaceOk(DownSems(s.sems, Target(s.sched.current, g), s.sched.current), s.holder, s.inside, s.sched.current,
                    Down(g, true))
  {
    hide Conds, LockOk;
    assert PlaceOk(s.sems, s.holder, s.inside, s.sched.current, s.pc[s.sched.current]);
  }

  lemma TakeMonitors(s: State, c: Cond)
    requires MonitorsOk(s) && s.sched.current in s.pc
    requires s.pc[s.sched.current].Down? && s.pc[s.sched.current].goal == ForSignal(c)
    requires OfWaiter(s.sched.current) in s.sems && s.sems[OfWaiter(s.sched.current)].value > 0
    ensures var sems, pc := TryDownSems(s.sems, OfWaiter(s.sched.current)),
        s.pc[s.sched.current := Down(ForRelock(c), false)];
      Locks(pc, sems, s.holder, s.inside) && Conds(pc, sems, s.conds, s.sig)
  {
    hide Locks, Conds;
    RelockPlace(s, c);
    CondsTake(s.pc, s.sems, s.conds, s.sig, s.sched.current, c);
    LocksFrame(s.pc, s.sems, TryDownSems(s.sems, OfWaiter(s.sched.current)), s.holder, s.inside, s.sched.current,
               Down(ForRelock(c), false));
  }

  lemma RelockPlace(s: State, c: Cond)
    requires MonitorsOk(s) && s.sched.current in s.pc && OfWaiter(s.sched.current) in s.sems
    requires s.pc[s.sched.current].Down? && s.pc[s.sched.current].goal == ForSignal(c)
    ensures PlaceOk(TryDownSems(s.sems, OfWaiter(s.sched.current)), s.holder, s.inside, s.sched.current,
                    Down(ForRelock(c), false))
  {
    hide Conds, LockOk;
    assert PlaceOk(s.sems, s.holder, s.inside, s.sched.current, s.pc[s.sched.current]);
  }

  /** Clearing `holder`: lock_release, called by its holder or from cond_wait. */
  lemma ReleaseMonitors(s: State, l: LockId, back: Option<Cond>)
    requires MonitorsOk(s) && s.sched.current in s.pc && Holds(s.holder, s.sched.current, l)
    requires if back.Some? then s.pc[s.sched.current] == Enqueued(back.value) && back.value.lock == l
             else s.pc[s.sched.current] == Free
    ensures Locks(s.pc[s.sched.current := Releasing(l, back)], s.sems, s.holder[l := None], s.inside)
    ensures Conds(s.pc[s.sched.current := Releasing(l, back)], s.sems, s.conds, s.sig)
  {
    hide Locks, Conds;
    HolderInside(s, l);
    LocksHolder(s.pc, s.sems, s.holder, s.inside, s.sched.current, l, None, Releasing(l, back));
    CondsFrame(s.pc, s.sems, s.sems, s.conds, s.sig, s.sched.current, Releasing(l, back));
  }

  lemma HolderInside(s: State, l: LockId)
    requires MonitorsOk(s) && Holds(s.holder, s.sched.current, l)
    ensures l in s.inside && s.sched.current in s.inside[l]
  {
    hide Conds, PlaceOk;
    assert LockOk(s.pc, s.sems[OfLock(l)].value, s.holder[l], s.inside[l], l);
    if s.inside[l] != {} {
      var u :| u in s.inside[l];
    }
  }

  lemma EnqueueMonitors(s: State, c: Cond)
    requires MonitorsOk(s) && s.sched.current in s.pc && s.pc[s.sched.current] == Free
    requires c in s.conds && Holds(s.holder, s.sched.current, c.lock)
    ensures MonitorsOk(Enqueue(s, c))
  {
    hide Locks, Conds;
    CondsEnqueue(s.pc, s.sems, s.conds, s.sig, s.sched.current, c);
    LocksFrame(s.pc, s.sems, s.sems[OfWaiter(s.sched.current) := NewSema(0)], s.holder, s.inside, s.sched.current,
               Enqueued(c));
  }

  lemma PopMonitors(s: State, c: Cond, all: bool)
    requires MonitorsOk(s) && s.sched.current in s.pc
    requires s.pc[s.sched.current] == Free || s.pc[s.sched.current] == Waking(c)
    requires c in s.conds && Holds(s.holder, s.sched.current, c.lock)
    ensures MonitorsOk(PopWaiter(s, c, all))
  {
    hide Locks, Conds;
    if s.conds[c] == [] {
      MoveMonitors(s, s.sems, Free);
    } else {
      CondsPop(s.pc, s.sems, s.conds, s.sig, s.sched.current, c, all);
      LocksFrame(s.pc, s.sems, s.sems, s.holder, s.inside, s.sched.current, Popping(s.conds[c][0], c, all));
    }
  }

  lemma LockInitMonitors(s: State, l: LockId)
    requires MonitorsOk(s) && OfLock(l) !in s.sems
    ensures Locks(s.pc, s.sems[OfLock(l) := NewSema(1)], s.holder[l := None], s.inside[l := {}])
    ensures Conds(s.pc, s.sems[OfLock(l) := NewSema(1)], s.conds, s.sig)
  {
    hide Locks, Conds;
    LocksInit(s.pc, s.sems, s.holder, s.inside, l);
    CondsSems(s.pc, s.sems, s.sems[OfLock(l) := NewSema(1)], s.conds, s.sig);
  }

  lemma MonitorsAtCalls(s: State, e: Event)
    requires MonitorsOk(s) && Safe(s, e) && e != Continue && (e.CallCreate? ==> e.t != s.sched.current)
    ensures MonitorsOk(Apply(s, e))
  {
    hide Locks, Conds, DownTurn, PopWaiter, Enqueue, TryAcquire, Tick, Yield, Exit, Init, UpSched, DownSafe;
    match e {
      case TimerTick =>
      case CallYield =>
      case CallExit => MoveMonitors(s, s.sems, Gone);
      case CallCreate(u) => CreateMonitors(s, u, Starting, Creating(u));
      case IntrUp(i) => SamePlaceLocks(s, UpSems(s.sems, Plain(i)));
      case CallUp(i) => SamePlaceLocks(s, UpSems(s.sems, Plain(i)));
      case IntrTryDown(i) => SamePlaceLocks(s, TryDownSems(s.sems, Plain(i)));
      case CallTryDown(i) => SamePlaceLocks(s, TryDownSems(s.sems, Plain(i)));
      case CallSemaInit(i, value) => SamePlaceLocks(s, s.sems[Plain(i) := NewSema(value)]);
      case CallLockInit(l) => LockInitMonitors(s, l);
      case CallCondInit(c) => CondsInit(s.pc, s.sems, s.conds, s.sig, c);
      case CallDown(i) => DownTurnMonitors(s, ForSema(i));
      case CallAcquire(l) => DownTurnMonitors(s, ForLock(l));
      case CallTryAcquire(l) => TryAcquireMonitors(s, l);
      case CallRelease(l) => ReleaseMonitors(s, l, None);
      case CallWait(c) => EnqueueMonitors(s, c);
      case CallSignal(c, all) => PopMonitors(s, c, all);
    }
  }

  lemma TryAcquireMonitors(s: State, l: LockId)
    requires MonitorsOk(s) && DownSafe(s, ForLock(l)) && s.sched.current in s.pc && s.pc[s.sched.current] == Free
    ensures MonitorsOk(TryAcquire(s, l))
  {
    hide Locks, Conds;
    LockKnown(s, l);
    if s.sems[OfLock(l)].value > 0 {
      EnterMonitors(s, l);
    }
  }

  lemma SetHolderMonitors(s: State, l: LockId)
    requires MonitorsOk(s) && s.sched.current in s.pc && s.pc[s.sched.current] == SetHolder(l)
    ensures Locks(s.pc[s.sched.current := Free], s.sems, s.holder[l := Some(s.sched.current)], s.inside)
    ensures Conds(s.pc[s.sched.current := Free], s.sems, s.conds, s.sig)
  {
    hide Locks, Conds;
    PlaceSurvives(s, s.sems, s.sched.current);
    LocksHolder(s.pc, s.sems, s.holder, s.inside, s.sched.current, l, Some(s.sched.current), Free);
    CondsFrame(s.pc, s.sems, s.sems, s.conds, s.sig, s.sched.current, Free);
  }

  lemma LeaveMonitors(s: State, l: LockId, back: Option<Cond>)
    requires MonitorsOk(s) && s.sched.current in s.pc && s.pc[s.sched.current] == Releasing(l, back)
    requires l in s.inside && OfLock(l) in s.sems
    ensures var pc := s.pc[s.sched.current := if back.Some? then Down(ForSignal(back.value), false) else Free];
      && Locks(pc, UpSems(s.sems, OfLock(l)), s.holder, s.inside[l := s.inside[l] - {s.sched.current}])
      && Conds(pc, UpSems(s.sems, OfLock(l)), s.conds, s.sig)
  {
    hide Locks, Conds;
    var t, q := s.sched.current, if back.Some? then Down(ForSignal(back.value), false) else Free;
    PlaceSurvives(s, s.sems, t);
    if back.Some? {
      AwaitsSema(s, t);
    }
    LocksLeave(s.pc, s.sems, s.holder, s.inside, t, l, q);
    CondsFrame(s.pc, s.sems, UpSems(s.sems, OfLock(l)), s.conds, s.sig, t, q);
  }

  lemma AwaitsSema(s: State, t: Tid)
    requires MonitorsOk(s) && Awaits(s.pc, t).Some?
    ensures OfWaiter(t) in s.sems
  {
    hide Locks;
    assert EntryOk(s.pc, s.sems, s.conds, s.sig, t, Awaits(s.pc, t).value);
  }

  lemma SendMonitors(s: State, u: Tid, c: Cond, all: bool)
    requires MonitorsOk(s) && s.sched.current in s.pc && s.pc[s.sched.current] == Popping(u, c, all)
    requires OfWaiter(u) in s.sems
    ensures var pc := s.pc[s.sched.current := if all then Waking(c) else Free];
      && Locks(pc, UpSems(s.sems, OfWaiter(u)), s.holder, s.inside)
      && Conds(pc, UpSems(s.sems, OfWaiter(u)), s.conds, s.sig[u := Sent])
  {
    hide Locks, Conds;
    PlaceSurvives(s, s.sems, s.sched.current);
    PoppingCond(s);
    CondsSend(s.pc, s.sems, s.conds, s.sig, s.sched.current, if all then Waking(c) else Free);
    LocksFrame(s.pc, s.sems, UpSems(s.sems, OfWaiter(u)), s.holder, s.inside, s.sched.current,
               if all then Waking(c) else Free);
  }

  lemma PoppingCond(s: State)
    requires MonitorsOk(s) && s.sched.current in s.pc && s.pc[s.sched.current].Popping?
    ensures s.pc[s.sched.current].c in s.conds
  {
    hide Locks;
    assert PoppingOk(s.pc, s.sig, s.sched.current);
    assert EntryOk(s.pc, s.sems, s.conds, s.sig, s.pc[s.sched.current].t, s.pc[s.sched.current].c);
  }

  lemma BootMonitors(s: State)
    requires MonitorsOk(s) && s.sched.current in s.pc && s.pc[s.sched.current] == BootUp && Plain(0) in s.sems
    ensures var pc := s.pc[s.sched.current := IdleLoop];
      Locks(pc, UpSems(s.sems, Plain(0)), s.holder, s.inside) && Conds(pc, UpSems(s.sems, Plain(0)), s.conds, s.sig)
  {
    hide Locks, Conds;
    MoveMonitors(s, UpSems(s.sems, Plain(0)), IdleLoop);
  }

  lemma MonitorsAtContinue(s: State, pc: Pc)
    requires MonitorsOk(s) && s.sched.current in s.pc && s.pc[s.sched.current] == pc
    requires s.sched.current in s.sched.status && SafeContinue(s, pc)
    requires pc.Creating? ==> pc.child in s.pc && s.pc[pc.child] == Starting
    ensures MonitorsOk(Resume(s, pc))
  {
    hide Locks, Conds, DownTurn, PopWaiter, UpSems, Block;
    match pc {
      case Creating(u) => CreateMonitors(s, u, Free, Free);
      case Down(g, asleep) => DownTurnMonitors(s, g);
      case SetHolder(l) => SetHolderMonitors(s, l);
      case Releasing(l, back) => LeaveMonitors(s, l, back);
      case Enqueued(c) => ReleaseMonitors(s, c.lock, Some(c));
      case Popping(u, c, all) => SendMonitors(s, u, c, all);
      case Waking(c) => PopMonitors(s, c, true);
      case Boot => MoveMonitors(s, s.sems, BootUp);
      case BootUp => BootMonitors(s);
      case IdleLoop =>
    }
  }

  // ---- every step, every run ----

  lemma InvParts(s: State)
    ensures Inv(s) <==> Valid(s.sched) && ThreadsOk(s) && MonitorsOk(s)
  {
  }

  /** No ASSERT of thread.c or synch.c fails, and the invariant is kept, as long as callers meet
      the functions' own demands. */
  lemma StepKeeps(s: State, e: Event)
    requires Inv(s) && CallerOk(s, e)
    ensures Safe(s, e) && Inv(Apply(s, e))
  {
    hide Valid, Known, Core, Locks, Conds, Effect, SafeContinue, Resume;
    InvParts(s);
    if e == Continue {
      ContinueIsSafe(s);
      SchedPart(s, e);
      ContinueKeeps(s, s.pc[s.sched.current]);
    } else {
      CallKeeps(s, e);
    }
  }

  lemma CallKeeps(s: State, e: Event)
    requires Inv(s) && CallerOk(s, e) && e != Continue
    ensures Safe(s, e) && Inv(Apply(s, e))
  {
    hide Valid, ThreadsOk, MonitorsOk, Inv, Apply;
    InvParts(s);
    CallIsSafe(s, e);
    SchedPart(s, e);
    ThreadsAtCalls(s, e);
    MonitorsAtCalls(s, e);
    InvParts(Apply(s, e));
  }

  lemma ContinueKeeps(s: State, pc: Pc)
    requires Inv(s) && s.sched.current in s.pc && s.pc[s.sched.current] == pc
    requires s.sched.current in s.sched.status && SafeContinue(s, pc)
    requires Valid(Resume(s, pc).sched) && Effect(s.sched, ContinueOp(s, pc), Resume(s, pc).sched)
    ensures Inv(Resume(s, pc))
  {
    hide Valid, Core, Locks, Conds, SafeContinue, Resume, Effect, ContinueOp;
    if pc.Creating? {
      ChildStarting(s.sched, s.pc, s.sched.current);
    }
    ThreadsAtContinue(s, pc);
    MonitorsAtContinue(s, pc);
    InvParts(Resume(s, pc));
  }
}
