/** Every event keeps the invariant of SynchSafety, part by part. */
module SynchSteps {
  import opened Options
  import opened Sequences
  import opened Scheduler
  import opened Synch
  import opened SynchWakeups
  import opened SynchSafety

  // ---- the scheduler's part: an event is at most one operation of thread.c ----

  function UpOp(sems: map<SemId, Sema>, id: SemId): Op
    requires id in sems
  {
    if sems[id].waiters == [] then OpNone else OpUnblock(sems[id].waiters[0])
  }

  function DownOp(s: State, g: Goal): Op
    requires Target(s.sched.current, g) in s.sems
  {
    if s.sems[Target(s.sched.current, g)].value == 0 then OpBlock else OpNone
  }

  function SchedOp(s: State, e: Event): Op
    requires Safe(s, e)
  {
    match e
    case TimerTick => OpTick
    case IntrUp(i) => UpOp(s.sems, Plain(i))
    case CallYield => OpYield
    case CallExit => OpExit
    case CallCreate(u) => OpInit(u)
    case CallUp(i) => UpOp(s.sems, Plain(i))
    case CallDown(i) => DownOp(s, ForSema(i))
    case CallAcquire(l) => DownOp(s, ForLock(l))
    case Continue => ContinueOp(s, s.pc[s.sched.current])
    case _ => OpNone
  }

  function ContinueOp(s: State, pc: Pc): Op
    requires SafeContinue(s, pc)
  {
    match pc
    case Creating(u) => OpUnblock(u)
    case Down(g, asleep) => DownOp(s, g)
    case Releasing(l, back) => UpOp(s.sems, OfLock(l))
    case Popping(u, c, all) => UpOp(s.sems, OfWaiter(u))
    case Boot => OpStoreIdle
    case BootUp => UpOp(s.sems, Plain(0))
    case IdleLoop => OpBlock
    case _ => OpNone
  }

  lemma ProjectsToScheduler(s: State, e: Event)
    requires Safe(s, e)
    ensures CanDo(s.sched, SchedOp(s, e)) && Apply(s, e).sched == Do(s.sched, SchedOp(s, e))
  {
    if e == Continue {
      ContinueProjects(s, s.pc[s.sched.current]);
    } else {
      hide Tick;
      hide Yield;
      hide Block;
      hide Exit;
      hide Unblock;
    }
  }

  lemma ContinueProjects(s: State, pc: Pc)
    requires SafeContinue(s, pc) && s.sched.current in s.sched.status
    ensures CanDo(s.sched, ContinueOp(s, pc)) && Resume(s, pc).sched == Do(s.sched, ContinueOp(s, pc))
  {
    hide Block;
    hide Unblock;
    hide UpSems;
    hide DownSems;
    match pc {
      case Down(g, asleep) =>
        DownTurnProjects(s, g);
        hide DownTurn;
      case Releasing(l, back) => UpProjects(s, OfLock(l));
      case Popping(u, c, all) => UpProjects(s, OfWaiter(u));
      case BootUp => UpProjects(s, Plain(0));
      case _ =>
    }
  }

  lemma UpProjects(s: State, id: SemId)
    requires UpSafe(s, id) && s.sched.current in s.sched.status
    ensures CanDo(s.sched, UpOp(s.sems, id)) && Up(s, id).sched == Do(s.sched, UpOp(s.sems, id))
  {
  }

  lemma DownTurnProjects(s: State, g: Goal)
    requires DownSafe(s, g) && s.sched.current in s.sched.status
    ensures CanDo(s.sched, DownOp(s, g)) && DownTurn(s, g).sched == Do(s.sched, DownOp(s, g))
  {
    hide Block;
    hide DownSems;
  }

  /** What an operation of thread.c does to the facts the other parts depend on. Only the idle
      thread is ever dispatched while blocked. */
  ghost predicate Effect(sched: Sched, op: Op, after: Sched) {
    && (forall t | Blk(after, t) :: (Blk(sched, t) && op != OpUnblock(t)) || Blocks(sched, op, t))
    && (forall t | (Blk(sched, t) && op != OpUnblock(t)) || Blocks(sched, op, t) :: Blk(after, t) || t == IDLE)
    && (forall t | t in after.status.Keys + after.freed :: t in sched.status.Keys + sched.freed || op == OpInit(t))
    && (forall t | Dead(sched, t) && op != OpInit(t) && t != IDLE :: Dead(after, t))
    && (forall t | Dead(after, t) :: Dead(sched, t) || (op == OpExit && t == sched.current))
    && (op == OpExit ==> Dead(after, sched.current))
    && (after.idleSet <==> sched.idleSet || op == OpStoreIdle)
  }

  predicate Blocks(sched: Sched, op: Op, t: Tid) {
    (op == OpBlock && t == sched.current) || op == OpInit(t)
  }

  /** What schedule() does, once the running thread's status has changed. */
  ghost predicate Scheduled(before: Sched, after: Sched) {
    && (forall t | Blk(after, t) :: Blk(before, t))
    && (forall t | Blk(before, t) :: Blk(after, t) || t == IDLE)
    && after.status.Keys + after.freed == before.status.Keys + before.freed
    && (forall t | Dead(before, t) && t != IDLE :: Dead(after, t))
    && (forall t | Dead(after, t) :: Dead(before, t))
    && after.idleSet == before.idleSet
  }

  lemma ScheduleEffect(before: Sched)
    requires Switching(before)
    ensures Scheduled(before, Schedule(before))
  {
    var mid, after := Switch(before), Schedule(before);
    assert forall t | t in before.status && t != Next(before) :: mid.status[t] == before.status[t];
    assert before.status[Next(before)] != Dying;
  }

  lemma YieldEffect(sched: Sched, op: Op, ticks: nat)
    requires sched.current in sched.status && sched.status[sched.current] == Running
    requires Switching(Yielding(sched)) && op in {OpYield, OpTick}
    ensures Effect(sched, op, Yield(sched.(ticks := ticks)))
  {
    hide Schedule, Switching, Yield;
    TicksDoNotMatter(sched, ticks);
    ScheduleEffect(Yielding(sched));
    var before := Yielding(sched);
    assert forall t :: Blk(before, t) <==> Blk(sched, t);
    assert forall t :: Dead(before, t) <==> Dead(sched, t);
  }

  /** The slice counter is reset by the switch. */
  lemma TicksDoNotMatter(sched: Sched, ticks: nat)
    requires sched.current in sched.status
    ensures Yield(sched.(ticks := ticks)) == Schedule(Yielding(sched))
  {
    var x, y := Yielding(sched.(ticks := ticks)), Yielding(sched);
    assert Switch(x) == Switch(y);
  }

  lemma BlockEffect(sched: Sched)
    requires sched.current in sched.status && sched.status[sched.current] == Running
    requires Switching(Blocking(sched))
    ensures Effect(sched, OpBlock, Block(sched))
  {
    hide Schedule, Switching;
    ScheduleEffect(Blocking(sched));
    assert forall t :: Dead(Blocking(sched), t) <==> Dead(sched, t);
  }

  lemma ExitEffect(sched: Sched)
    requires sched.current in sched.status && sched.status[sched.current] == Running && sched.current != IDLE
    requires Switching(Exiting(sched))
    ensures Effect(sched, OpExit, Exit(sched))
  {
    hide Schedule, Switching, Without;
    ScheduleEffect(Exiting(sched));
    assert forall t | t != sched.current :: Dead(Exiting(sched), t) <==> Dead(sched, t);
  }

  lemma TickEffect(sched: Sched)
    requires Valid(sched)
    ensures Effect(sched, OpTick, Tick(sched))
  {
    if sched.ticks + 1 >= SLICE {
      YieldingSwitches(sched);
      YieldEffect(sched, OpTick, sched.ticks + 1);
      hide *;
    } else {
      hide Valid;
      hide Yield;
    }
  }

  lemma NoEffect(sched: Sched)
    ensures Effect(sched, OpNone, sched)
  {
  }

  lemma DoEffect(sched: Sched, op: Op)
    requires Valid(sched) && CanDo(sched, op)
    ensures Effect(sched, op, Do(sched, op))
  {
    hide Valid, Effect, Tick, Yield, Block, Exit, Unblock, Init, Switching;
    CurrentRuns(sched);
    match op {
      case OpTick => TickEffect(sched);
      case OpYield =>
        FreshSlice(sched);
        YieldingSwitches(sched);
        YieldEffect(sched, op, sched.ticks);
      case OpBlock =>
        BlockValid(sched);
        BlockEffect(sched);
      case OpExit =>
        ExitValid(sched);
        ExitEffect(sched);
      case OpUnblock(t) => SmallEffect(sched, op);
      case OpInit(t) => SmallEffect(sched, op);
      case OpStoreIdle => SmallEffect(sched, op);
      case OpNone => NoEffect(sched);
    }
  }

  lemma CurrentRuns(sched: Sched)
    requires Valid(sched)
    ensures sched.current in sched.status && sched.status[sched.current] == Running
  {
  }

  lemma SmallEffect(sched: Sched, op: Op)
    requires sched.current in sched.status && CanDo(sched, op)
    requires op.OpUnblock? || op.OpInit? || op.OpStoreIdle?
    ensures Effect(sched, op, Do(sched, op))
  {
  }

  // ---- threads ----

  predicate SamePlaceKind(p: Pc, q: Pc, op: Op) {
    && !q.Starting? && !q.Gone? && !q.Creating?
    && IdlePc(p) == IdlePc(q)
    && (if op == OpStoreIdle then p.Boot? && !q.Boot? else p.Boot? == q.Boot?)
  }

  lemma CreatorsStay(pc: map<Tid, Pc>, t: Tid, q: Pc)
    requires Creators(pc) && !q.Creating? && (t in pc ==> !pc[t].Starting?)
    ensures Creators(pc[t := q])
  {
  }

  lemma CreatorDone(pc: map<Tid, Pc>, t: Tid, u: Tid)
    requires Creators(pc) && t in pc && pc[t] == Creating(u)
    ensures u in pc && pc[u].Starting? && Creators(pc[u := Free][t := Free])
  {
  }

  lemma KnownStep(sched: Sched, op: Op, after: Sched, pc: map<Tid, Pc>, t: Tid, q: Pc)
    requires Known(sched, pc) && t in pc && Effect(sched, op, after)
    requires !op.OpInit? && !op.OpExit?
    requires op.OpUnblock? ==> op.t in pc && !pc[op.t].Starting?
    requires SamePlaceKind(pc[t], q, op) && !pc[t].Starting? && !pc[t].Gone?
    ensures Known(after, pc[t := q])
  {
    hide Creators;
    CreatorsStay(pc, t, q);
  }

  lemma KnownUnblock(sched: Sched, w: Tid, after: Sched, pc: map<Tid, Pc>)
    requires Known(sched, pc) && Effect(sched, OpUnblock(w), after) && w in pc && !pc[w].Starting?
    ensures Known(after, pc)
  {
  }

  lemma KnownExit(sched: Sched, after: Sched, pc: map<Tid, Pc>)
    requires Known(sched, pc) && sched.current in pc && Effect(sched, OpExit, after)
    requires pc[sched.current] == Free
    ensures Known(after, pc[sched.current := Gone])
  {
    hide Creators;
    CreatorsStay(pc, sched.current, Gone);
  }

  lemma KnownCreate(sched: Sched, u: Tid, after: Sched, pc: map<Tid, Pc>)
    requires Known(sched, pc) && sched.current in pc && Effect(sched, OpInit(u), after) && u !in pc
    requires pc[sched.current] == Free
    ensures Known(after, pc[u := Starting][sched.current := Creating(u)])
  {
    hide Effect;
    KnownInit(sched, u, after, pc);
    KnownCreating(after, pc, sched.current, u);
  }

  lemma KnownCreating(sched: Sched, pc: map<Tid, Pc>, t: Tid, u: Tid)
    requires t in pc && pc[t] == Free && u !in pc && Known(sched, pc[u := Starting]) && Creators(pc)
    ensures Known(sched, pc[u := Starting][t := Creating(u)])
  {
    hide Creators;
    CreatorAdded(pc, t, u);
  }

  lemma CreatorAdded(pc: map<Tid, Pc>, t: Tid, u: Tid)
    requires t in pc && pc[t] == Free && u !in pc && Creators(pc)
    ensures Creators(pc[u := Starting][t := Creating(u)])
  {
  }

  lemma KnownInit(sched: Sched, u: Tid, after: Sched, pc: map<Tid, Pc>)
    requires Known(sched, pc) && Effect(sched, OpInit(u), after) && u !in pc
    ensures Known(after, pc[u := Starting])
  {
    hide Creators;
    CreatorsStay(pc, u, Starting);
    assert Blocks(sched, OpInit(u), u) && Blk(after, u);
  }

  lemma KnownLaunch(sched: Sched, u: Tid, after: Sched, pc: map<Tid, Pc>)
    requires Known(sched, pc) && sched.current in pc && Effect(sched, OpUnblock(u), after)
    requires pc[sched.current] == Creating(u)
    ensures Known(after, pc[u := Free][sched.current := Free])
  {
    hide Creators;
    CreatorDone(pc, sched.current, u);
    assert u in pc && pc[u].Starting? && !Dead(sched, u);
  }

  // ---- locks ----

  ghost predicate SameLockValues(sems: map<SemId, Sema>, sems': map<SemId, Sema>) {
    && sems.Keys <= sems'.Keys
    && (forall l :: OfLock(l) in sems <==> OfLock(l) in sems')
    && (forall l | OfLock(l) in sems :: sems[OfLock(l)].value == sems'[OfLock(l)].value)
  }

  ghost predicate SameWindows(pc: map<Tid, Pc>, t: Tid, q: Pc) {
    forall l :: InWindow(q, l) <==> t in pc && InWindow(pc[t], l)
  }

  lemma LocksFrame(pc: map<Tid, Pc>, sems: map<SemId, Sema>, sems': map<SemId, Sema>, holder: map<LockId, Option<Tid>>,
                   inside: map<LockId, set<Tid>>, t: Tid, q: Pc)
    requires Locks(pc, sems, holder, inside) && SameLockValues(sems, sems')
    requires SameWindows(pc, t, q) && PlaceOk(sems', holder, inside, t, q)
    ensures Locks(pc[t := q], sems', holder, inside)
  {
    var pc' := pc[t := q];
    forall u | u in pc' ensures PlaceOk(sems', holder, inside, u, pc'[u]) {
      if u != t {
        assert PlaceOk(sems, holder, inside, u, pc[u]);
      }
    }
    forall l | l in holder ensures LockOk(pc', sems'[OfLock(l)].value, holder[l], inside[l], l) {
      assert LockOk(pc, sems[OfLock(l)].value, holder[l], inside[l], l);
    }
  }

  /** The semaphore's down: the thread is the only one inside. */
  lemma LocksEnter(pc: map<Tid, Pc>, sems: map<SemId, Sema>, holder: map<LockId, Option<Tid>>,
                   inside: map<LockId, set<Tid>>, t: Tid, l: LockId)
    requires Locks(pc, sems, holder, inside) && t in pc && l in holder && sems[OfLock(l)].value > 0
    requires forall k :: !InWindow(pc[t], k)
    ensures Locks(pc[t := SetHolder(l)], TryDownSems(sems, OfLock(l)), holder, inside[l := inside[l] + {t}])
  {
    var pc', sems', inside' := pc[t := SetHolder(l)], TryDownSems(sems, OfLock(l)), inside[l := inside[l] + {t}];
    assert LockOk(pc, sems[OfLock(l)].value, holder[l], inside[l], l);
    assert inside[l] == {} && inside'[l] == {t};
    forall u | u in pc' ensures PlaceOk(sems', holder, inside', u, pc'[u]) {
      if u != t {
        assert PlaceOk(sems, holder, inside, u, pc[u]);
      }
    }
    forall k | k in holder ensures LockOk(pc', sems'[OfLock(k)].value, holder[k], inside'[k], k) {
      assert LockOk(pc, sems[OfLock(k)].value, holder[k], inside[k], k);
    }
  }

  lemma OnlyOneInside(pc: map<Tid, Pc>, value: nat, holder: Option<Tid>, inside: set<Tid>, l: LockId, t: Tid)
    requires LockOk(pc, value, holder, inside, l) && t in inside
    ensures inside == {t} && value == 0
  {
    assert |inside - {t}| == 0;
  }

  /** The store of `holder` in lock_acquire, or its clearing in lock_release. */
  lemma LocksHolder(pc: map<Tid, Pc>, sems: map<SemId, Sema>, holder: map<LockId, Option<Tid>>,
                    inside: map<LockId, set<Tid>>, t: Tid, l: LockId, h: Option<Tid>, q: Pc)
    requires Locks(pc, sems, holder, inside) && t in pc && l in inside && t in inside[l]
    requires forall k | k != l :: InWindow(pc[t], k) <==> InWindow(q, k)
    requires h == if InWindow(q, l) then None else Some(t)
    requires PlaceOk(sems, holder[l := h], inside, t, q)
    ensures Locks(pc[t := q], sems, holder[l := h], inside)
  {
    hide LockOk, PlaceOk, InWindow;
    PlacesAtHolder(pc, sems, holder, inside, t, l, h);
    var pc', holder' := pc[t := q], holder[l := h];
    forall k | k in holder' ensures LockOk(pc', sems[OfLock(k)].value, holder'[k], inside[k], k) {
      LockAtHolder(pc, sems, holder, inside, t, l, h, q, k);
    }
  }

  lemma PlacesAtHolder(pc: map<Tid, Pc>, sems: map<SemId, Sema>, holder: map<LockId, Option<Tid>>,
                       inside: map<LockId, set<Tid>>, t: Tid, l: LockId, h: Option<Tid>)
    requires Locks(pc, sems, holder, inside) && t in pc && l in inside && t in inside[l]
    ensures forall u | u in pc && u != t :: PlaceOk(sems, holder[l := h], inside, u, pc[u])
  {
    assert LockOk(pc, sems[OfLock(l)].value, holder[l], inside[l], l);
    OnlyOneInside(pc, sems[OfLock(l)].value, holder[l], inside[l], l, t);
    forall u | u in pc && u != t ensures PlaceOk(sems, holder[l := h], inside, u, pc[u]) {
      assert PlaceOk(sems, holder, inside, u, pc[u]);
    }
  }

  lemma LockAtHolder(pc: map<Tid, Pc>, sems: map<SemId, Sema>, holder: map<LockId, Option<Tid>>,
                     inside: map<LockId, set<Tid>>, t: Tid, l: LockId, h: Option<Tid>, q: Pc, k: LockId)
    requires Locks(pc, sems, holder, inside) && t in pc && l in inside && t in inside[l] && k in holder
    requires k != l ==> (InWindow(pc[t], k) <==> InWindow(q, k))
    requires h == if InWindow(q, l) then None else Some(t)
    ensures LockOk(pc[t := q], sems[OfLock(k)].value, holder[l := h][k], inside[k], k)
  {
    hide PlaceOk;
    assert LockOk(pc, sems[OfLock(k)].value, holder[k], inside[k], k);
    if k == l {
      OnlyOneInside(pc, sems[OfLock(l)].value, holder[l], inside[l], l, t);
    }
  }

  /** The semaphore's up in lock_release. */
  lemma LocksLeave(pc: map<Tid, Pc>, sems: map<SemId, Sema>, holder: map<LockId, Option<Tid>>,
                   inside: map<LockId, set<Tid>>, t: Tid, l: LockId, q: Pc)
    requires Locks(pc, sems, holder, inside) && t in pc && l in inside
    requires pc[t].Releasing? && pc[t].l == l
    requires forall k :: !InWindow(q, k)
    requires PlaceOk(UpSems(sems, OfLock(l)), holder, inside[l := {}], t, q)
    ensures Locks(pc[t := q], UpSems(sems, OfLock(l)), holder, inside[l := inside[l] - {t}])
  {
    var pc', sems', inside' := pc[t := q], UpSems(sems, OfLock(l)), inside[l := inside[l] - {t}];
    assert PlaceOk(sems, holder, inside, t, pc[t]);
    assert LockOk(pc, sems[OfLock(l)].value, holder[l], inside[l], l);
    OnlyOneInside(pc, sems[OfLock(l)].value, holder[l], inside[l], l, t);
    assert inside[l] - {t} == {};
    forall u | u in pc' ensures PlaceOk(sems', holder, inside', u, pc'[u]) {
      if u != t {
        assert PlaceOk(sems, holder, inside, u, pc[u]);
      }
    }
    forall k | k in holder ensures LockOk(pc', sems'[OfLock(k)].value, holder[k], inside'[k], k) {
      assert LockOk(pc, sems[OfLock(k)].value, holder[k], inside[k], k);
    }
  }

  /** lock_init. */
  lemma LocksInit(pc: map<Tid, Pc>, sems: map<SemId, Sema>, holder: map<LockId, Option<Tid>>,
                  inside: map<LockId, set<Tid>>, l: LockId)
    requires Locks(pc, sems, holder, inside) && OfLock(l) !in sems
    ensures Locks(pc, sems[OfLock(l) := NewSema(1)], holder[l := None], inside[l := {}])
  {
    hide LockOk, InWindow;
    FreshLock(pc, l);
    var sems', holder', inside' := sems[OfLock(l) := NewSema(1)], holder[l := None], inside[l := {}];
    forall u | u in pc ensures PlaceOk(sems', holder', inside', u, pc[u]) {
      assert PlaceOk(sems, holder, inside, u, pc[u]);
    }
    forall k | k in holder' ensures LockOk(pc, sems'[OfLock(k)].value, holder'[k], inside'[k], k) {
      if k != l {
        assert LockOk(pc, sems[OfLock(k)].value, holder[k], inside[k], k);
      }
    }
  }

  lemma FreshLock(pc: map<Tid, Pc>, l: LockId)
    ensures LockOk(pc, 1, None, {}, l)
  {
  }

  // ---- condition variables ----

  ghost predicate SameWaiterValues(sems: map<SemId, Sema>, sems': map<SemId, Sema>) {
    && sems.Keys <= sems'.Keys
    && (forall t | OfWaiter(t) in sems :: sems[OfWaiter(t)].value == sems'[OfWaiter(t)].value)
  }

  predicate Plainly(q: Pc, conds: map<Cond, seq<Tid>>) {
    !q.Popping? && (q.Waking? ==> q.c in conds)
  }

  lemma CondsFrame(pc: map<Tid, Pc>, sems: map<SemId, Sema>, sems': map<SemId, Sema>, conds: map<Cond, seq<Tid>>,
                   sig: map<Tid, Signal>, t: Tid, q: Pc)
    requires Conds(pc, sems, conds, sig) && SameWaiterValues(sems, sems')
    requires Awaits(pc, t) == AwaitsAt(q) && Plainly(q, conds) && (t in pc ==> !pc[t].Popping?)
    ensures Conds(pc[t := q], sems', conds, sig)
  {
    var pc' := pc[t := q];
    assert forall u :: Awaits(pc', u) == Awaits(pc, u);
    forall u | Awaits(pc', u).Some? ensures EntryOk(pc', sems', conds, sig, u, Awaits(pc', u).value) {
      assert EntryOk(pc, sems, conds, sig, u, Awaits(pc, u).value);
    }
    forall u | u in pc' && pc'[u].Popping? ensures PoppingOk(pc', sig, u) {
      assert PoppingOk(pc, sig, u);
    }
  }

  lemma CondsSems(pc: map<Tid, Pc>, sems: map<SemId, Sema>, sems': map<SemId, Sema>, conds: map<Cond, seq<Tid>>,
                  sig: map<Tid, Signal>)
    requires Conds(pc, sems, conds, sig) && SameWaiterValues(sems, sems')
    ensures Conds(pc, sems', conds, sig)
  {
    forall u | Awaits(pc, u).Some? ensures EntryOk(pc, sems', conds, sig, u, Awaits(pc, u).value) {
      assert EntryOk(pc, sems, conds, sig, u, Awaits(pc, u).value);
    }
  }

  /** cond_init. */
  lemma CondsInit(pc: map<Tid, Pc>, sems: map<SemId, Sema>, conds: map<Cond, seq<Tid>>, sig: map<Tid, Signal>, c: Cond)
    requires Conds(pc, sems, conds, sig) && c !in conds && OfLock(c.lock) in sems
    ensures Conds(pc, sems, conds[c := []], sig)
  {
    forall u | Awaits(pc, u).Some? ensures EntryOk(pc, sems, conds[c := []], sig, u, Awaits(pc, u).value) {
      assert EntryOk(pc, sems, conds, sig, u, Awaits(pc, u).value);
    }
    forall u | u in pc && pc[u].Popping? ensures PoppingOk(pc, sig, u) {
      assert PoppingOk(pc, sig, u);
    }
  }

  /** The list half of cond_wait. */
  lemma CondsEnqueue(pc: map<Tid, Pc>, sems: map<SemId, Sema>, conds: map<Cond, seq<Tid>>, sig: map<Tid, Signal>,
                     t: Tid, c: Cond)
    requires Conds(pc, sems, conds, sig) && t in pc && pc[t] == Free && c in conds
    ensures Conds(pc[t := Enqueued(c)], sems[OfWaiter(t) := NewSema(0)], conds[c := conds[c] + [t]], sig[t := Unsent])
  {
    var pc', sems', conds', sig' :=
      pc[t := Enqueued(c)], sems[OfWaiter(t) := NewSema(0)], conds[c := conds[c] + [t]], sig[t := Unsent];
    assert Awaits(pc, t) == None;
    assert forall u | u != t :: Awaits(pc', u) == Awaits(pc, u);
    forall u | Awaits(pc', u).Some? ensures EntryOk(pc', sems', conds', sig', u, Awaits(pc', u).value) {
      if u == t {
        assert conds'[c][|conds[c]|] == t;
      } else {
        assert EntryOk(pc, sems, conds, sig, u, Awaits(pc, u).value);
        assert conds[c] <= conds'[c];
      }
    }
    forall u | u in pc' && pc'[u].Popping? ensures PoppingOk(pc', sig', u) {
      assert PoppingOk(pc, sig, u);
    }
  }

  /** The list half of cond_signal. */
  lemma CondsPop(pc: map<Tid, Pc>, sems: map<SemId, Sema>, conds: map<Cond, seq<Tid>>, sig: map<Tid, Signal>,
                 t: Tid, c: Cond, all: bool)
    requires Conds(pc, sems, conds, sig) && t in pc && (pc[t] == Free || pc[t] == Waking(c))
    requires c in conds && conds[c] != []
    ensures Conds(pc[t := Popping(conds[c][0], c, all)], sems, conds[c := conds[c][1..]],
                  sig[conds[c][0] := Popped(t)])
  {
    var w := conds[c][0];
    var pc', conds', sig' := pc[t := Popping(w, c, all)], conds[c := conds[c][1..]], sig[w := Popped(t)];
    PoppedQueue(conds[c]);
    assert w in conds[c];
    assert Awaits(pc, w) == Some(c) && sig[w] == Unsent;
    assert forall u :: Awaits(pc', u) == Awaits(pc, u);
    forall u | Awaits(pc', u).Some? ensures EntryOk(pc', sems, conds', sig', u, Awaits(pc', u).value) {
      assert EntryOk(pc, sems, conds, sig, u, Awaits(pc, u).value);
    }
    forall u | u in pc' && pc'[u].Popping? ensures PoppingOk(pc', sig', u) {
      if u != t {
        assert PoppingOk(pc, sig, u);
      }
    }
  }

  /** The sema_up of cond_signal. */
  lemma CondsSend(pc: map<Tid, Pc>, sems: map<SemId, Sema>, conds: map<Cond, seq<Tid>>, sig: map<Tid, Signal>,
                  t: Tid, q: Pc)
    requires Conds(pc, sems, conds, sig) && t in pc && pc[t].Popping? && OfWaiter(pc[t].t) in sems
    requires AwaitsAt(q) == None && Plainly(q, conds)
    ensures Conds(pc[t := q], UpSems(sems, OfWaiter(pc[t].t)), conds, sig[pc[t].t := Sent])
  {
    var w := pc[t].t;
    var pc', sems', sig' := pc[t := q], UpSems(sems, OfWaiter(w)), sig[w := Sent];
    assert PoppingOk(pc, sig, t);
    assert EntryOk(pc, sems, conds, sig, w, pc[t].c);
    assert forall u :: Awaits(pc', u) == Awaits(pc, u);
    forall u | Awaits(pc', u).Some? ensures EntryOk(pc', sems', conds, sig', u, Awaits(pc', u).value) {
      assert EntryOk(pc, sems, conds, sig, u, Awaits(pc, u).value);
    }
    forall u | u in pc' && pc'[u].Popping? ensures PoppingOk(pc', sig', u) {
      assert PoppingOk(pc, sig, u);
    }
  }

  /** The sema_down of cond_wait: only a signal lets it through. */
  lemma CondsTake(pc: map<Tid, Pc>, sems: map<SemId, Sema>, conds: map<Cond, seq<Tid>>, sig: map<Tid, Signal>,
                  t: Tid, c: Cond)
    requires Conds(pc, sems, conds, sig) && t in pc && pc[t].Down? && pc[t].goal == ForSignal(c)
    requires OfWaiter(t) in sems && sems[OfWaiter(t)].value > 0
    ensures Conds(pc[t := Down(ForRelock(c), false)], TryDownSems(sems, OfWaiter(t)), conds, sig)
    ensures t in sig && sig[t] == Sent
  {
    var pc', sems' := pc[t := Down(ForRelock(c), false)], TryDownSems(sems, OfWaiter(t));
    assert Awaits(pc, t) == Some(c);
    assert EntryOk(pc, sems, conds, sig, t, c);
    assert forall u | u != t :: Awaits(pc', u) == Awaits(pc, u);
    forall u | Awaits(pc', u).Some? ensures EntryOk(pc', sems', conds, sig, u, Awaits(pc', u).value) {
      assert EntryOk(pc, sems, conds, sig, u, Awaits(pc, u).value);
    }
    forall u | u in pc' && pc'[u].Popping? ensures PoppingOk(pc', sig, u) {
      assert PoppingOk(pc, sig, u);
    }
  }
}
