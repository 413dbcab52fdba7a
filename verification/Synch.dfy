/** Semaphores, locks and condition variables (threads/synch.c) over the scheduler, as a step
    relation: one event is one stretch of code that nothing can interleave with. */
module Synch {
  import opened Options
  import opened Sequences
  import opened Scheduler

  type LockId = nat

  /** A condition variable and the one lock it is used with. */
  datatype Cond = Cond(id: nat, lock: LockId)

  /** A semaphore of its own, the one inside a lock, or the one cond_wait keeps on the stack of
      thread `t`. */
  datatype SemId = Plain(i: nat) | OfLock(l: LockId) | OfWaiter(t: Tid)

  /** `initial`, `ups` and `downs` record its history. */
  datatype Sema = Sema(value: nat, waiters: seq<Tid>, initial: nat, ups: nat, downs: nat)

  function NewSema(value: nat): Sema { Sema(value, [], value, 0, 0) }

  /** On whose behalf sema_down runs: a caller's, lock_acquire's, or for the two calls at the
      end of cond_wait. */
  datatype Goal = ForSema(i: nat) | ForLock(l: LockId) | ForSignal(c: Cond) | ForRelock(c: Cond)

  /** Where a thread is. */
  datatype Pc =
    | Free                                    // outside thread.c and synch.c
    | Gone                                    // past thread_exit
    | Starting                                // between init_thread and thread_unblock
    | Creating(child: Tid)                    // its creator, meanwhile
    | Down(goal: Goal, asleep: bool)          // in sema_down, before or inside its loop
    | SetHolder(l: LockId)                    // lock_acquire, sema_down done
    | Releasing(l: LockId, back: Option<Cond>) // lock_release, holder cleared; in cond_wait if Some
    | Enqueued(c: Cond)                       // cond_wait, before lock_release
    | Popping(t: Tid, c: Cond, all: bool)      // cond_signal, before sema_up
    | Waking(c: Cond)                         // cond_broadcast, at its loop test
    | Boot | BootUp | IdleLoop                // idle()

  /** What has become of a thread's entry in a condition's list. */
  datatype Signal = Unsent | Popped(sender: Tid) | Sent

  /** `inside` records which threads are between a completed down and the up of a lock's
      semaphore. */
  datatype State = State(
    sched: Sched,
    pc: map<Tid, Pc>,
    sems: map<SemId, Sema>,
    holder: map<LockId, Option<Tid>>,
    inside: map<LockId, set<Tid>>,
    conds: map<Cond, seq<Tid>>,
    sig: map<Tid, Signal>)

  function Target(t: Tid, g: Goal): SemId {
    match g
    case ForSema(i) => Plain(i)
    case ForLock(l) => OfLock(l)
    case ForSignal(c) => OfWaiter(t)
    case ForRelock(c) => OfLock(c.lock)
  }

  /** Where a thread goes when its sema_down is done. */
  function After(g: Goal): Pc {
    match g
    case ForSema(i) => Free
    case ForLock(l) => SetHolder(l)
    case ForSignal(c) => Down(ForRelock(c), false)
    case ForRelock(c) => SetHolder(c.lock)
  }

  // ---- sema_up and one turn of the loop in sema_down ----

  function UpSems(sems: map<SemId, Sema>, id: SemId): map<SemId, Sema>
    requires id in sems
  {
    var m := sems[id];
    sems[id := m.(value := m.value + 1, ups := m.ups + 1,
                  waiters := if m.waiters == [] then [] else m.waiters[1..])]
  }

  function UpSched(sched: Sched, sems: map<SemId, Sema>, id: SemId): Sched
    requires id in sems
    requires sems[id].waiters != [] ==> sems[id].waiters[0] in sched.status
  {
    if sems[id].waiters == [] then sched else Unblock(sched, sems[id].waiters[0])
  }

  function DownSems(sems: map<SemId, Sema>, id: SemId, t: Tid): map<SemId, Sema>
    requires id in sems
  {
    var m := sems[id];
    sems[id := if m.value == 0 then m.(waiters := m.waiters + [t])
               else m.(value := m.value - 1, downs := m.downs + 1)]
  }

  function DownSched(sched: Sched, sems: map<SemId, Sema>, id: SemId): Sched
    requires id in sems && sched.current in sched.status
  {
    if sems[id].value == 0 then Block(sched) else sched
  }

  function TryDownSems(sems: map<SemId, Sema>, id: SemId): map<SemId, Sema>
    requires id in sems
  {
    if sems[id].value == 0 then sems
    else sems[id := sems[id].(value := sems[id].value - 1, downs := sems[id].downs + 1)]
  }

  // ---- events ----

  datatype Event =
    | TimerTick
    | IntrUp(i: nat)                   // an interrupt handler's sema_up
    | IntrTryDown(i: nat)              // or sema_try_down
    | CallYield
    | CallExit
    | CallCreate(t: Tid)
    | CallSemaInit(i: nat, value: nat)
    | CallLockInit(l: LockId)
    | CallCondInit(c: Cond)
    | CallUp(i: nat)
    | CallTryDown(i: nat)
    | CallDown(i: nat)
    | CallAcquire(l: LockId)
    | CallTryAcquire(l: LockId)
    | CallRelease(l: LockId)
    | CallWait(c: Cond)
    | CallSignal(c: Cond, all: bool)   // cond_broadcast if `all`
    | Continue                         // the running thread goes on with the call it is in

  predicate InterruptsOn(pc: Pc) {
    !(pc.Down? && pc.asleep)
  }

  /** What the functions demand of their callers (their ASSERTs and comments). */
  predicate CallerOk(s: State, e: Event) {
    var t := s.sched.current;
    t in s.pc &&
    match e
    case TimerTick => InterruptsOn(s.pc[t])
    case IntrUp(i) => InterruptsOn(s.pc[t]) && Plain(i) in s.sems
    case IntrTryDown(i) => InterruptsOn(s.pc[t]) && Plain(i) in s.sems
    case Continue => s.pc[t] != Free
    case CallYield => s.pc[t] == Free
    case CallExit => s.pc[t] == Free
    case CallCreate(u) => s.pc[t] == Free && u !in s.pc
    case CallSemaInit(i, value) => s.pc[t] == Free && Plain(i) !in s.sems
    case CallLockInit(l) => s.pc[t] == Free && OfLock(l) !in s.sems
    case CallCondInit(c) => s.pc[t] == Free && c !in s.conds && OfLock(c.lock) in s.sems
    case CallUp(i) => s.pc[t] == Free && Plain(i) in s.sems
    case CallTryDown(i) => s.pc[t] == Free && Plain(i) in s.sems
    case CallDown(i) => s.pc[t] == Free && Plain(i) in s.sems
    case CallAcquire(l) => s.pc[t] == Free && l in s.holder && s.holder[l] != Some(t)
    case CallTryAcquire(l) => s.pc[t] == Free && l in s.holder && s.holder[l] != Some(t)
    case CallRelease(l) => s.pc[t] == Free && Holds(s.holder, t, l)
    case CallWait(c) => s.pc[t] == Free && c in s.conds && Holds(s.holder, t, c.lock)
    case CallSignal(c, all) => s.pc[t] == Free && c in s.conds && Holds(s.holder, t, c.lock)
  }

  /** lock_held_by_current_thread, for the current thread `t`. */
  predicate Holds(holder: map<LockId, Option<Tid>>, t: Tid, l: LockId) {
    l in holder && holder[l] == Some(t)
  }

  /** The ASSERT of thread_unblock for sema_up, and that the semaphore exists. */
  predicate UpSafe(s: State, id: SemId) {
    id in s.sems && (s.sems[id].waiters != [] ==> CanDo(s.sched, OpUnblock(s.sems[id].waiters[0])))
  }

  /** The ASSERT of lock_acquire, that the thread does not hold the lock already. */
  predicate DownSafe(s: State, g: Goal) {
    && Target(s.sched.current, g) in s.sems
    && (s.sched.idleSet || s.sched.current != IDLE)
    && (g.ForRelock? ==> g.c.lock in s.inside && s.sched.current !in s.inside[g.c.lock])
    && (g.ForLock? ==> g.l in s.inside && s.sched.current !in s.inside[g.l])
  }

  /** What must hold for an event to run without failing an ASSERT or reading what is not there.
      `Safe` of `Continue` is not assumed of callers: it is proved. */
  predicate Safe(s: State, e: Event) {
    CallerOk(s, e) && s.sched.current in s.sched.status &&
    match e
    case IntrUp(i) => UpSafe(s, Plain(i))
    case CallExit => s.sched.current != IDLE
    case CallCreate(u) => CanDo(s.sched, OpInit(u))
    case CallUp(i) => UpSafe(s, Plain(i))
    case CallDown(i) => DownSafe(s, ForSema(i))
    case CallAcquire(l) => DownSafe(s, ForLock(l))
    case CallTryAcquire(l) => DownSafe(s, ForLock(l))
    case Continue => SafeContinue(s, s.pc[s.sched.current])
    case _ => true
  }

  predicate SafeContinue(s: State, pc: Pc) {
    match pc
    case Creating(u) => CanDo(s.sched, OpUnblock(u))
    case Down(g, asleep) => DownSafe(s, g)
    case SetHolder(l) => l in s.holder
    case Releasing(l, back) => l in s.inside && UpSafe(s, OfLock(l))
    case Enqueued(c) => Holds(s.holder, s.sched.current, c.lock)
    case Popping(u, c, all) => UpSafe(s, OfWaiter(u))
    case Waking(c) => c in s.conds && Holds(s.holder, s.sched.current, c.lock)
    case Boot => s.sched.current == IDLE
    case BootUp => UpSafe(s, Plain(0))
    case IdleLoop => s.sched.idleSet
    case _ => false
  }

  function At(s: State, pc: Pc): State {
    s.(pc := s.pc[s.sched.current := pc])
  }

  function Up(s: State, id: SemId): State
    requires UpSafe(s, id)
  {
    s.(sched := UpSched(s.sched, s.sems, id), sems := UpSems(s.sems, id))
  }

  /** One turn of sema_down's loop, with what follows the down if it succeeds. */
  function DownTurn(s: State, g: Goal): State
    requires DownSafe(s, g) && s.sched.current in s.sched.status
  {
    var t := s.sched.current;
    var id := Target(t, g);
    var done := s.sems[id].value > 0;
    s.(sched := DownSched(s.sched, s.sems, id),
       sems := DownSems(s.sems, id, t),
       pc := s.pc[t := if done then After(g) else Down(g, true)],
       inside := if done && id.OfLock? && id.l in s.inside
                 then s.inside[id.l := s.inside[id.l] + {t}] else s.inside)
  }

  /** lock_try_acquire up to the store of `holder`. */
  function TryAcquire(s: State, l: LockId): State
    requires DownSafe(s, ForLock(l))
  {
    if s.sems[OfLock(l)].value == 0 then s
    else s.(sems := TryDownSems(s.sems, OfLock(l)),
            pc := s.pc[s.sched.current := SetHolder(l)],
            inside := s.inside[l := s.inside[l] + {s.sched.current}])
  }

  /** The list half of cond_wait: a fresh semaphore of value 0 joins the queue. */
  function Enqueue(s: State, c: Cond): State
    requires c in s.conds
  {
    var t := s.sched.current;
    s.(sems := s.sems[OfWaiter(t) := NewSema(0)],
       conds := s.conds[c := s.conds[c] + [t]],
       sig := s.sig[t := Unsent],
       pc := s.pc[t := Enqueued(c)])
  }

  /** The list half of cond_signal. */
  function PopWaiter(s: State, c: Cond, all: bool): State
    requires c in s.conds
  {
    if s.conds[c] == [] then At(s, Free)
    else
      var u := s.conds[c][0];
      s.(conds := s.conds[c := s.conds[c][1..]],
         sig := s.sig[u := Popped(s.sched.current)],
         pc := s.pc[s.sched.current := Popping(u, c, all)])
  }

  function Apply(s: State, e: Event): State
    requires Safe(s, e)
  {
    match e
    case TimerTick => s.(sched := Tick(s.sched))
    case IntrUp(i) => Up(s, Plain(i))
    case IntrTryDown(i) => s.(sems := TryDownSems(s.sems, Plain(i)))
    case CallYield => s.(sched := Yield(s.sched))
    case CallExit => s.(sched := Exit(s.sched), pc := s.pc[s.sched.current := Gone])
    case CallCreate(u) => s.(sched := Init(s.sched, u), pc := s.pc[u := Starting][s.sched.current := Creating(u)])
    case CallSemaInit(i, value) => s.(sems := s.sems[Plain(i) := NewSema(value)])
    case CallLockInit(l) =>
      s.(sems := s.sems[OfLock(l) := NewSema(1)], holder := s.holder[l := None], inside := s.inside[l := {}])
    case CallCondInit(c) => s.(conds := s.conds[c := []])
    case CallUp(i) => Up(s, Plain(i))
    case CallTryDown(i) => s.(sems := TryDownSems(s.sems, Plain(i)))
    case CallDown(i) => DownTurn(s, ForSema(i))
    case CallAcquire(l) => DownTurn(s, ForLock(l))
    case CallTryAcquire(l) => TryAcquire(s, l)
    case CallRelease(l) => At(s.(holder := s.holder[l := None]), Releasing(l, None))
    case CallWait(c) => Enqueue(s, c)
    case CallSignal(c, all) => PopWaiter(s, c, all)
    case Continue => Resume(s, s.pc[s.sched.current])
  }

  function Resume(s: State, pc: Pc): State
    requires SafeContinue(s, pc) && s.sched.current in s.sched.status
  {
    var t := s.sched.current;
    match pc
    case Creating(u) => s.(sched := Unblock(s.sched, u), pc := s.pc[u := Free][t := Free])
    case Down(g, asleep) => DownTurn(s, g)
    case SetHolder(l) => At(s.(holder := s.holder[l := Some(t)]), Free)
    case Releasing(l, back) =>
      At(Up(s, OfLock(l)).(inside := s.inside[l := s.inside[l] - {t}]),
         if back.Some? then Down(ForSignal(back.value), false) else Free)
    case Enqueued(c) => At(s.(holder := s.holder[c.lock := None]), Releasing(c.lock, Some(c)))
    case Popping(u, c, all) =>
      At(Up(s, OfWaiter(u)).(sig := s.sig[u := Sent]), if all then Waking(c) else Free)
    case Waking(c) => PopWaiter(s, c, true)
    case Boot => At(s.(sched := s.sched.(idleSet := true)), BootUp)
    case BootUp => At(Up(s, Plain(0)), IdleLoop)
    case IdleLoop => s.(sched := Block(s.sched))
  }
}
