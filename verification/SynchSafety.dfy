/** What every interleaving of threads and interrupts keeps, and what follows for locks and
    condition variables. */
module SynchSafety {
  import opened Options
  import opened Sequences
  import opened Scheduler
  import opened Synch
  import opened SynchWakeups

  // ---- threads ----

  predicate IdlePc(p: Pc) { p.Boot? || p.BootUp? || p.IdleLoop? }

  predicate Dead(sched: Sched, t: Tid) {
    t in sched.status ==> sched.status[t] == Dying
  }

  ghost predicate Known(sched: Sched, pc: map<Tid, Pc>) {
    && sched.status.Keys + sched.freed <= pc.Keys
    && IDLE in pc && (pc[IDLE].Boot? <==> !sched.idleSet)
    && (forall t | t in pc :: IdlePc(pc[t]) <==> t == IDLE)
    && (forall t | t in pc && pc[t].Starting? :: Blk(sched, t))
    && (forall t | t in pc :: pc[t].Gone? <==> Dead(sched, t))
    && Creators(pc)
  }

  /** A thread being created has one creator, still in thread_create. */
  ghost predicate Creators(pc: map<Tid, Pc>) {
    && (forall u | u in pc && pc[u].Creating? :: pc[u].child in pc && pc[pc[u].child].Starting?)
    && (forall u, v | u in pc && v in pc && pc[u].Creating? && pc[u] == pc[v] :: u == v)
  }

  // ---- locks ----

  /** Between the semaphore's down and the store of `holder`, or between its clearing and the up. */
  predicate InWindow(p: Pc, l: LockId) {
    p == SetHolder(l) || (p.Releasing? && p.l == l)
  }

  ghost predicate LockOk(pc: map<Tid, Pc>, value: nat, holder: Option<Tid>, inside: set<Tid>, l: LockId) {
    && value + |inside| == 1
    && (inside == {} ==> holder == None)
    && forall t | t in inside :: t in pc && holder == if InWindow(pc[t], l) then None else Some(t)
  }

  /** What a thread's place says about the locks: whether it is on its way to acquire one, and
      which one it must be holding. */
  predicate PlaceOk(sems: map<SemId, Sema>, holder: map<LockId, Option<Tid>>, inside: map<LockId, set<Tid>>,
                    t: Tid, p: Pc) {
    match p
    case Down(g, asleep) =>
      Target(t, g) in sems &&
      (match g
       case ForSema(i) => true
       case ForLock(l) => l in inside && t !in inside[l]
       case ForSignal(c) => c.lock in inside && t !in inside[c.lock]
       case ForRelock(c) => c.lock in inside && t !in inside[c.lock])
    case SetHolder(l) => l in inside && t in inside[l]
    case Releasing(l, back) => l in inside && t in inside[l] && (back.Some? ==> back.value.lock == l)
    case Enqueued(c) => Holds(holder, t, c.lock)
    case Popping(u, c, all) => Holds(holder, t, c.lock)
    case Waking(c) => Holds(holder, t, c.lock)
    case _ => true
  }

  ghost predicate Locks(pc: map<Tid, Pc>, sems: map<SemId, Sema>, holder: map<LockId, Option<Tid>>,
                        inside: map<LockId, set<Tid>>) {
    && holder.Keys == inside.Keys
    && (forall l :: OfLock(l) in sems <==> l in holder)
    && (forall l | l in holder :: LockOk(pc, sems[OfLock(l)].value, holder[l], inside[l], l))
    && (forall t | t in pc :: PlaceOk(sems, holder, inside, t, pc[t]))
    && Plain(0) in sems
  }

  // ---- condition variables ----

  /** The condition whose signal a thread in cond_wait has not yet consumed. */
  function Awaits(pc: map<Tid, Pc>, t: Tid): Option<Cond> {
    if t !in pc then None else AwaitsAt(pc[t])
  }

  function AwaitsAt(p: Pc): Option<Cond> {
    match p
    case Enqueued(c) => Some(c)
    case Releasing(l, back) => back
    case Down(g, asleep) => if g.ForSignal? then Some(g.c) else None
    case _ => None
  }

  /** The entry of waiter `t`: in the list, popped by some thread that is about to signal it, or
      signalled; its semaphore is 1 exactly in the last case. */
  predicate EntryOk(pc: map<Tid, Pc>, sems: map<SemId, Sema>, conds: map<Cond, seq<Tid>>, sig: map<Tid, Signal>,
                    t: Tid, c: Cond) {
    && c in conds && t in sig && OfWaiter(t) in sems
    && match sig[t]
       case Unsent => t in conds[c] && sems[OfWaiter(t)].value == 0
       case Popped(u) => u in pc && pc[u].Popping? && pc[u].t == t && pc[u].c == c && sems[OfWaiter(t)].value == 0
       case Sent => sems[OfWaiter(t)].value == 1
  }

  ghost predicate Conds(pc: map<Tid, Pc>, sems: map<SemId, Sema>, conds: map<Cond, seq<Tid>>, sig: map<Tid, Signal>) {
    && (forall c, t | c in conds && t in conds[c] :: Awaits(pc, t) == Some(c) && t in sig && sig[t] == Unsent)
    && (forall c | c in conds :: Distinct(conds[c]) && OfLock(c.lock) in sems)
    && (forall t | Awaits(pc, t).Some? :: EntryOk(pc, sems, conds, sig, t, Awaits(pc, t).value))
    && (forall u | u in pc && pc[u].Popping? :: PoppingOk(pc, sig, u))
    && (forall u | u in pc && pc[u].Waking? :: pc[u].c in conds)
  }

  predicate PoppingOk(pc: map<Tid, Pc>, sig: map<Tid, Signal>, u: Tid)
    requires u in pc && pc[u].Popping?
  {
    pc[u].t in sig && sig[pc[u].t] == Popped(u) && Awaits(pc, pc[u].t) == Some(pc[u].c)
  }

  ghost predicate Inv(s: State) {
    && Valid(s.sched)
    && Known(s.sched, s.pc)
    && Core(s.sched, s.pc, s.sems)
    && Locks(s.pc, s.sems, s.holder, s.inside)
    && Conds(s.pc, s.sems, s.conds, s.sig)
  }

  /** thread_start has just created the idle thread and enabled interrupts. */
  function Start(): State {
    State(Sched(map[MAIN := Running, IDLE := Ready], [IDLE], [MAIN, IDLE], false, MAIN, 0, {}),
          map[MAIN := Free, IDLE := Boot], map[Plain(0) := NewSema(0)], map[], map[], map[], map[])
  }

  lemma StartThreads()
    ensures var s := Start(); Valid(s.sched) && Known(s.sched, s.pc)
  {
  }

  lemma StartLists()
    ensures var s := Start(); Core(s.sched, s.pc, s.sems)
  {
    assert forall t :: !Blk(Start().sched, t);
  }

  lemma StartLocks()
    ensures var s := Start(); Locks(s.pc, s.sems, s.holder, s.inside) && Conds(s.pc, s.sems, s.conds, s.sig)
  {
    assert forall t :: Awaits(Start().pc, t) == None;
  }

  lemma StartInv()
    ensures Inv(Start())
  {
    hide Valid;
    hide Known;
    hide Core;
    hide Locks;
    hide Conds;
    StartThreads();
    StartLists();
    StartLocks();
  }

  // ---- no ASSERT fails ----

  lemma CurrentIsUp(s: State)
    requires Valid(s.sched) && Known(s.sched, s.pc)
    ensures var t := s.sched.current;
      t in s.pc && t in s.sched.status && !Blk(s.sched, t) && !s.pc[t].Gone? && !s.pc[t].Starting?
  {
  }

  lemma UpIsSafe(s: State, id: SemId)
    requires Valid(s.sched) && Known(s.sched, s.pc) && Core(s.sched, s.pc, s.sems) && id in s.sems
    ensures UpSafe(s, id)
  {
    if s.sems[id].waiters != [] {
      var w := s.sems[id].waiters[0];
      assert w in s.sems[id].waiters;
      assert Asleep(s.pc, w) == Some(id) && Blk(s.sched, w);
    }
  }

  lemma CallIsSafe(s: State, e: Event)
    requires Inv(s) && CallerOk(s, e) && e != Continue
    ensures Safe(s, e)
  {
    hide Valid, Core, Locks, Conds, Known, UpSafe, SafeContinue;
    CurrentIsUp(s);
    if s.pc[s.sched.current] == Free {
      FreeNotIdle(s);
    }
    match e {
      case IntrUp(i) => UpIsSafe(s, Plain(i));
      case CallUp(i) => UpIsSafe(s, Plain(i));
      case CallCreate(u) => NewNotThere(s, u);
      case CallAcquire(l) => LockFree(s, l);
      case CallTryAcquire(l) => LockFree(s, l);
      case _ =>
    }
  }

  lemma FreeNotIdle(s: State)
    requires Known(s.sched, s.pc) && s.sched.current in s.pc && s.pc[s.sched.current] == Free
    ensures s.sched.current != IDLE
  {
  }

  lemma NewNotThere(s: State, u: Tid)
    requires Known(s.sched, s.pc) && u !in s.pc
    ensures u !in s.sched.status && u !in s.sched.freed
  {
  }

  lemma LockFree(s: State, l: LockId)
    requires Inv(s) && l in s.holder && s.sched.current in s.pc && s.pc[s.sched.current] == Free
    requires s.holder[l] != Some(s.sched.current)
    ensures l in s.inside && OfLock(l) in s.sems && s.sched.current !in s.inside[l]
  {
    assert LockOk(s.pc, s.sems[OfLock(l)].value, s.holder[l], s.inside[l], l);
  }

  lemma PlaceHolds(s: State)
    requires Inv(s) && s.sched.current in s.pc
    ensures PlaceOk(s.sems, s.holder, s.inside, s.sched.current, s.pc[s.sched.current]) && Plain(0) in s.sems
    ensures var p := s.pc[s.sched.current];
      (p.SetHolder? ==> p.l in s.holder) && (p.Releasing? ==> OfLock(p.l) in s.sems)
  {
    hide Core;
    hide Valid;
    hide Known;
    hide Conds;
  }

  lemma EntryExists(s: State)
    requires Inv(s) && s.sched.current in s.pc
    ensures var p := s.pc[s.sched.current];
      (p.Popping? ==> OfWaiter(p.t) in s.sems) && (p.Waking? ==> p.c in s.conds)
  {
    hide Core;
    hide Valid;
    hide Known;
    hide Locks;
    var t := s.sched.current;
    if s.pc[t].Popping? {
      assert PoppingOk(s.pc, s.sig, t);
      assert EntryOk(s.pc, s.sems, s.conds, s.sig, s.pc[t].t, s.pc[t].c);
    }
  }

  lemma ChildWaits(s: State)
    requires Inv(s) && s.sched.current in s.pc
    ensures var p := s.pc[s.sched.current]; p.Creating? ==> CanDo(s.sched, OpUnblock(p.child))
  {
    hide Core;
    hide Valid;
    hide Conds;
    hide Locks;
  }

  lemma ContinueIsSafe(s: State)
    requires Inv(s) && CallerOk(s, Continue)
    ensures Safe(s, Continue)
  {
    hide Core;
    hide Valid;
    hide Conds;
    hide Locks;
    CurrentIsUp(s);
    var t := s.sched.current;
    PlaceHolds(s);
    EntryExists(s);
    ChildWaits(s);
    match s.pc[t] {
      case Releasing(l, back) => UpIsSafe(s, OfLock(l));
      case Popping(u, c, all) => UpIsSafe(s, OfWaiter(u));
      case BootUp => UpIsSafe(s, Plain(0));
      case _ =>
    }
  }
}
