/** Whom cond_signal and cond_broadcast (threads/synch.c) wake: the first waiter, and all of them. */
module SynchSignals {
  import opened Options
  import opened Sequences
  import opened Scheduler
  import opened Synch
  import opened SynchWakeups
  import opened SynchSafety
  import opened SynchSteps
  import opened SynchRuns
  import opened SynchTheorems

  /** Thread `t` is in a call that has yet to signal `u`: it has just taken `u` off the list, or it
      is in a broadcast and `u` is still on it. */
  predicate Owes(s: State, t: Tid, c: Cond, u: Tid) {
    && t in s.pc && c in s.conds
    && ((s.pc[t].Popping? && s.pc[t].c == c && s.pc[t].t == u)
        || (u in s.conds[c] && (s.pc[t] == Waking(c) || (s.pc[t].Popping? && s.pc[t].c == c && s.pc[t].all))))
  }

  /** Only the holder of the lock works on the list. */
  lemma OthersKeepOff(s: State, t: Tid, c: Cond)
    requires Inv(s) && t in s.pc && UsesCond(s.pc[t], c.lock) && s.sched.current in s.pc && s.sched.current != t
    ensures !UsesCond(s.pc[s.sched.current], c.lock) && !Holds(s.holder, s.sched.current, c.lock)
  {
    hide Core, Known, Valid, Conds, LockOk;
    assert PlaceOk(s.sems, s.holder, s.inside, t, s.pc[t]);
    assert PlaceOk(s.sems, s.holder, s.inside, s.sched.current, s.pc[s.sched.current]);
  }

  /** What is no step of a call leaves a call that is under way where it is, and its list alone. */
  lemma EventsLeave(s: State, e: Event, t: Tid, c: Cond)
    requires Inv(s) && CallerOk(s, e) && Safe(s, e) && e != Continue && t in s.pc && UsesCond(s.pc[t], c.lock)
    requires c in s.conds
    ensures var r := Apply(s, e); t in r.pc && r.pc[t] == s.pc[t] && c in r.conds && r.conds[c] == s.conds[c]
  {
    hide Inv, Resume, SafeContinue, Tick, Yield, Exit, Init, UpSched, UpSems, TryDownSems, DownSems, DownSched;
    if s.sched.current != t {
      OthersKeepOff(s, t, c);
    }
  }

  lemma OwesStep(s: State, e: Event, t: Tid, c: Cond, u: Tid)
    requires Inv(s) && CallerOk(s, e) && Safe(s, e) && Owes(s, t, c, u) && !SignalsTo(s, e, u)
    ensures Owes(Apply(s, e), t, c, u)
  {
    hide Inv, Apply, Safe, CallerOk;
    if e == Continue {
      OwesContinue(s, t, c, u);
    } else {
      EventsLeave(s, e, t, c);
    }
  }

  lemma OwesContinue(s: State, t: Tid, c: Cond, u: Tid)
    requires Inv(s) && CallerOk(s, Continue) && Safe(s, Continue) && Owes(s, t, c, u) && !SignalsTo(s, Continue, u)
    ensures Owes(Apply(s, Continue), t, c, u)
  {
    hide Inv, Resume, SafeContinue;
    WaiterNotStarting(s, t);
    if s.sched.current != t {
      OthersKeepOff(s, t, c);
      OthersLeave(s, t, c);
    } else {
      OwnerGoesOn(s, c, u);
    }
  }

  /** A step of another thread's call leaves thread `t` where it is, and the list it works on alone. */
  lemma OthersLeave(s: State, t: Tid, c: Cond)
    requires CallerOk(s, Continue) && Safe(s, Continue) && t in s.pc && s.sched.current != t && c in s.conds
    requires s.pc[s.sched.current].Creating? ==> s.pc[s.sched.current].child != t
    requires !UsesCond(s.pc[s.sched.current], c.lock)
    ensures var r := Apply(s, Continue); t in r.pc && r.pc[t] == s.pc[t] && c in r.conds && r.conds[c] == s.conds[c]
  {
    hide Block, UpSems, DownSems, DownSched, DownSafe;
    match s.pc[s.sched.current] {
      case Creating(u) =>
      case Popping(u, c', all) =>
      case Waking(c') =>
      case _ =>
    }
  }

  lemma OwnerGoesOn(s: State, c: Cond, u: Tid)
    requires CallerOk(s, Continue) && Safe(s, Continue) && Owes(s, s.sched.current, c, u) && !SignalsTo(s, Continue, u)
    ensures Owes(Apply(s, Continue), s.sched.current, c, u)
  {
    hide Block, UpSems, DownSems, DownSched;
  }

  /** What the call owes it pays itself. */
  lemma OwnerPays(s: State, e: Event, t: Tid, c: Cond, u: Tid)
    requires Inv(s) && Owes(s, t, c, u) && SignalsTo(s, e, u)
    ensures s.sched.current == t
  {
    hide Core, Known, Valid, Locks, EntryOk;
    assert PoppingOk(s.pc, s.sig, s.sched.current);
    if s.pc[t].Popping? {
      assert PoppingOk(s.pc, s.sig, t);
    }
    if s.sched.current != t {
      OthersKeepOff(s, t, c);
    }
  }

  lemma {:induction false} DebtIsPaid(s: State, es: seq<Event>, t: Tid, c: Cond, u: Tid) returns (p: nat)
    requires Inv(s) && Allowed(s, es) && Owes(s, t, c, u)
    requires t in AfterRun(s, es).pc && AfterRun(s, es).pc[t] == Free
    ensures p < |es| && Allowed(s, es[..p]) && SignalsTo(AfterRun(s, es[..p]), es[p], u)
    ensures AfterRun(s, es[..p]).sched.current == t
    decreases |es|
  {
    hide Inv, CallerOk, Safe, Apply;
    var e, rest := es[0], es[1..];
    StepKeeps(s, e);
    if SignalsTo(s, e, u) {
      OwnerPays(s, e, t, c, u);
      p := 0;
    } else {
      OwesStep(s, e, t, c, u);
      var k := DebtIsPaid(Apply(s, e), rest, t, c, u);
      p := k + 1;
      assert es[..p][1..] == rest[..k];
    }
  }

  lemma CallOwes(s: State, c: Cond, all: bool, u: Tid)
    requires CallerOk(s, CallSignal(c, all)) && u in s.conds[c] && (all || u == s.conds[c][0])
    ensures Owes(PopWaiter(s, c, all), s.sched.current, c, u)
  {
  }

  /** cond_broadcast signals every thread that was waiting when it was called: once its caller is
      out of the call, some step of it was the sema_up of that thread's semaphore. */
  lemma BroadcastSignalsAll(s: State, es: seq<Event>, c: Cond, u: Tid) returns (p: nat)
    requires Inv(s) && es != [] && es[0] == CallSignal(c, true) && Allowed(s, es)
    requires var r := AfterRun(s, es); s.sched.current in r.pc && r.pc[s.sched.current] == Free
    requires c in s.conds && u in s.conds[c]
    ensures 0 < p < |es| && Allowed(s, es[..p]) && SignalsTo(AfterRun(s, es[..p]), es[p], u)
    ensures AfterRun(s, es[..p]).sched.current == s.sched.current
  {
    p := CallSignals(s, es, c, true, u);
  }

  /** cond_signal signals the thread that has waited longest, if any waits. */
  lemma SignalSignalsFirst(s: State, es: seq<Event>, c: Cond) returns (p: nat)
    requires Inv(s) && es != [] && es[0] == CallSignal(c, false) && Allowed(s, es)
    requires var r := AfterRun(s, es); s.sched.current in r.pc && r.pc[s.sched.current] == Free
    requires c in s.conds && s.conds[c] != []
    ensures 0 < p < |es| && Allowed(s, es[..p]) && SignalsTo(AfterRun(s, es[..p]), es[p], s.conds[c][0])
    ensures AfterRun(s, es[..p]).sched.current == s.sched.current
  {
    p := CallSignals(s, es, c, false, s.conds[c][0]);
  }

  lemma SignalIs(s: State, c: Cond, all: bool)
    requires Safe(s, CallSignal(c, all))
    ensures c in s.conds && Apply(s, CallSignal(c, all)) == PopWaiter(s, c, all)
  {
  }

  lemma CallSignals(s: State, es: seq<Event>, c: Cond, all: bool, u: Tid) returns (p: nat)
    requires Inv(s) && es != [] && es[0] == CallSignal(c, all) && Allowed(s, es)
    requires var r := AfterRun(s, es); s.sched.current in r.pc && r.pc[s.sched.current] == Free
    requires c in s.conds && u in s.conds[c] && (all || u == s.conds[c][0])
    ensures 0 < p < |es| && Allowed(s, es[..p]) && SignalsTo(AfterRun(s, es[..p]), es[p], u)
    ensures AfterRun(s, es[..p]).sched.current == s.sched.current
  {
    hide Inv, Safe, CallerOk, Apply, Owes, SignalsTo;
    StepKeeps(s, es[0]);
    CallOwes(s, c, all, u);
    SignalIs(s, c, all);
    var k := DebtIsPaid(Apply(s, es[0]), es[1..], s.sched.current, c, u);
    p := k + 1;
    assert es[..p][1..] == es[1..][..k];
  }

  // ---- and nobody else ----

  /** Thread `t` is in a call on `c` that has only threads of `who` left to signal. */
  ghost predicate Spends(s: State, t: Tid, c: Cond, all: bool, who: set<Tid>) {
    && t in s.pc && c in s.conds
    && ((s.pc[t].Popping? && s.pc[t].c == c && s.pc[t].all == all && s.pc[t].t in who) || (all && s.pc[t] == Waking(c)))
    && (all ==> forall u | u in s.conds[c] :: u in who)
  }

  lemma SpendsStep(s: State, e: Event, t: Tid, c: Cond, all: bool, who: set<Tid>)
    requires Inv(s) && CallerOk(s, e) && Safe(s, e) && Spends(s, t, c, all, who)
    ensures var r := Apply(s, e); Spends(r, t, c, all, who) || (t in r.pc && r.pc[t] == Free)
  {
    hide Inv, Apply, Safe, CallerOk;
    if e == Continue {
      SpendsContinue(s, t, c, all, who);
    } else {
      EventsLeave(s, e, t, c);
    }
  }

  lemma SpendsContinue(s: State, t: Tid, c: Cond, all: bool, who: set<Tid>)
    requires Inv(s) && CallerOk(s, Continue) && Safe(s, Continue) && Spends(s, t, c, all, who)
    ensures var r := Apply(s, Continue); Spends(r, t, c, all, who) || (t in r.pc && r.pc[t] == Free)
  {
    hide Inv, Resume, SafeContinue;
    WaiterNotStarting(s, t);
    if s.sched.current != t {
      OthersKeepOff(s, t, c);
      OthersLeave(s, t, c);
    } else {
      OwnerSpends(s, c, all, who);
    }
  }

  lemma OwnerSpends(s: State, c: Cond, all: bool, who: set<Tid>)
    requires CallerOk(s, Continue) && Safe(s, Continue) && Spends(s, s.sched.current, c, all, who)
    ensures var r, t := Apply(s, Continue), s.sched.current; Spends(r, t, c, all, who) || (t in r.pc && r.pc[t] == Free)
  {
    hide Block, UpSems, DownSems, DownSched;
  }

  /** Thread `t` stays in the call all along. */
  ghost predicate InCall(s: State, es: seq<Event>, t: Tid)
    requires Inv(s) && Allowed(s, es)
    decreases |es|
  {
    t in s.pc && s.pc[t] != Free && (es == [] || (StepKeeps(s, es[0]); InCall(Apply(s, es[0]), es[1..], t)))
  }

  lemma {:induction false} StillSpends(s: State, es: seq<Event>, t: Tid, c: Cond, all: bool, who: set<Tid>)
    requires Inv(s) && Allowed(s, es) && InCall(s, es, t) && Spends(s, t, c, all, who)
    ensures Spends(AfterRun(s, es), t, c, all, who)
    decreases |es|
  {
    hide Inv, CallerOk, Safe, Apply, Spends;
    if es != [] {
      StepKeeps(s, es[0]);
      SpendsStep(s, es[0], t, c, all, who);
      StillSpends(Apply(s, es[0]), es[1..], t, c, all, who);
    }
  }

  /** A call signals no thread but those that were waiting when it was made, and cond_signal none but
      the first of them. */
  lemma SignalsNoOthers(s: State, es: seq<Event>, c: Cond, all: bool, u: Tid)
    requires Inv(s) && CallerOk(s, CallSignal(c, all)) && Safe(s, CallSignal(c, all))
    requires var s1 := Apply(s, CallSignal(c, all)); Inv(s1) && Allowed(s1, es) && InCall(s1, es, s.sched.current)
    requires var r := AfterRun(Apply(s, CallSignal(c, all)), es);
      r.sched.current == s.sched.current && SignalsTo(r, Continue, u)
    ensures c in s.conds && u in s.conds[c] && (all || u == s.conds[c][0])
  {
    hide Inv, Resume, SafeContinue, Allowed;
    var who := if all then set v | v in s.conds[c] else if s.conds[c] == [] then {} else {s.conds[c][0]};
    FirstSpends(s, c, all, who);
    StillSpends(Apply(s, CallSignal(c, all)), es, s.sched.current, c, all, who);
  }

  lemma FirstSpends(s: State, c: Cond, all: bool, who: set<Tid>)
    requires CallerOk(s, CallSignal(c, all))
    requires who == if all then set v | v in s.conds[c] else if s.conds[c] == [] then {} else {s.conds[c][0]}
    ensures var r, t := PopWaiter(s, c, all), s.sched.current;
      Spends(r, t, c, all, who) || (t in r.pc && r.pc[t] == Free)
  {
  }

  /** If no thread waits, nothing happens. */
  lemma NobodyWaits(s: State, c: Cond, all: bool)
    requires CallerOk(s, CallSignal(c, all)) && Safe(s, CallSignal(c, all)) && s.conds[c] == []
    ensures Apply(s, CallSignal(c, all)) == s
  {
  }
}
