/** Wait lists over every interleaving: who is on which list, what a semaphore's value adds up
    to, and that no wakeup is lost. */
module SynchWakeups {
  import opened Options
  import opened Sequences
  import opened Scheduler
  import opened Synch

  predicate Blk(sched: Sched, t: Tid) {
    t in sched.status && sched.status[t] == Blocked
  }

  /** The semaphore in whose sema_down loop a thread is, if it has blocked there. */
  function Asleep(pc: map<Tid, Pc>, t: Tid): Option<SemId> {
    if t in pc && pc[t].Down? && pc[t].asleep then Some(Target(t, pc[t].goal)) else None
  }

  /** Threads that block without being on a semaphore's list. */
  predicate OffList(pc: map<Tid, Pc>, t: Tid) {
    t in pc && (pc[t].Starting? || pc[t].IdleLoop?)
  }

  /** Threads taken off a semaphore's list that have not yet looked at its value again. */
  ghost function Woken(sched: Sched, pc: map<Tid, Pc>, id: SemId): set<Tid> {
    set t | t in pc && Asleep(pc, t) == Some(id) && !Blk(sched, t)
  }

  ghost predicate Lists(sched: Sched, pc: map<Tid, Pc>, sems: map<SemId, Sema>) {
    && (forall id, t | id in sems && t in sems[id].waiters :: Asleep(pc, t) == Some(id) && Blk(sched, t))
    && (forall t | Blk(sched, t) :: OffList(pc, t) || OnList(pc, sems, t))
    && (forall id | id in sems :: Distinct(sems[id].waiters))
  }

  predicate OnList(pc: map<Tid, Pc>, sems: map<SemId, Sema>, t: Tid) {
    var id := Asleep(pc, t);
    id.Some? && id.value in sems && t in sems[id.value].waiters
  }

  predicate CountOk(m: Sema) {
    m.value + m.downs == m.initial + m.ups
  }

  ghost predicate Counts(sems: map<SemId, Sema>) {
    forall id | id in sems :: CountOk(sems[id])
  }

  ghost predicate Wakeups(sched: Sched, pc: map<Tid, Pc>, sems: map<SemId, Sema>) {
    forall id | id in sems && sems[id].waiters != [] :: sems[id].value <= |Woken(sched, pc, id)|
  }

  ghost predicate Core(sched: Sched, pc: map<Tid, Pc>, sems: map<SemId, Sema>) {
    Lists(sched, pc, sems) && Counts(sems) && Wakeups(sched, pc, sems)
  }

  /** Steps that touch no semaphore. */
  lemma SchedulingKeeps(sched: Sched, pc: map<Tid, Pc>, sched': Sched, pc': map<Tid, Pc>, sems: map<SemId, Sema>)
    requires Core(sched, pc, sems)
    requires forall t :: Asleep(pc, t) == Asleep(pc', t)
    requires forall t | Blk(sched', t) :: OffList(pc', t) || (Blk(sched, t) && !OffList(pc, t))
    requires forall t | Blk(sched, t) :: OffList(pc, t) || Blk(sched', t)
    ensures Core(sched', pc', sems)
  {
    forall id | id in sems && sems[id].waiters != []
      ensures sems[id].value <= |Woken(sched', pc', id)|
    {
      assert forall t | OffList(pc, t) || OffList(pc', t) :: Asleep(pc, t) == None;
      assert Woken(sched', pc', id) == Woken(sched, pc, id);
    }
  }

  lemma PopKeepsLists(sched: Sched, pc: map<Tid, Pc>, sems: map<SemId, Sema>, id: SemId)
    requires Lists(sched, pc, sems) && id in sems && sems[id].waiters != []
    requires sems[id].waiters[0] in sched.status
    ensures Lists(UpSched(sched, sems, id), pc, UpSems(sems, id))
  {
    var w := sems[id].waiters;
    PoppedQueue(w);
    var sched', sems' := UpSched(sched, sems, id), UpSems(sems, id);
    forall k, t | k in sems' && t in sems'[k].waiters
      ensures Asleep(pc, t) == Some(k) && Blk(sched', t)
    {
      assert t in sems[k].waiters;
      assert Asleep(pc, t) == Some(k) && Asleep(pc, w[0]) == Some(id);
    }
    forall t | Blk(sched', t)
      ensures OffList(pc, t) || OnList(pc, sems', t)
    {
      assert Blk(sched, t);
    }
  }

  lemma UpKeeps(sched: Sched, pc: map<Tid, Pc>, sems: map<SemId, Sema>, id: SemId)
    requires Core(sched, pc, sems) && id in sems
    requires sems[id].waiters != [] ==> sems[id].waiters[0] in sched.status
    ensures Core(UpSched(sched, sems, id), pc, UpSems(sems, id))
  {
    var sched', sems' := UpSched(sched, sems, id), UpSems(sems, id);
    if sems[id].waiters != [] {
      PopKeepsLists(sched, pc, sems, id);
      PopWakes(sched, pc, sems, id);
    }
  }

  lemma PopWakes(sched: Sched, pc: map<Tid, Pc>, sems: map<SemId, Sema>, id: SemId)
    requires Core(sched, pc, sems) && id in sems
    requires sems[id].waiters != [] && sems[id].waiters[0] in sched.status
    ensures Wakeups(UpSched(sched, sems, id), pc, UpSems(sems, id))
  {
    var sched', sems' := UpSched(sched, sems, id), UpSems(sems, id);
    var w := sems[id].waiters[0];
    assert w in sems[id].waiters;
    assert Asleep(pc, w) == Some(id) && Blk(sched, w);
    forall k | k in sems' && sems'[k].waiters != []
      ensures sems'[k].value <= |Woken(sched', pc, k)|
    {
      if k == id {
        assert Woken(sched', pc, id) == Woken(sched, pc, id) + {w};
      } else {
        assert Woken(sched', pc, k) == Woken(sched, pc, k);
      }
    }
  }

  /** A successful down, from outside the loop or from inside it. */
  lemma DownKeeps(sched: Sched, pc: map<Tid, Pc>, sems: map<SemId, Sema>, id: SemId, t: Tid, p: Pc)
    requires Core(sched, pc, sems) && id in sems && sems[id].value > 0
    requires t in pc && !Blk(sched, t)
    requires Asleep(pc, t) == None || Asleep(pc, t) == Some(id)
    requires InterruptsOn(p)
    ensures Core(sched, pc[t := p], TryDownSems(sems, id))
  {
    var pc', sems' := pc[t := p], TryDownSems(sems, id);
    forall k | k in sems' && sems'[k].waiters != []
      ensures sems'[k].value <= |Woken(sched, pc', k)|
    {
      if Asleep(pc, t) == Some(k) {
        assert Woken(sched, pc', k) == Woken(sched, pc, k) - {t};
      } else {
        assert Woken(sched, pc', k) == Woken(sched, pc, k);
      }
    }
    DownKeepsLists(sched, pc, sems, id, t, p);
  }

  lemma DownKeepsLists(sched: Sched, pc: map<Tid, Pc>, sems: map<SemId, Sema>, id: SemId, t: Tid, p: Pc)
    requires Lists(sched, pc, sems) && id in sems && sems[id].value > 0
    requires t in pc && !Blk(sched, t)
    ensures Lists(sched, pc[t := p], TryDownSems(sems, id))
  {
    var pc', sems' := pc[t := p], TryDownSems(sems, id);
    forall k, u | k in sems' && u in sems'[k].waiters
      ensures Asleep(pc', u) == Some(k) && Blk(sched, u)
    {
      assert u in sems[k].waiters;
      assert Asleep(pc, u) == Some(k);
    }
    forall u | Blk(sched, u) ensures OffList(pc', u) || OnList(pc', sems', u) {
      assert OffList(pc, u) || OnList(pc, sems, u);
    }
  }

  /** A down that finds 0: the thread joins the list and blocks. */
  lemma SleepKeeps(sched: Sched, sched': Sched, pc: map<Tid, Pc>, sems: map<SemId, Sema>, id: SemId, g: Goal, t: Tid)
    requires Core(sched, pc, sems) && id in sems && sems[id].value == 0 && id == Target(t, g)
    requires t in pc && !Blk(sched, t) && !OffList(pc, t)
    requires Asleep(pc, t) == None || Asleep(pc, t) == Some(id)
    requires forall u | Blk(sched', u) :: Blk(sched, u) || u == t
    requires forall u | Blk(sched, u) || u == t :: Blk(sched', u) || OffList(pc, u)
    ensures Core(sched', pc[t := Down(g, true)], DownSems(sems, id, t))
  {
    SleepKeepsLists(sched, sched', pc, sems, id, g, t);
    var pc', sems' := pc[t := Down(g, true)], DownSems(sems, id, t);
    forall k | k in sems' && sems'[k].waiters != []
      ensures sems'[k].value <= |Woken(sched', pc', k)|
    {
      if k != id {
        assert forall u | OffList(pc, u) :: Asleep(pc, u) == None;
        assert Woken(sched', pc', k) == Woken(sched, pc, k);
      }
    }
  }

  lemma SleepKeepsLists(sched: Sched, sched': Sched, pc: map<Tid, Pc>, sems: map<SemId, Sema>, id: SemId, g: Goal,
                        t: Tid)
    requires Lists(sched, pc, sems) && id in sems && sems[id].value == 0 && id == Target(t, g)
    requires t in pc && !Blk(sched, t) && !OffList(pc, t)
    requires forall u | Blk(sched', u) :: Blk(sched, u) || u == t
    requires forall u | Blk(sched, u) || u == t :: Blk(sched', u) || OffList(pc, u)
    ensures Lists(sched', pc[t := Down(g, true)], DownSems(sems, id, t))
  {
    var pc', sems' := pc[t := Down(g, true)], DownSems(sems, id, t);
    forall k, u | k in sems' && u in sems'[k].waiters
      ensures Asleep(pc', u) == Some(k) && Blk(sched', u)
    {
      if u != t || k != id {
        assert u in sems[k].waiters;
        assert Asleep(pc, u) == Some(k);
      }
    }
    forall u | Blk(sched', u) ensures OffList(pc', u) || OnList(pc', sems', u) {
      if u == t {
        assert sems'[id].waiters[|sems[id].waiters|] == t;
      } else {
        assert OffList(pc, u) || OnList(pc, sems, u);
        assert sems[id].waiters <= sems'[id].waiters;
      }
    }
  }

  /** sema_init. */
  lemma InitKeeps(sched: Sched, pc: map<Tid, Pc>, sems: map<SemId, Sema>, id: SemId, value: nat)
    requires Core(sched, pc, sems)
    requires forall t | Blk(sched, t) :: Asleep(pc, t) != Some(id)
    ensures Core(sched, pc, sems[id := NewSema(value)])
  {
    var sems' := sems[id := NewSema(value)];
    forall t | Blk(sched, t) ensures OffList(pc, t) || OnList(pc, sems', t) {
      assert OffList(pc, t) || OnList(pc, sems, t);
    }
  }
}
