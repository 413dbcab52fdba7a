/** The scheduler (threads/thread.c) on one processor. A section between intr_disable and its
    restore is one step; `Schedule` is where the processor changes hands. */
module Scheduler {
  import opened Sequences

  type Tid = nat

  datatype Status = Running | Ready | Blocked | Dying

  /** TIME_SLICE */
  const SLICE: nat := 4

  /** The thread that runs init.c:main(), and the one created to run idle(). */
  const MAIN: Tid := 0
  const IDLE: Tid := 1

  /** The static variables of thread.c. `idleSet` says whether `idle_thread` has been stored
      (it is IDLE then). A thread that was freed is not in `status`; identifiers are never
      reused. */
  datatype Sched = Sched(
    status: map<Tid, Status>,
    ready: seq<Tid>,
    all: seq<Tid>,
    idleSet: bool,
    current: Tid,
    ticks: nat,
    freed: set<Tid>)

  // ---- the operations ----

  /** next_thread_to_run */
  function Next(s: Sched): Tid {
    if s.ready == [] then IDLE else s.ready[0]
  }

  /** Taking the next thread off the queue, switch_threads, and the first half of
      thread_schedule_tail. */
  function Switch(s: Sched): Sched {
    s.(current := Next(s),
       ready := if s.ready == [] then [] else s.ready[1..],
       status := s.status[Next(s) := Running],
       ticks := 0)
  }

  /** The second half of thread_schedule_tail: a dying thread is freed once it is switched from. */
  function Reap(s: Sched, prev: Tid): Sched
    requires prev in s.status
  {
    if prev != s.current && s.status[prev] == Dying && prev != MAIN then
      s.(status := s.status - {prev}, freed := s.freed + {prev})
    else s
  }

  function Schedule(s: Sched): Sched
    requires s.current in s.status
  {
    Reap(Switch(s), s.current)
  }

  /** thread_unblock */
  function Unblock(s: Sched, t: Tid): Sched
    requires t in s.status
  {
    s.(ready := s.ready + [t], status := s.status[t := Ready])
  }

  /** thread_block, up to the call of schedule() */
  function Blocking(s: Sched): Sched {
    s.(status := s.status[s.current := Blocked])
  }

  function Block(s: Sched): Sched
    requires s.current in s.status
  {
    Schedule(Blocking(s))
  }

  /** thread_yield, up to the call of schedule() */
  function Yielding(s: Sched): Sched {
    s.(ready := if s.idleSet && s.current == IDLE then s.ready else s.ready + [s.current],
       status := s.status[s.current := Ready])
  }

  function Yield(s: Sched): Sched
    requires s.current in s.status
  {
    Schedule(Yielding(s))
  }

  /** The end of thread_exit: off all_list, dying, and away. */
  function Exiting(s: Sched): Sched {
    s.(all := Without(s.all, s.current), status := s.status[s.current := Dying])
  }

  function Exit(s: Sched): Sched
    requires s.current in s.status
  {
    Schedule(Exiting(s))
  }

  /** init_thread: a new thread starts blocked. */
  function Init(s: Sched, t: Tid): Sched {
    s.(all := s.all + [t], status := s.status[t := Blocked])
  }

  /** thread_tick and the yield on return from the timer interrupt. */
  function Tick(s: Sched): Sched
    requires s.current in s.status
  {
    if s.ticks + 1 >= SLICE then Yield(s.(ticks := s.ticks + 1)) else s.(ticks := s.ticks + 1)
  }

  // ---- what every operation keeps ----

  /** Everything but the idle thread's place. */
  ghost predicate Queues(s: Sched) {
    && s.current in s.status && s.status[s.current] == Running
    && (forall t | t in s.status && t != s.current :: s.status[t] != Running)
    && Distinct(s.ready)
    && (forall t | t in s.ready :: t in s.status && s.status[t] == Ready)
    && (forall t | t in s.status && s.status[t] == Ready :: t in s.ready || (t == IDLE && s.idleSet))
    && (forall t | t in s.status && s.status[t] == Dying :: t == MAIN)
    && Distinct(s.all)
    && (forall t :: t in s.all <==> t in s.status && s.status[t] != Dying)
    && s.status.Keys !! s.freed
    && s.ticks < SLICE
  }

  /** Until idle_thread is stored, the thread that will store it runs or waits its turn, so
      an empty ready list never sends the processor to a null idle_thread. */
  ghost predicate IdlePlace(s: Sched) {
    && IDLE in s.status
    && (if s.idleSet then IDLE !in s.ready else s.current == IDLE || IDLE in s.ready)
  }

  ghost predicate Valid(s: Sched) {
    Queues(s) && IdlePlace(s)
  }

  /** What holds between the change of the current thread's status and the switch. */
  ghost predicate Switching(s: Sched) {
    && s.current in s.status
    && (forall t | t in s.status :: s.status[t] != Running)
    && Distinct(s.ready)
    && (forall t | t in s.ready :: t in s.status && s.status[t] == Ready)
    && (forall t | t in s.status && s.status[t] == Ready :: t in s.ready || (t == IDLE && s.idleSet))
    && (forall t | t in s.status && s.status[t] == Dying :: t == MAIN || t == s.current)
    && Distinct(s.all)
    && (forall t :: t in s.all <==> t in s.status && s.status[t] != Dying)
    && s.status.Keys !! s.freed
    && IDLE in s.status && (s.status[IDLE] == Dying ==> false)
    && (if s.idleSet then IDLE !in s.ready else IDLE in s.ready)
  }

  /** `Queues`, except that the thread `prev` just switched from may still be dying. */
  ghost predicate Switched(s: Sched, prev: Tid) {
    && s.current in s.status && s.status[s.current] == Running
    && (forall t | t in s.status && t != s.current :: s.status[t] != Running)
    && Distinct(s.ready)
    && (forall t | t in s.ready :: t in s.status && s.status[t] == Ready)
    && (forall t | t in s.status && s.status[t] == Ready :: t in s.ready || (t == IDLE && s.idleSet))
    && (forall t | t in s.status && s.status[t] == Dying :: t == MAIN || t == prev)
    && Distinct(s.all)
    && (forall t :: t in s.all <==> t in s.status && s.status[t] != Dying)
    && s.status.Keys !! s.freed
    && s.ticks < SLICE
  }

  lemma SwitchValid(s: Sched)
    requires Switching(s)
    ensures Switched(Switch(s), s.current) && IdlePlace(Switch(s))
  {
    if s.ready == [] {
      SwitchToIdle(s);
    } else {
      SwitchToFront(s);
    }
  }

  lemma SwitchToIdle(s: Sched)
    requires Switching(s) && s.ready == []
    ensures Switched(Switch(s), s.current) && IdlePlace(Switch(s))
  {
  }

  lemma SwitchToFront(s: Sched)
    requires Switching(s) && s.ready != []
    ensures Switched(Switch(s), s.current) && IdlePlace(Switch(s))
  {
    PoppedQueue(s.ready);
    hide Distinct;
  }

  lemma ReapValid(s: Sched, prev: Tid)
    requires prev in s.status && Switched(s, prev) && IdlePlace(s)
    requires s.status[IDLE] != Dying
    ensures Valid(Reap(s, prev))
  {
  }

  lemma ScheduleValid(s: Sched)
    requires Switching(s)
    ensures Valid(Schedule(s)) && Schedule(s).current == Next(s)
  {
    SwitchValid(s);
    ReapValid(Switch(s), s.current);
  }

  lemma UnblockValid(s: Sched, t: Tid)
    requires Valid(s) && t in s.status && s.status[t] == Blocked && !(t == IDLE && s.idleSet)
    ensures Valid(Unblock(s, t))
  {
  }

  lemma BlockValid(s: Sched)
    requires Valid(s) && (s.idleSet || s.current != IDLE)
    ensures Switching(Blocking(s)) && Valid(Block(s))
  {
    ScheduleValid(Blocking(s));
  }

  lemma YieldValid(s: Sched)
    requires s.ticks <= SLICE && Valid(s.(ticks := 0))
    ensures Switching(Yielding(s)) && Valid(Yield(s))
  {
    YieldingSwitches(s);
    hide Switching;
    hide Valid;
    hide Schedule;
    ScheduleValid(Yielding(s));
  }

  lemma YieldingSwitches(s: Sched)
    requires Valid(s.(ticks := 0))
    ensures Switching(Yielding(s))
  {
  }

  lemma FreshSlice(s: Sched)
    requires Valid(s)
    ensures Valid(s.(ticks := 0))
  {
  }

  lemma ExitValid(s: Sched)
    requires Valid(s) && s.current != IDLE
    ensures Switching(Exiting(s)) && Valid(Exit(s))
    ensures s.current != MAIN ==> s.current in Exit(s).freed
  {
    WithoutElements(s.all, s.current);
    ScheduleValid(Exiting(s));
  }

  lemma InitValid(s: Sched, t: Tid)
    requires Valid(s) && t !in s.status && t !in s.freed
    ensures Valid(Init(s, t))
  {
  }

  lemma TickValid(s: Sched)
    requires Valid(s)
    ensures Valid(Tick(s))
  {
    if s.ticks + 1 >= SLICE {
      YieldValid(s.(ticks := s.ticks + 1));
    }
  }

  // ---- runs ----

  datatype Op =
    | OpTick
    | OpYield
    | OpBlock
    | OpUnblock(t: Tid)
    | OpInit(t: Tid)
    | OpExit
    | OpStoreIdle
    | OpNone

  predicate CanDo(s: Sched, op: Op) {
    match op
    case OpBlock => s.idleSet || s.current != IDLE
    case OpUnblock(t) => t in s.status && s.status[t] == Blocked && !(t == IDLE && s.idleSet)
    case OpInit(t) => t !in s.status && t !in s.freed
    case OpExit => s.current != IDLE
    case OpStoreIdle => s.current == IDLE
    case _ => true
  }

  function Do(s: Sched, op: Op): Sched
    requires s.current in s.status && CanDo(s, op)
  {
    match op
    case OpTick => Tick(s)
    case OpYield => Yield(s)
    case OpBlock => Block(s)
    case OpUnblock(t) => Unblock(s, t)
    case OpInit(t) => Init(s, t)
    case OpExit => Exit(s)
    case OpStoreIdle => s.(idleSet := true)
    case OpNone => s
  }

  lemma DoValid(s: Sched, op: Op)
    requires Valid(s) && CanDo(s, op)
    ensures Valid(Do(s, op))
  {
    hide Valid;
    match op {
      case OpTick => TickValid(s);
      case OpYield => YieldNow(s);
      case OpBlock => BlockValid(s);
      case OpUnblock(t) => UnblockValid(s, t);
      case OpInit(t) => InitValid(s, t);
      case OpExit => ExitValid(s);
      case OpStoreIdle => StoreIdleValid(s);
      case OpNone =>
    }
  }

  lemma YieldNow(s: Sched)
    requires Valid(s)
    ensures Valid(Yield(s))
  {
    YieldValid(s);
  }

  lemma StoreIdleValid(s: Sched)
    requires Valid(s) && s.current == IDLE
    ensures Valid(s.(idleSet := true))
  {
  }

  /** Calls of schedule() the operation makes. */
  function Calls(s: Sched, op: Op): nat {
    match op
    case OpTick => if s.ticks + 1 >= SLICE then 1 else 0
    case OpYield => 1
    case OpBlock => 1
    case OpExit => 1
    case _ => 0
  }

  ghost predicate CanRun(s: Sched, ops: seq<Op>)
    decreases |ops|
  {
    s.current in s.status && (ops == [] || (CanDo(s, ops[0]) && CanRun(Do(s, ops[0]), ops[1..])))
  }

  function Run(s: Sched, ops: seq<Op>): Sched
    requires CanRun(s, ops)
    decreases |ops|
  {
    if ops == [] then s else Run(Do(s, ops[0]), ops[1..])
  }

  function TotalCalls(s: Sched, ops: seq<Op>): nat
    requires CanRun(s, ops)
    decreases |ops|
  {
    if ops == [] then 0 else Calls(s, ops[0]) + TotalCalls(Do(s, ops[0]), ops[1..])
  }

  function TotalTicks(ops: seq<Op>): nat {
    if ops == [] then 0 else (if ops[0] == OpTick then 1 else 0) + TotalTicks(ops[1..])
  }

  lemma {:induction false} RunValid(s: Sched, ops: seq<Op>)
    requires Valid(s) && CanRun(s, ops)
    ensures Valid(Run(s, ops))
    decreases |ops|
  {
    if ops != [] {
      DoValid(s, ops[0]);
      RunValid(Do(s, ops[0]), ops[1..]);
    }
  }

  /** A call of schedule() dispatches the front of the queue and moves the rest up one; no
      other operation takes anything off the queue. */
  lemma QueueMoves(s: Sched, op: Op, k: nat)
    requires Valid(s) && CanDo(s, op) && k < |s.ready|
    ensures var r := Do(s, op);
      if Calls(s, op) == 0 then k < |r.ready| && r.ready[k] == s.ready[k]
      else if k == 0 then r.current == s.ready[0]
      else k - 1 < |r.ready| && r.ready[k - 1] == s.ready[k]
  {
  }

  /** A thread waiting at position `k` is running again by the (k+1)-st call of schedule(). */
  lemma {:induction false} DispatchedWithinCalls(s: Sched, ops: seq<Op>, k: nat) returns (p: nat)
    requires Valid(s) && CanRun(s, ops) && k < |s.ready| && TotalCalls(s, ops) >= k + 1
    ensures p <= |ops| && CanRun(s, ops[..p])
    ensures Run(s, ops[..p]).current == s.ready[k] && TotalCalls(s, ops[..p]) <= k + 1
    decreases |ops|
  {
    hide Valid;
    hide Do;
    var op, rest := ops[0], ops[1..];
    DoValid(s, op);
    QueueMoves(s, op, k);
    if Calls(s, op) == 1 && k == 0 {
      p := 1;
      assert ops[..1] == [op];
    } else {
      var q := DispatchedWithinCalls(Do(s, op), rest, if Calls(s, op) == 0 then k else k - 1);
      p := q + 1;
      assert ops[..p][1..] == rest[..q];
    }
  }

  /** Every fourth tick without a switch forces one. */
  lemma {:induction false} TicksForceCalls(s: Sched, ops: seq<Op>)
    requires Valid(s) && CanRun(s, ops)
    ensures TotalTicks(ops) < SLICE * (TotalCalls(s, ops) + 1)
    ensures s.ticks + TotalTicks(ops) <= Run(s, ops).ticks + SLICE * TotalCalls(s, ops)
    decreases |ops|
  {
    if ops != [] {
      DoValid(s, ops[0]);
      TicksForceCalls(Do(s, ops[0]), ops[1..]);
    }
    RunValid(s, ops);
  }

  /** Bounded waiting: in any run with 4(k+1) timer ticks, a thread at position `k` of the
      ready list gets the processor. */
  lemma DispatchedWithinTicks(s: Sched, ops: seq<Op>, k: nat) returns (p: nat)
    requires Valid(s) && CanRun(s, ops) && k < |s.ready| && TotalTicks(ops) >= SLICE * (k + 1)
    ensures p <= |ops| && CanRun(s, ops[..p]) && Run(s, ops[..p]).current == s.ready[k]
  {
    TicksForceCalls(s, ops);
    p := DispatchedWithinCalls(s, ops, k);
  }

  // ---- whose turn it is ----

  /** Operations by which the running thread does not give the processor up itself. */
  predicate Quiet(op: Op) {
    op.OpTick? || op.OpUnblock? || op.OpInit? || op.OpNone? || op.OpStoreIdle?
  }

  /** The rest of a slice is the thread's own: while it does not give the processor up and fewer ticks
      come than its slice has left, it goes on running, and the others wait where they are. */
  lemma {:induction false} SliceLasts(s: Sched, ops: seq<Op>)
    requires Valid(s) && CanRun(s, ops) && s.ticks + TotalTicks(ops) < SLICE
    requires forall i | 0 <= i < |ops| :: Quiet(ops[i])
    ensures var r := Run(s, ops);
      r.current == s.current && r.ticks == s.ticks + TotalTicks(ops) && s.ready <= r.ready
    decreases |ops|
  {
    hide Valid;
    if ops != [] {
      assert Quiet(ops[0]);
      DoValid(s, ops[0]);
      SliceLasts(Do(s, ops[0]), ops[1..]);
    }
  }

  /** Its last tick, and thread_yield at any time, send it to the back of the line, and the front of the
      line runs with a slice of its own. */
  lemma YieldRotates(s: Sched, op: Op)
    requires Valid(s) && (op == OpYield || (op == OpTick && s.ticks == SLICE - 1)) && !(s.idleSet && s.current == IDLE)
    ensures var r, line := Do(s, op), s.ready + [s.current];
      r.current == line[0] && r.ready == line[1..] && r.ticks == 0 && r.status.Keys == s.status.Keys && r.all == s.all
  {
  }

  /** The idle thread runs only when no other can. */
  lemma IdleRunsLast(s: Sched, op: Op)
    requires Valid(s) && CanDo(s, op) && s.idleSet
    requires s.current != IDLE && Do(s, op).current == IDLE
    ensures s.ready == [] && op in {OpBlock, OpExit}
  {
  }

  /** A thread that blocks is in no line until it is unblocked. */
  lemma {:induction false} BlockedStays(s: Sched, ops: seq<Op>, t: Tid)
    requires Valid(s) && CanRun(s, ops) && t in s.status && s.status[t] == Blocked && t != IDLE
    requires OpUnblock(t) !in ops
    ensures var r := Run(s, ops); t in r.status && r.status[t] == Blocked && t !in r.ready && r.current != t
    decreases |ops|
  {
    if ops == [] {
      assert t !in s.ready;
    } else {
      DoValid(s, ops[0]);
      BlockedStep(s, ops[0], t);
      BlockedStays(Do(s, ops[0]), ops[1..], t);
    }
  }

  lemma BlockedStep(s: Sched, op: Op, t: Tid)
    requires Valid(s) && CanDo(s, op) && t in s.status && s.status[t] == Blocked && t != IDLE && op != OpUnblock(t)
    ensures var r := Do(s, op); t in r.status && r.status[t] == Blocked
  {
    assert t !in s.ready && t != s.current && s.current in s.status;
    hide Valid, Schedule;
    match op {
      case OpTick => ScheduleSpares(Yielding(s.(ticks := s.ticks + 1)), t);
      case OpYield => ScheduleSpares(Yielding(s), t);
      case OpBlock => ScheduleSpares(Blocking(s), t);
      case OpExit => ScheduleSpares(Exiting(s), t);
      case _ =>
    }
  }

  lemma ScheduleSpares(s: Sched, t: Tid)
    requires s.current in s.status && t in s.status && s.status[t] == Blocked && t !in s.ready && t != IDLE
    ensures var r := Schedule(s); t in r.status && r.status[t] == Blocked
  {
  }

  /** Between its unblocking and its turn nothing keeps a thread from the line: thread_unblock puts it at
      the end, and leaves the running thread and the others alone. */
  lemma UnblockedJoins(s: Sched, t: Tid)
    requires Valid(s) && CanDo(s, OpUnblock(t))
    ensures var r := Do(s, OpUnblock(t));
      r.ready == s.ready + [t] && r.status[t] == Ready && r.current == s.current && r.ticks == s.ticks
    ensures t !in s.ready
  {
  }
}
