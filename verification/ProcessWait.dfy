/** Parents, children and exit (userprog/process.c, threads/thread.c with USERPROG): every step may
    be interleaved with those of other threads. */
module ProcessWait {
  import opened Options
  import opened Sequences

  type Tid = nat

  /** The initial thread is its own parent. */
  const MAIN: Tid := 0

  /** Where a thread is. */
  datatype Pc =
    | Embryo                            // thread_create has not yet unblocked it
    | Running
    | Linking(child: Tid)               // thread_create, before the child joins child_list
    | Launching(child: Tid)             // thread_create, before thread_unblock
    | Waiting(child: Tid)               // process_wait, at the test of ready_to_exit
    | Reading(child: Tid)               // process_wait, before reading exit_status
    | Removing(child: Tid, status: int) // process_wait, before list_remove
    | Marking(child: Tid, status: int)  // process_wait, before setting deleted_from_parent
    | Exiting                           // thread_exit, at the test of deleted_from_parent
    | Dying                             // past it

  /** The fields of struct thread that matter here. */
  datatype Thread = Thread(parent: Tid, children: seq<Tid>, readyToExit: bool, deleted: bool, exitStatus: int, pc: Pc)

  /** A call of process_wait by `t` on `u` that has returned. */
  datatype Return = Return(t: Tid, u: Tid, value: int)

  /** `threads` remembers every thread there ever was; `freed` are those whose page has been given
      back; `reaped` records the status that was handed over for each child, and `returned` the calls
      of process_wait that have returned. */
  datatype State = State(threads: map<Tid, Thread>, freed: set<Tid>, reaped: map<Tid, int>, returned: seq<Return>)

  datatype Event =
    | Create(t: Tid, u: Tid)
    | Wait(t: Tid, u: Tid)
    | SetStatus(t: Tid, status: int)
    | Exit(t: Tid)
    | Step(t: Tid)
    | Free(t: Tid)        // thread_schedule_tail of the next thread

  predicate Enabled(s: State, e: Event) {
    match e
    case Create(t, u) => t in s.threads && s.threads[t].pc == Running && u !in s.threads
    case Wait(t, u) => t in s.threads && s.threads[t].pc == Running
    case SetStatus(t, status) => t in s.threads && s.threads[t].pc == Running
    case Exit(t) => t in s.threads && s.threads[t].pc == Running
    case Step(t) => t in s.threads && StepReady(s, s.threads[t])
    case Free(t) => t in s.threads && s.threads[t].pc == Dying && t !in s.freed && t != MAIN
  }

  /** A step that is not a turn of a waiting loop, and that has its child to look at. */
  predicate StepReady(s: State, th: Thread) {
    match th.pc
    case Linking(u) => u in s.threads
    case Launching(u) => u in s.threads
    case Waiting(u) => u in s.threads && s.threads[u].readyToExit
    case Reading(u) => u in s.threads
    case Removing(u, status) => true
    case Marking(u, status) => u in s.threads
    case Exiting => th.deleted
    case _ => false
  }

  function At(s: State, t: Tid, pc: Pc): State
    requires t in s.threads
  {
    s.(threads := s.threads[t := s.threads[t].(pc := pc)])
  }

  function Apply(s: State, e: Event): State
    requires Enabled(s, e)
  {
    match e
    case Create(t, u) =>
      At(s.(threads := s.threads[u := Thread(t, [], false, false, 0, Embryo)]), t, Linking(u))
    case Wait(t, u) =>
      if u in s.threads[t].children then At(s, t, Waiting(u)) else s.(returned := s.returned + [Return(t, u, -1)])
    case SetStatus(t, status) => s.(threads := s.threads[t := s.threads[t].(exitStatus := status)])
    case Exit(t) => s.(threads := s.threads[t := s.threads[t].(readyToExit := true, pc := Exiting)])
    case Step(t) => Advance(s, t, s.threads[t])
    case Free(t) => s.(freed := s.freed + {t})
  }

  function Advance(s: State, t: Tid, th: Thread): State
    requires t in s.threads && StepReady(s, th)
  {
    match th.pc
    case Linking(u) => s.(threads := s.threads[t := th.(children := th.children + [u], pc := Launching(u))])
    case Launching(u) =>
      s.(threads := s.threads[u := s.threads[u].(pc := Running)][t := th.(pc := Running)])
    case Waiting(u) => At(s, t, Reading(u))
    case Reading(u) => At(s, t, Removing(u, s.threads[u].exitStatus))
    case Removing(u, status) =>
      s.(threads := s.threads[t := th.(children := Without(th.children, u), pc := Marking(u, status))])
    case Marking(u, status) =>
      State(s.threads[u := s.threads[u].(deleted := true)][t := th.(pc := Running)], s.freed, s.reaped[u := status],
            s.returned + [Return(t, u, status)])
    case Exiting => At(s, t, Dying)
    case _ => s
  }

  // ---- what every interleaving keeps ----

  ghost predicate ThreadOk(reaped: map<Tid, int>, u: Tid, th: Thread) {
    && Distinct(th.children)
    && (th.readyToExit <==> th.pc.Exiting? || th.pc.Dying?)
    && (th.pc.Dying? ==> th.deleted) && (th.deleted ==> th.readyToExit)
    && (th.deleted <==> u in reaped)
    && (u in reaped ==> reaped[u] == th.exitStatus)
  }

  /** A thread `u` on the list of `t`, which is at `pc`. */
  predicate ChildOk(pc: Pc, t: Tid, u: Tid, child: Thread) {
    && child.parent == t && !child.deleted && pc != Linking(u)
    && (child.pc.Embryo? ==> pc == Launching(u))
  }

  /** What a parent in the middle of process_wait or thread_create may rely on. */
  predicate PlaceOk(threads: map<Tid, Thread>, t: Tid, th: Thread) {
    match th.pc
    case Linking(u) => u !in th.children && u in threads && threads[u].pc == Embryo && threads[u].parent == t
    case Launching(u) => u in th.children && u in threads && threads[u].pc == Embryo
    case Waiting(u) => u in th.children
    case Reading(u) => u in th.children && u in threads && threads[u].readyToExit
    case Removing(u, status) =>
      u in th.children && u in threads && threads[u].readyToExit && threads[u].exitStatus == status
    case Marking(u, status) =>
      && u != t && u !in th.children && u in threads && threads[u].parent == t
      && threads[u].readyToExit && !threads[u].deleted && threads[u].exitStatus == status
    case _ => true
  }

  ghost predicate Threads(threads: map<Tid, Thread>, reaped: map<Tid, int>) {
    && (forall u | u in threads :: ThreadOk(reaped, u, threads[u]))
    && (forall u | u in reaped :: u in threads)
  }

  ghost predicate Families(threads: map<Tid, Thread>) {
    forall t, u | t in threads && u in threads[t].children :: u in threads && ChildOk(threads[t].pc, t, u, threads[u])
  }

  ghost predicate Places(threads: map<Tid, Thread>) {
    forall t | t in threads :: PlaceOk(threads, t, threads[t])
  }

  ghost predicate Gone(threads: map<Tid, Thread>, freed: set<Tid>) {
    forall u | u in freed :: u in threads && threads[u].pc == Dying
  }

  ghost predicate Inv(s: State) {
    Threads(s.threads, s.reaped) && Families(s.threads) && Places(s.threads) && Gone(s.threads, s.freed)
  }

  /** thread_init */
  function Start(): State {
    State(map[MAIN := Thread(MAIN, [MAIN], false, false, 0, Running)], {}, map[], [])
  }

  lemma StartInv()
    ensures Inv(Start())
  {
  }

  // ---- steps ----

  /** A change to one thread: what has to hold of it, as a parent, as a child, and for those that
      rely on it. */
  lemma OneChanges(threads: map<Tid, Thread>, t: Tid, th: Thread)
    requires Families(threads) && Places(threads)
    requires forall u | u in th.children && u != t :: u in threads && ChildOk(th.pc, t, u, threads[u])
    requires t in th.children ==> ChildOk(th.pc, t, t, th)
    requires t in threads ==> Compatible(threads[t], th)
    requires t in threads && threads[t].pc.Embryo? ==> th.pc.Embryo?
    requires th.pc.Embryo? ==> t !in threads || threads[t].pc.Embryo?
    requires t !in threads ==> forall p | p in threads :: t !in threads[p].children
    requires PlaceOk(threads[t := th], t, th)
    ensures Families(threads[t := th]) && Places(threads[t := th])
  {
    ChildrenAfter(threads, t, th);
    PlacesAfter(threads, t, th);
  }

  /** What the others may rely on has not changed. */
  predicate Compatible(before: Thread, after: Thread) {
    && after.parent == before.parent && after.deleted == before.deleted
    && (before.readyToExit ==> after.readyToExit && after.exitStatus == before.exitStatus)
  }

  lemma ChildrenAfter(threads: map<Tid, Thread>, t: Tid, th: Thread)
    requires Families(threads)
    requires forall u | u in th.children && u != t :: u in threads && ChildOk(th.pc, t, u, threads[u])
    requires t in th.children ==> ChildOk(th.pc, t, t, th)
    requires t in threads ==> Compatible(threads[t], th)
    requires th.pc.Embryo? ==> t !in threads || threads[t].pc.Embryo?
    requires t !in threads ==> forall p | p in threads :: t !in threads[p].children
    ensures Families(threads[t := th])
  {
    var after := threads[t := th];
    forall p, u | p in after && u in after[p].children ensures u in after && ChildOk(after[p].pc, p, u, after[u]) {
      if p != t {
        assert ChildOk(threads[p].pc, p, u, threads[u]);
      }
    }
  }

  lemma PlacesAfter(threads: map<Tid, Thread>, t: Tid, th: Thread)
    requires Places(threads)
    requires t in threads ==> Compatible(threads[t], th)
    requires t in threads && threads[t].pc.Embryo? ==> th.pc.Embryo?
    requires PlaceOk(threads[t := th], t, th)
    ensures Places(threads[t := th])
  {
    var after := threads[t := th];
    forall p | p in after ensures PlaceOk(after, p, after[p]) {
      if p != t {
        assert PlaceOk(threads, p, threads[p]);
      }
    }
  }

  /** One thread takes a step that changes nothing the others rely on. */
  lemma MoveKeeps(s: State, t: Tid, th: Thread)
    requires Inv(s) && t in s.threads && s.threads[t].pc != Embryo && s.threads[t].pc != Dying && th.pc != Embryo
    requires Compatible(s.threads[t], th) && ThreadOk(s.reaped, t, th) && PlaceOk(s.threads[t := th], t, th)
    requires forall u | u in th.children && u != t :: u in s.threads && ChildOk(th.pc, t, u, s.threads[u])
    requires t in th.children ==> ChildOk(th.pc, t, t, th)
    ensures Inv(s.(threads := s.threads[t := th]))
  {
    hide ThreadOk, ChildOk, PlaceOk;
    OneChanges(s.threads, t, th);
  }

  lemma KnownThread(s: State, t: Tid)
    requires Inv(s) && t in s.threads
    ensures ThreadOk(s.reaped, t, s.threads[t]) && PlaceOk(s.threads, t, s.threads[t])
    ensures forall u | u in s.threads[t].children :: u in s.threads && ChildOk(s.threads[t].pc, t, u, s.threads[u])
  {
    hide ThreadOk, ChildOk, PlaceOk;
  }

  lemma CreateKeeps(s: State, t: Tid, u: Tid)
    requires Inv(s) && Enabled(s, Create(t, u))
    ensures Inv(Apply(s, Create(t, u)))
  {
    hide Families, Places;
    KnownThread(s, t);
    var child := Thread(t, [], false, false, 0, Embryo);
    NotAChild(s, u);
    OneChanges(s.threads, u, child);
    var mid := s.threads[u := child];
    OneChanges(mid, t, mid[t].(pc := Linking(u)));
  }

  lemma NotAChild(s: State, u: Tid)
    requires Inv(s) && u !in s.threads
    ensures forall p | p in s.threads :: u !in s.threads[p].children
  {
    hide ThreadOk, PlaceOk;
  }

  lemma WaitKeeps(s: State, t: Tid, u: Tid)
    requires Inv(s) && Enabled(s, Wait(t, u))
    ensures Inv(Apply(s, Wait(t, u)))
  {
    hide Inv;
    KnownThread(s, t);
    if u in s.threads[t].children {
      MoveKeeps(s, t, s.threads[t].(pc := Waiting(u)));
    } else {
      ReturnKeeps(s, Return(t, u, -1));
    }
  }

  lemma ReturnKeeps(s: State, x: Return)
    requires Inv(s)
    ensures Inv(s.(returned := s.returned + [x]))
  {
  }

  lemma StatusKeeps(s: State, t: Tid, status: int)
    requires Inv(s) && Enabled(s, SetStatus(t, status))
    ensures Inv(Apply(s, SetStatus(t, status)))
  {
    hide Inv;
    KnownThread(s, t);
    MoveKeeps(s, t, s.threads[t].(exitStatus := status));
  }

  lemma ExitKeeps(s: State, t: Tid)
    requires Inv(s) && Enabled(s, Exit(t))
    ensures Inv(Apply(s, Exit(t)))
  {
    hide Inv;
    KnownThread(s, t);
    MoveKeeps(s, t, s.threads[t].(readyToExit := true, pc := Exiting));
  }

  lemma FreeKeeps(s: State, t: Tid)
    requires Inv(s) && Enabled(s, Free(t))
    ensures Inv(Apply(s, Free(t)))
  {
  }

  lemma LinkKeeps(s: State, t: Tid, u: Tid)
    requires Inv(s) && t in s.threads && s.threads[t].pc == Linking(u)
    ensures u in s.threads && Inv(Advance(s, t, s.threads[t]))
  {
    hide Inv;
    KnownThread(s, t);
    KnownThread(s, u);
    var th := s.threads[t];
    MoveKeeps(s, t, th.(children := th.children + [u], pc := Launching(u)));
  }

  lemma LaunchKeeps(s: State, t: Tid, u: Tid)
    requires Inv(s) && t in s.threads && s.threads[t].pc == Launching(u)
    ensures u in s.threads && Inv(Advance(s, t, s.threads[t]))
  {
    KnownThread(s, t);
    OnlyParent(s, t, u);
    var r := Advance(s, t, s.threads[t]);
    LaunchFamilies(s, t, u);
    LaunchPlaces(s, t, u);
  }

  lemma OnlyParent(s: State, t: Tid, u: Tid)
    requires Inv(s) && t in s.threads && u in s.threads[t].children
    ensures u in s.threads && forall p | p in s.threads && u in s.threads[p].children :: p == t
  {
    hide ThreadOk, PlaceOk;
    assert ChildOk(s.threads[t].pc, t, u, s.threads[u]);
    forall p | p in s.threads && u in s.threads[p].children ensures p == t {
      assert ChildOk(s.threads[p].pc, p, u, s.threads[u]);
    }
  }

  lemma LaunchFamilies(s: State, t: Tid, u: Tid)
    requires Inv(s) && t in s.threads && s.threads[t].pc == Launching(u) && u in s.threads && u != t
    requires forall p | p in s.threads && u in s.threads[p].children :: p == t
    requires s.threads[u].pc == Embryo
    ensures Families(Advance(s, t, s.threads[t]).threads)
  {
    hide ThreadOk, PlaceOk;
    var r := Advance(s, t, s.threads[t]).threads;
    forall p, c | p in r && c in r[p].children ensures c in r && ChildOk(r[p].pc, p, c, r[c]) {
      assert ChildOk(s.threads[p].pc, p, c, s.threads[c]);
    }
  }

  lemma LaunchPlaces(s: State, t: Tid, u: Tid)
    requires Inv(s) && t in s.threads && s.threads[t].pc == Launching(u) && u in s.threads && u != t
    requires forall p | p in s.threads && u in s.threads[p].children :: p == t
    ensures Places(Advance(s, t, s.threads[t]).threads)
  {
    hide ThreadOk;
    var r := Advance(s, t, s.threads[t]).threads;
    forall p | p in r ensures PlaceOk(r, p, r[p]) {
      assert PlaceOk(s.threads, p, s.threads[p]);
    }
  }

  lemma WaitEnds(s: State, t: Tid)
    requires Inv(s) && t in s.threads && StepReady(s, s.threads[t])
    requires s.threads[t].pc.Waiting? || s.threads[t].pc.Reading? || s.threads[t].pc.Exiting?
    ensures Inv(Advance(s, t, s.threads[t]))
  {
    hide Inv;
    KnownThread(s, t);
    MoveKeeps(s, t, Advance(s, t, s.threads[t]).threads[t]);
  }

  lemma RemoveKeeps(s: State, t: Tid, u: Tid, status: int)
    requires Inv(s) && t in s.threads && s.threads[t].pc == Removing(u, status)
    ensures Inv(Advance(s, t, s.threads[t]))
  {
    hide Inv;
    KnownThread(s, t);
    var th := s.threads[t];
    WithoutElements(th.children, u);
    MoveKeeps(s, t, th.(children := Without(th.children, u), pc := Marking(u, status)));
  }

  lemma MarkKeeps(s: State, t: Tid, u: Tid, status: int)
    requires Inv(s) && t in s.threads && s.threads[t].pc == Marking(u, status)
    ensures u in s.threads && u !in s.reaped && Inv(Advance(s, t, s.threads[t]))
  {
    KnownThread(s, t);
    hide Families, Places;
    MarkFamilies(s, t, u);
    MarkPlaces(s, t, u);
    var r := Advance(s, t, s.threads[t]);
    forall c | c in r.threads ensures ThreadOk(r.reaped, c, r.threads[c]) {
      assert ThreadOk(s.reaped, c, s.threads[c]);
    }
  }

  lemma MarkFamilies(s: State, t: Tid, u: Tid)
    requires Inv(s) && t in s.threads && s.threads[t].pc.Marking? && s.threads[t].pc.child == u
    requires u in s.threads && u != t && s.threads[u].parent == t && u !in s.threads[t].children
    ensures Families(Advance(s, t, s.threads[t]).threads)
  {
    hide ThreadOk, PlaceOk;
    var r := Advance(s, t, s.threads[t]).threads;
    forall p, c | p in r && c in r[p].children ensures c in r && ChildOk(r[p].pc, p, c, r[c]) {
      assert ChildOk(s.threads[p].pc, p, c, s.threads[c]);
    }
  }

  lemma MarkPlaces(s: State, t: Tid, u: Tid)
    requires Inv(s) && t in s.threads && s.threads[t].pc.Marking? && s.threads[t].pc.child == u
    requires u in s.threads && u != t && s.threads[u].parent == t
    ensures Places(Advance(s, t, s.threads[t]).threads)
  {
    hide ThreadOk;
    var r := Advance(s, t, s.threads[t]).threads;
    forall p | p in r ensures PlaceOk(r, p, r[p]) {
      assert PlaceOk(s.threads, p, s.threads[p]);
    }
  }

  /** Every step keeps the books, and finds the child it looks at. */
  lemma StepKeeps(s: State, e: Event)
    requires Inv(s) && Enabled(s, e)
    ensures Inv(Apply(s, e))
  {
    hide Inv, Advance;
    match e {
      case Create(t, u) => CreateKeeps(s, t, u);
      case Wait(t, u) => WaitKeeps(s, t, u);
      case SetStatus(t, status) => StatusKeeps(s, t, status);
      case Exit(t) => ExitKeeps(s, t);
      case Free(t) => FreeKeeps(s, t);
      case Step(t) =>
        match s.threads[t].pc {
          case Linking(u) => LinkKeeps(s, t, u);
          case Launching(u) => LaunchKeeps(s, t, u);
          case Removing(u, status) => RemoveKeeps(s, t, u, status);
          case Marking(u, status) => MarkKeeps(s, t, u, status);
          case _ => WaitEnds(s, t);
        }
    }
  }

  // ---- runs ----

  predicate Allowed(s: State, es: seq<Event>)
    decreases |es|
  {
    es == [] || (Enabled(s, es[0]) && Allowed(Apply(s, es[0]), es[1..]))
  }

  function Run(s: State, es: seq<Event>): State
    requires Allowed(s, es)
    decreases |es|
  {
    if es == [] then s else Run(Apply(s, es[0]), es[1..])
  }

  lemma {:induction false} RunKeeps(s: State, es: seq<Event>)
    requires Inv(s) && Allowed(s, es)
    ensures Inv(Run(s, es))
    decreases |es|
  {
    hide Inv, Enabled, Apply;
    if es != [] {
      StepKeeps(s, es[0]);
      RunKeeps(Apply(s, es[0]), es[1..]);
    }
  }

  /** In every interleaving: a page is freed only after its thread has been taken off every
      child list, whether the parent is alive or not; what a call of process_wait returned is the
      status the child exited with; and no call looks at a thread that has been freed. */
  lemma WaitIsSafe(es: seq<Event>, u: Tid)
    requires Allowed(Start(), es) && u in Run(Start(), es).threads
    ensures var s := Run(Start(), es);
      && (u in s.freed ==> forall t | t in s.threads :: u !in s.threads[t].children)
      && (u in s.freed ==> u in s.reaped)
      && (u in s.reaped ==> s.reaped[u] == s.threads[u].exitStatus && s.threads[u].readyToExit)
      && (forall t | t in s.threads && Looks(s.threads[t].pc, u) :: u !in s.freed)
  {
    hide Run, Allowed, Inv;
    StartInv();
    RunKeeps(Start(), es);
    SafeState(Run(Start(), es), u);
  }

  /** A thread that a call of process_wait or thread_create is about to read or write. */
  predicate Looks(pc: Pc, u: Tid) {
    match pc
    case Linking(c) => c == u
    case Launching(c) => c == u
    case Waiting(c) => c == u
    case Reading(c) => c == u
    case Removing(c, status) => c == u
    case Marking(c, status) => c == u
    case _ => false
  }

  lemma SafeState(s: State, u: Tid)
    requires Inv(s) && u in s.threads
    ensures u in s.freed ==> u in s.reaped && forall t | t in s.threads :: u !in s.threads[t].children
    ensures u in s.reaped ==> s.reaped[u] == s.threads[u].exitStatus && s.threads[u].readyToExit
    ensures forall t | t in s.threads && Looks(s.threads[t].pc, u) :: u !in s.freed
  {
    assert ThreadOk(s.reaped, u, s.threads[u]);
    forall t | t in s.threads && u in s.threads[t].children ensures u !in s.freed {
      assert ChildOk(s.threads[t].pc, t, u, s.threads[u]);
    }
    forall t | t in s.threads && Looks(s.threads[t].pc, u) ensures u !in s.freed {
      assert PlaceOk(s.threads, t, s.threads[t]);
    }
  }

  /** Each child is reaped at most once: the step that records a status finds none recorded, and
      no later step changes it. */
  lemma ReapedOnce(s: State, e: Event, u: Tid)
    requires Inv(s) && Enabled(s, e)
    ensures u in s.reaped ==> u in Apply(s, e).reaped && Apply(s, e).reaped[u] == s.reaped[u]
    ensures u !in s.reaped && u in Apply(s, e).reaped
            ==> e.Step? && s.threads[e.t].pc.Marking? && s.threads[e.t].pc.child == u && u in s.threads
                && s.threads[u].parent == e.t && Apply(s, e).reaped[u] == s.threads[u].exitStatus
  {
    hide Inv;
    if e.Step? {
      KnownThread(s, e.t);
      if s.threads[e.t].pc.Marking? {
        MarkKeeps(s, e.t, s.threads[e.t].pc.child, s.threads[e.t].pc.status);
      }
    }
  }

  /** In every interleaving, process_wait returns -1 at once exactly for threads that are not
      children of the caller, or that it has reaped already. */
  lemma NotFoundMeansNone(es: seq<Event>, t: Tid, u: Tid)
    requires Allowed(Start(), es) && Enabled(Run(Start(), es), Wait(t, u))
    ensures var s := Run(Start(), es);
      u !in s.threads[t].children <==> u !in s.threads || s.threads[u].parent != t || u in s.reaped
  {
    hide Inv, Linked, Run, Allowed;
    StartLinked();
    LinkedRuns(Start(), es);
    NotFoundAt(Run(Start(), es), t, u);
  }

  lemma NotFoundAt(s: State, t: Tid, u: Tid)
    requires Inv(s) && Linked(s) && Enabled(s, Wait(t, u))
    ensures u !in s.threads[t].children <==> u !in s.threads || s.threads[u].parent != t || u in s.reaped
  {
    hide Inv, PlaceOk, Distinct;
    KnownThread(s, t);
    if u in s.threads {
      KnownThread(s, u);
      assert LinkedAt(s.threads, u, s.threads[u]);
    }
  }

  /** A child that is neither on its parent's list nor reaped is in its parent's hands. */
  ghost predicate Linked(s: State) {
    forall u | u in s.threads :: LinkedAt(s.threads, u, s.threads[u])
  }

  predicate LinkedAt(threads: map<Tid, Thread>, u: Tid, th: Thread) {
    th.parent in threads &&
    (th.deleted || u in threads[th.parent].children || threads[th.parent].pc == Linking(u)
     || (threads[th.parent].pc.Marking? && threads[th.parent].pc.child == u))
  }

  lemma StartLinked()
    ensures Inv(Start()) && Linked(Start())
  {
  }

  lemma {:induction false} LinkedRuns(s: State, es: seq<Event>)
    requires Inv(s) && Linked(s) && Allowed(s, es)
    ensures Inv(Run(s, es)) && Linked(Run(s, es))
    decreases |es|
  {
    hide Inv, Linked, Enabled, Apply;
    if es != [] {
      StepKeeps(s, es[0]);
      LinkedKept(s, es[0]);
      LinkedRuns(Apply(s, es[0]), es[1..]);
    }
  }

  lemma LinkedKept(s: State, e: Event)
    requires Inv(s) && Linked(s) && Enabled(s, e)
    ensures Linked(Apply(s, e))
  {
    hide Inv, Apply, LinkedAt;
    SameThreads(s, e);
    var r := Apply(s, e);
    forall u | u in r.threads ensures LinkedAt(r.threads, u, r.threads[u]) {
      if u in s.threads {
        assert LinkedAt(s.threads, u, s.threads[u]);
        LinkedStep(s, e, u);
      } else {
        LinkedNew(s, e, u);
      }
    }
  }

  lemma SameThreads(s: State, e: Event)
    requires Inv(s) && Enabled(s, e)
    ensures forall u | u in s.threads :: u in Apply(s, e).threads
    ensures forall u | u in Apply(s, e).threads && u !in s.threads :: e.Create? && e.u == u
  {
  }

  lemma LinkedNew(s: State, e: Event, u: Tid)
    requires Inv(s) && Enabled(s, e) && e.Create? && e.u == u
    ensures u in Apply(s, e).threads && LinkedAt(Apply(s, e).threads, u, Apply(s, e).threads[u])
  {
  }

  lemma LinkedStep(s: State, e: Event, u: Tid)
    requires Inv(s) && Enabled(s, e) && u in s.threads && LinkedAt(s.threads, u, s.threads[u])
    ensures u in Apply(s, e).threads && LinkedAt(Apply(s, e).threads, u, Apply(s, e).threads[u])
  {
    hide Inv, ThreadOk, PlaceOk, ChildOk;
    if e.Step? {
      LinkedAdvance(s, e.t, u);
    }
  }

  lemma LinkedAdvance(s: State, t: Tid, u: Tid)
    requires Inv(s) && t in s.threads && StepReady(s, s.threads[t]) && u in s.threads
    requires LinkedAt(s.threads, u, s.threads[u])
    ensures var r := Advance(s, t, s.threads[t]); u in r.threads && LinkedAt(r.threads, u, r.threads[u])
  {
    hide Inv, Without, Distinct, ChildOk;
    KnownThread(s, t);
    var pc := s.threads[t].pc;
    if pc.Removing? {
      WithoutElements(s.threads[t].children, pc.child);
    }
  }

  // ---- what process_wait returns ----

  /** Thread `t` is in a call of process_wait on `u`. */
  predicate WaitsFor(s: State, t: Tid, u: Tid) {
    t in s.threads &&
    match s.threads[t].pc
    case Waiting(c) => c == u
    case Reading(c) => c == u
    case Removing(c, status) => c == u
    case Marking(c, status) => c == u
    case _ => false
  }

  /** The thread `u` is a child of `t` that no call has reaped. */
  predicate Unreaped(s: State, t: Tid, u: Tid) {
    u in s.threads && s.threads[u].parent == t && u !in s.reaped
  }

  lemma CallAt(s: State, t: Tid, u: Tid)
    requires Inv(s) && Linked(s) && Enabled(s, Wait(t, u))
    ensures var r := Apply(s, Wait(t, u));
      if Unreaped(s, t, u) then WaitsFor(r, t, u) && r.returned == s.returned
      else r == s.(returned := s.returned + [Return(t, u, -1)])
  {
    hide Inv, Linked;
    NotFoundAt(s, t, u);
  }

  /** In every interleaving, a call of process_wait returns -1 at once if and only if its argument is
      not a child of the caller or was reaped by a call of its parent before; otherwise the caller
      waits. */
  lemma WaitReturnsAtOnce(es: seq<Event>, t: Tid, u: Tid)
    requires Allowed(Start(), es) && Enabled(Run(Start(), es), Wait(t, u))
    ensures var s := Run(Start(), es); var r := Apply(s, Wait(t, u));
      && (r.threads[t].pc == Running <==> !Unreaped(s, t, u))
      && (r.threads[t].pc == Running ==> r == s.(returned := s.returned + [Return(t, u, -1)]))
      && (r.threads[t].pc != Running ==> WaitsFor(r, t, u) && r.returned == s.returned)
    ensures var s := Run(Start(), es);
      u in s.reaped ==> u in s.threads && Return(s.threads[u].parent, u, s.reaped[u]) in s.returned
  {
    hide Inv, Linked, Run, Allowed, Unreaped;
    StartLinked();
    LinkedRuns(Start(), es);
    CallAt(Run(Start(), es), t, u);
    RunReaped(Start(), es);
  }

  /** Whoever was reaped was so by a call of its parent, which returned the status. */
  ghost predicate ReapedByCalls(s: State) {
    forall u | u in s.reaped :: u in s.threads && Return(s.threads[u].parent, u, s.reaped[u]) in s.returned
  }

  lemma ReapedStep(s: State, e: Event)
    requires Inv(s) && Enabled(s, e) && ReapedByCalls(s)
    ensures ReapedByCalls(Apply(s, e))
  {
    hide Inv, Enabled, Apply;
    var r := Apply(s, e);
    SameParents(s, e);
    forall u | u in r.reaped
      ensures u in r.threads && Return(r.threads[u].parent, u, r.reaped[u]) in r.returned
    {
      ReapedOnce(s, e, u);
      if u !in s.reaped {
        ReapingReturns(s, e.t, u);
      }
    }
  }

  lemma SameParents(s: State, e: Event)
    requires Inv(s) && Enabled(s, e)
    ensures var r := Apply(s, e);
      && (forall u | u in s.threads :: u in r.threads && r.threads[u].parent == s.threads[u].parent)
      && s.returned <= r.returned
  {
    hide Inv, ThreadOk, ChildOk;
    if e.Step? {
      KnownThread(s, e.t);
    }
    if e.Create? {
      assert e.u !in s.threads;
    }
  }

  lemma ReapingReturns(s: State, t: Tid, u: Tid)
    requires Inv(s) && Enabled(s, Step(t)) && s.threads[t].pc.Marking? && s.threads[t].pc.child == u
    ensures var r := Apply(s, Step(t));
      && u in s.threads && u in r.threads && s.threads[u].parent == t && r.threads[u].parent == t && u in r.reaped
      && r.returned == s.returned + [Return(t, u, s.threads[u].exitStatus)] && r.reaped[u] == s.threads[u].exitStatus
      && r.threads[t].pc == Running
  {
    hide Inv, ThreadOk, ChildOk;
    KnownThread(s, t);
  }

  lemma {:induction false} RunReaped(s: State, es: seq<Event>)
    requires Inv(s) && Allowed(s, es) && ReapedByCalls(s)
    ensures ReapedByCalls(Run(s, es))
    decreases |es|
  {
    hide Inv, Enabled, Apply, ReapedByCalls;
    if es != [] {
      StepKeeps(s, es[0]);
      ReapedStep(s, es[0]);
      RunReaped(Apply(s, es[0]), es[1..]);
    }
  }

  /** The step by which a call hands over the status of `u`. */
  predicate Delivers(s: State, e: Event, t: Tid, u: Tid)
    requires Enabled(s, e)
  {
    var r := Apply(s, e);
    && e == Step(t) && u in s.threads && u !in s.reaped && u in r.reaped && r.threads[t].pc == Running
    && s.threads[u].readyToExit && r.returned == s.returned + [Return(t, u, s.threads[u].exitStatus)]
  }

  lemma WaitGoesOn(s: State, e: Event, t: Tid, u: Tid)
    requires Inv(s) && Enabled(s, e) && WaitsFor(s, t, u)
    ensures Delivers(s, e, t, u) || WaitsFor(Apply(s, e), t, u)
  {
    hide Inv, ThreadOk, ChildOk, Without;
    KnownThread(s, t);
    if e == Step(t) {
      if s.threads[t].pc.Marking? {
        MarkKeeps(s, t, u, s.threads[t].pc.status);
        ReapingReturns(s, t, u);
      }
    } else if e.Step? {
      OthersStep(s, e.t, t);
    }
  }

  lemma OthersStep(s: State, v: Tid, t: Tid)
    requires Inv(s) && Enabled(s, Step(v)) && v != t && t in s.threads && s.threads[t].pc != Embryo
    ensures var r := Apply(s, Step(v)); t in r.threads && r.threads[t].pc == s.threads[t].pc
  {
    hide Inv, ThreadOk, ChildOk, Without;
    KnownThread(s, v);
  }

  /** In any run in which a call that waits comes to an end, some step of it reaps the child, and
      what that step returns is the status the child stored. */
  lemma {:induction false} WaitDelivers(s: State, es: seq<Event>, t: Tid, u: Tid) returns (p: nat)
    requires Inv(s) && Allowed(s, es) && WaitsFor(s, t, u) && !WaitsFor(Run(s, es), t, u)
    ensures p < |es| && Allowed(s, es[..p]) && Enabled(Run(s, es[..p]), es[p]) && Delivers(Run(s, es[..p]), es[p], t, u)
    decreases |es|
  {
    hide Inv, Enabled, Apply, Delivers, WaitsFor;
    var e, rest := es[0], es[1..];
    StepKeeps(s, e);
    WaitGoesOn(s, e, t, u);
    if Delivers(s, e, t, u) {
      p := 0;
    } else {
      var k := WaitDelivers(Apply(s, e), rest, t, u);
      p := k + 1;
      assert es[..p][1..] == rest[..k];
    }
  }

  /** A call that waits is never stuck once the child has reached thread_exit, nor is the child once
      it was reaped. */
  lemma NobodyStuck(s: State, t: Tid, u: Tid)
    requires Inv(s) && WaitsFor(s, t, u)
    ensures u in s.threads && (s.threads[u].readyToExit ==> Enabled(s, Step(t)))
    ensures forall v | v in s.threads && s.threads[v].pc == Exiting && v in s.reaped :: Enabled(s, Step(v))
  {
    hide ChildOk;
    KnownThread(s, t);
    forall v | v in s.threads && s.threads[v].pc == Exiting && v in s.reaped ensures Enabled(s, Step(v)) {
      KnownThread(s, v);
    }
  }

  /** No other step makes a call return. */
  lemma OnlyCallsReturn(s: State, e: Event)
    requires Inv(s) && Enabled(s, e)
    ensures var r := Apply(s, e);
      || r.returned == s.returned
      || (e.Wait? && r == s.(returned := s.returned + [Return(e.t, e.u, -1)]))
      || (e.Step? && WaitsFor(s, e.t, s.threads[e.t].pc.child) && Delivers(s, e, e.t, s.threads[e.t].pc.child))
  {
    hide Inv, ThreadOk, ChildOk, Without;
    if e.Step? && s.threads[e.t].pc.Marking? {
      KnownThread(s, e.t);
      MarkKeeps(s, e.t, s.threads[e.t].pc.child, s.threads[e.t].pc.status);
      ReapingReturns(s, e.t, s.threads[e.t].pc.child);
    }
  }

  // ---- what a thread stores, and its beginning and end ----

  function StatusOf(s: State, u: Tid): int {
    if u in s.threads then s.threads[u].exitStatus else 0
  }

  /** The last status that `u` set, or the one before if it set none. */
  function LastStatus(es: seq<Event>, u: Tid, before: int): int
    decreases |es|
  {
    if es == [] then before
    else LastStatus(es[1..], u, if es[0].SetStatus? && es[0].t == u then es[0].status else before)
  }

  lemma StatusStep(s: State, e: Event, u: Tid)
    requires Inv(s) && Enabled(s, e)
    ensures StatusOf(Apply(s, e), u) == if e.SetStatus? && e.t == u then e.status else StatusOf(s, u)
  {
    hide Inv, ThreadOk, ChildOk, Without;
    if e.Step? {
      KnownThread(s, e.t);
    }
  }

  lemma {:induction false} StatusOverRuns(s: State, es: seq<Event>, u: Tid)
    requires Inv(s) && Allowed(s, es)
    ensures StatusOf(Run(s, es), u) == LastStatus(es, u, StatusOf(s, u))
    decreases |es|
  {
    hide Inv, Enabled, Apply, StatusOf;
    if es != [] {
      StepKeeps(s, es[0]);
      StatusStep(s, es[0], u);
      StatusOverRuns(Apply(s, es[0]), es[1..], u);
    }
  }

  /** In every interleaving the status handed over for a child is the last one that it set, or 0 if it
      set none. */
  lemma StatusIsLastSet(es: seq<Event>, u: Tid)
    requires Allowed(Start(), es)
    ensures var s := Run(Start(), es);
      && (u in s.threads ==> s.threads[u].exitStatus == LastStatus(es, u, 0))
      && (u in s.reaped ==> s.reaped[u] == LastStatus(es, u, 0))
  {
    hide Inv, Run, Allowed;
    StartInv();
    RunKeeps(Start(), es);
    StatusOverRuns(Start(), es, u);
    if u in Run(Start(), es).reaped {
      ReapedStatus(Run(Start(), es), u);
    }
  }

  lemma ReapedStatus(s: State, u: Tid)
    requires Inv(s) && u in s.reaped
    ensures u in s.threads && s.reaped[u] == s.threads[u].exitStatus
  {
    assert u in s.threads;
    assert ThreadOk(s.reaped, u, s.threads[u]);
  }

  /** A thread in thread_exit, or past it. */
  predicate Over(s: State, t: Tid) {
    t in s.threads && (s.threads[t].pc == Exiting || s.threads[t].pc == Dying)
  }

  lemma OverStep(s: State, e: Event, t: Tid)
    requires Inv(s) && Enabled(s, e) && Over(s, t)
    ensures Over(Apply(s, e), t)
  {
    hide Inv, ThreadOk, ChildOk, Without;
    if e.Step? && e.t != t {
      OthersStep(s, e.t, t);
    }
  }

  lemma {:induction false} StaysOver(s: State, es: seq<Event>, t: Tid)
    requires Inv(s) && Allowed(s, es) && Over(s, t)
    ensures Over(Run(s, es), t)
    decreases |es|
  {
    hide Inv, Enabled, Apply, Over;
    if es != [] {
      StepKeeps(s, es[0]);
      OverStep(s, es[0], t);
      StaysOver(Apply(s, es[0]), es[1..], t);
    }
  }

  /** thread_exit does not return: in no run that begins with it is its caller anywhere else again. */
  lemma ExitIsFinal(s: State, es: seq<Event>, t: Tid)
    requires Inv(s) && Allowed(s, es) && es != [] && es[0] == Exit(t)
    ensures Over(Run(s, es), t)
  {
    hide Inv;
    StepKeeps(s, es[0]);
    StaysOver(Apply(s, es[0]), es[1..], t);
  }

  /** Thread `t` is in a call of thread_create for `u`. */
  predicate Makes(s: State, t: Tid, u: Tid) {
    t in s.threads && (s.threads[t].pc == Linking(u) || s.threads[t].pc == Launching(u))
  }

  /** The call is done, and `u` runs as a child of `t`. */
  predicate Made(s: State, t: Tid, u: Tid) {
    && t in s.threads && s.threads[t].pc == Running && u in s.threads[t].children
    && u in s.threads && s.threads[u].pc == Running && s.threads[u].parent == t
  }

  lemma MakingGoesOn(s: State, e: Event, t: Tid, u: Tid)
    requires Inv(s) && Enabled(s, e) && Makes(s, t, u)
    ensures Makes(Apply(s, e), t, u) || Made(Apply(s, e), t, u)
  {
    hide Inv, ThreadOk, Without;
    KnownThread(s, t);
    if e.Step? && e.t != t {
      OthersStep(s, e.t, t);
    }
  }

  lemma {:induction false} MakingEnds(s: State, es: seq<Event>, t: Tid, u: Tid) returns (p: nat)
    requires Inv(s) && Allowed(s, es) && Makes(s, t, u) && !Makes(Run(s, es), t, u)
    ensures p <= |es| && Allowed(s, es[..p]) && Made(Run(s, es[..p]), t, u)
    decreases |es|
  {
    hide Inv, Enabled, Apply, Makes, Made;
    var e, rest := es[0], es[1..];
    StepKeeps(s, e);
    MakingGoesOn(s, e, t, u);
    if Made(Apply(s, e), t, u) {
      p := 1;
      assert es[..1] == [e];
    } else {
      var k := MakingEnds(Apply(s, e), rest, t, u);
      p := k + 1;
      assert es[..p][1..] == rest[..k];
    }
  }

  /** thread_create returns with the new thread running as a child of its caller, which process_wait
      will wait for: in any run that begins with the call and after which it is over, some step leaves
      things so. */
  lemma CreateMakes(s: State, es: seq<Event>, t: Tid, u: Tid) returns (p: nat)
    requires Inv(s) && Allowed(s, es) && es != [] && es[0] == Create(t, u) && !Makes(Run(s, es), t, u)
    ensures 0 < p <= |es| && Allowed(s, es[..p]) && Made(Run(s, es[..p]), t, u)
  {
    hide Inv, Made;
    StepKeeps(s, es[0]);
    var k := MakingEnds(Apply(s, es[0]), es[1..], t, u);
    p := k + 1;
    assert es[..p][1..] == es[1..][..k];
  }
}
