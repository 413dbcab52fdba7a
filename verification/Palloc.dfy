/** The page allocator's pool (threads/palloc.c), bit by bit and byte by byte: allocations hold the
    pool's lock while they search the bitmap, frees do not, and any thread may step in between any
    two accesses to the bitmap or to the pages. */
module Palloc {
  import opened Bytes
  import opened Options
  import opened Bitmap

  type Tid = nat

  /** Where a thread is. `before` remembers the bitmap at the time the lock was acquired. */
  datatype Pc =
    | Out
    | Scanning(cnt: nat, i: nat, j: nat, before: seq<bool>)   // testing page i + j
    | Flipping(cnt: nat, start: nat, j: nat, before: seq<bool>)
    | Found(cnt: nat, run: Option<nat>, before: seq<bool>)  // before lock_release
    | Zeroing(start: nat, cnt: nat, j: nat)                   // memset to 0, byte j of the pages
    | Wiping(start: nat, cnt: nat, j: nat)                    // memset to 0xcc, byte j of the pages
    | Freeing(start: nat, cnt: nat, j: nat)                   // clearing page start + j

  /** `owner` records to whom each page was given, and `zero` whose call has PAL_ZERO; `mem` has the
      bytes of the pages. */
  datatype Pool = Pool(used: seq<bool>, lock: Option<Tid>, pc: map<Tid, Pc>, owner: map<nat, Tid>, zero: set<Tid>,
                       mem: map<nat, Byte>)

  datatype Event =
    | Get(t: Tid, cnt: nat, zero: bool)   // palloc_get_multiple, up to lock_acquire
    | Free(t: Tid, start: nat, cnt: nat)  // palloc_free_multiple, up to the first byte
    | Put(t: Tid, a: nat, b: Byte)        // an owner's store to a page
    | Step(t: Tid)

  const PGSIZE: nat := 4096

  predicate InRun(start: nat, cnt: nat, p: nat) {
    start <= p < start + cnt
  }

  predicate Enabled(s: Pool, e: Event) {
    match e
    case Get(t, cnt, zero) => t in s.pc && s.pc[t] == Out && cnt > 0 && s.lock == None
    case Free(t, start, cnt) =>
      t in s.pc && s.pc[t] == Out && cnt > 0 && (forall p | start <= p < start + cnt :: p in s.owner)
    case Put(t, a, b) => a / PGSIZE in s.owner && s.owner[a / PGSIZE] == t
    case Step(t) => t in s.pc && s.pc[t] != Out && StepFits(s.pc[t], |s.used|)
  }

  /** The bits a step reads or writes are in the bitmap, and the bytes in the pool. */
  predicate StepFits(pc: Pc, n: nat) {
    match pc
    case Scanning(cnt, i, j, before) => i + cnt <= n && j < cnt ==> i + j < n
    case Flipping(cnt, start, j, before) => j < cnt ==> start + j < n
    case Zeroing(start, cnt, j) => j < PGSIZE * cnt ==> PGSIZE * start + j < PGSIZE * n
    case Wiping(start, cnt, j) => j < PGSIZE * cnt ==> PGSIZE * start + j < PGSIZE * n
    case Freeing(start, cnt, j) => j < cnt ==> start + j < n
    case _ => true
  }

  function Apply(s: Pool, e: Event): Pool
    requires Enabled(s, e)
  {
    match e
    case Get(t, cnt, zero) =>
      s.(lock := Some(t), pc := s.pc[t := Scanning(cnt, 0, 0, s.used)],
         zero := if zero then s.zero + {t} else s.zero - {t})
    case Put(t, a, b) => s.(mem := s.mem[a := b])
    case Free(t, start, cnt) =>
      s.(pc := s.pc[t := Wiping(start, cnt, 0)], owner := map p | p in s.owner && !InRun(start, cnt, p) :: s.owner[p])
    case Step(t) => Advance(s, t, s.pc[t])
  }

  function Advance(s: Pool, t: Tid, pc: Pc): Pool
    requires StepFits(pc, |s.used|)
  {
    match pc
    case Out => s
    case Scanning(cnt, i, j, before) =>
      var next := if i + cnt > |s.used| then Found(cnt, None, before)
                  else if j >= cnt then Flipping(cnt, i, 0, before)
                  else if s.used[i + j] then Scanning(cnt, i + 1, 0, before)
                  else Scanning(cnt, i, j + 1, before);
      s.(pc := s.pc[t := next])
    case Flipping(cnt, start, j, before) =>
      if j >= cnt then s.(pc := s.pc[t := Found(cnt, Some(start), before)])
      else s.(used := s.used[start + j := true], pc := s.pc[t := Flipping(cnt, start, j + 1, before)])
    case Found(cnt, run, before) =>
      if run.None? then s.(lock := None, pc := s.pc[t := Out])
      else if t in s.zero then s.(lock := None, pc := s.pc[t := Zeroing(run.value, cnt, 0)])
      else s.(lock := None, pc := s.pc[t := Out], owner := Given(s.owner, t, run.value, cnt))
    case Zeroing(start, cnt, j) =>
      if j >= PGSIZE * cnt then s.(pc := s.pc[t := Out], owner := Given(s.owner, t, start, cnt))
      else s.(mem := s.mem[PGSIZE * start + j := 0], pc := s.pc[t := Zeroing(start, cnt, j + 1)])
    case Wiping(start, cnt, j) =>
      if j >= PGSIZE * cnt then s.(pc := s.pc[t := Freeing(start, cnt, 0)])
      else s.(mem := s.mem[PGSIZE * start + j := 0xcc], pc := s.pc[t := Wiping(start, cnt, j + 1)])
    case Freeing(start, cnt, j) =>
      if j >= cnt then s.(pc := s.pc[t := Out])
      else s.(used := s.used[start + j := false], pc := s.pc[t := Freeing(start, cnt, j + 1)])
  }

  /** The pages are thread `t`'s from now on. */
  function Given(owner: map<nat, Tid>, t: Tid, start: nat, cnt: nat): map<nat, Tid> {
    map p | p in owner.Keys + RunSet(start, cnt) :: if InRun(start, cnt, p) then t else owner[p]
  }

  function RunSet(start: nat, cnt: nat): (r: set<nat>)
    ensures forall p: nat :: p in r <==> InRun(start, cnt, p)
  {
    set p: nat | p < start + cnt && InRun(start, cnt, p)
  }

  // ---- what every interleaving keeps ----

  /** Pages marked used that are in the hands of a call: taken but not yet returned, or given up
      but not yet cleared. */
  predicate Claims(pc: Pc, p: nat) {
    match pc
    case Flipping(cnt, start, j, before) => InRun(start, j, p)
    case Found(cnt, run, before) => run.Some? && InRun(run.value, cnt, p)
    case Zeroing(start, cnt, j) => InRun(start, cnt, p)
    case Wiping(start, cnt, j) => InRun(start, cnt, p)
    case Freeing(start, cnt, j) => start + j <= p < start + cnt
    case _ => false
  }

  predicate InSection(pc: Pc) {
    pc.Scanning? || pc.Flipping? || pc.Found?
  }

  /** No place below `i` was free when the lock was acquired. */
  ghost predicate NoneBelow(before: seq<bool>, i: nat, cnt: nat) {
    forall k | 0 <= k < i :: !AllAre(before, k, cnt, false)
  }

  /** Frees only clear bits. */
  ghost predicate Shrunk(before: seq<bool>, used: seq<bool>) {
    |before| == |used| && forall p | 0 <= p < |used| && used[p] :: before[p]
  }

  ghost predicate PcOk(used: seq<bool>, pc: Pc) {
    match pc
    case Out => true
    case Scanning(cnt, i, j, before) =>
      && cnt > 0 && j <= cnt && Shrunk(before, used) && NoneBelow(before, i, cnt)
      && (j > 0 ==> i + cnt <= |used|) && (forall p | i <= p < i + j :: !used[p])
    case Flipping(cnt, start, j, before) =>
      && cnt > 0 && j <= cnt && start + cnt <= |used| == |before| && NoneBelow(before, start, cnt)
      && (forall p | start + j <= p < start + cnt :: !used[p])
    case Found(cnt, run, before) =>
      if run.Some? then cnt > 0 && run.value + cnt <= |used| == |before| && NoneBelow(before, run.value, cnt)
      else forall k: nat :: !AllAre(before, k, cnt, false)
    case Zeroing(start, cnt, j) => cnt > 0 && j <= PGSIZE * cnt && start + cnt <= |used|
    case Wiping(start, cnt, j) => j <= PGSIZE * cnt && start + cnt <= |used|
    case Freeing(start, cnt, j) => j <= cnt && start + cnt <= |used|
  }

  ghost predicate Sections(lock: Option<Tid>, pc: map<Tid, Pc>) {
    forall t | t in pc && InSection(pc[t]) :: lock == Some(t)
  }

  ghost predicate Places(used: seq<bool>, pc: map<Tid, Pc>) {
    forall t | t in pc :: PcOk(used, pc[t])
  }

  predicate ClaimsAt(pc: map<Tid, Pc>, t: Tid, p: nat) {
    t in pc && Claims(pc[t], p)
  }

  /** A page is marked used exactly when it has an owner or is in the hands of one call, never
      both, and never two. */
  ghost predicate Accounts(used: seq<bool>, pc: map<Tid, Pc>, owner: map<nat, Tid>) {
    && (forall t, p: nat | ClaimsAt(pc, t, p) :: p < |used| && used[p] && p !in owner)
    && (forall t, u, p: nat | ClaimsAt(pc, t, p) && ClaimsAt(pc, u, p) :: t == u)
    && (forall p | p in owner :: p < |used| && used[p])
    && (forall p: nat | p < |used| && used[p] && p !in owner :: exists t :: ClaimsAt(pc, t, p))
  }

  ghost predicate Inv(s: Pool) {
    Sections(s.lock, s.pc) && Places(s.used, s.pc) && Accounts(s.used, s.pc, s.owner)
  }

  // ---- steps ----

  /** One thread's claims change from those of `pc[t]` to those of `q`, and the bits and owners
      with them; the others' stay. */
  lemma AccountsMove(used: seq<bool>, pc: map<Tid, Pc>, owner: map<nat, Tid>, t: Tid, q: Pc,
                     used': seq<bool>, owner': map<nat, Tid>)
    requires Accounts(used, pc, owner) && t in pc && |used'| == |used|
    requires forall p: nat | p < |used| :: used'[p] == used[p] || Claims(q, p) || Claims(pc[t], p)
    requires forall p: nat :: (p in owner') != (p in owner) ==> Claims(q, p) || Claims(pc[t], p)
    requires forall p: nat | Claims(q, p) :: p < |used| && used'[p] && p !in owner'
    requires forall p: nat | Claims(q, p) :: Claims(pc[t], p) || !(p < |used| && used[p]) || p in owner
    requires forall p: nat | Claims(pc[t], p) && !Claims(q, p) && p < |used| :: used'[p] <==> p in owner'
    ensures Accounts(used', pc[t := q], owner')
  {
    var pc' := pc[t := q];
    hide Claims;
    assert forall u, p: nat | u != t :: ClaimsAt(pc', u, p) == ClaimsAt(pc, u, p);
    assert forall p: nat :: ClaimsAt(pc', t, p) == Claims(q, p) && ClaimsAt(pc, t, p) == Claims(pc[t], p);
    forall p: nat | p < |used'| && used'[p] && p !in owner' ensures exists u :: ClaimsAt(pc', u, p) {
      if Claims(q, p) {
        assert ClaimsAt(pc', t, p);
      } else {
        var u :| ClaimsAt(pc, u, p);
        assert ClaimsAt(pc', u, p);
      }
    }
  }

  /** Moves of one thread that leave the bitmap alone and change no claim. */
  lemma MoveKeeps(s: Pool, t: Tid, q: Pc)
    requires Inv(s) && t in s.pc && PcOk(s.used, q) && (InSection(q) ==> s.lock == Some(t))
    requires forall p: nat :: Claims(q, p) <==> Claims(s.pc[t], p)
    ensures Inv(s.(pc := s.pc[t := q]))
  {
    hide PcOk, InSection, Claims, Accounts;
    MoveAccounts(s, t, q);
  }

  lemma MoveAccounts(s: Pool, t: Tid, q: Pc)
    requires Inv(s) && t in s.pc && forall p: nat :: Claims(q, p) <==> Claims(s.pc[t], p)
    ensures Accounts(s.used, s.pc[t := q], s.owner)
  {
    hide PcOk, InSection, Claims;
    assert forall p: nat :: Claims(s.pc[t], p) == ClaimsAt(s.pc, t, p);
    AccountsMove(s.used, s.pc, s.owner, t, q, s.used, s.owner);
  }

  lemma GetKeeps(s: Pool, t: Tid, cnt: nat, zero: bool)
    requires Inv(s) && Enabled(s, Get(t, cnt, zero))
    ensures Inv(Apply(s, Get(t, cnt, zero)))
  {
    hide Accounts, Places;
    var locked := s.(lock := Some(t), zero := if zero then s.zero + {t} else s.zero - {t});
    assert forall u | u in s.pc :: !InSection(s.pc[u]);
    MoveKeeps(locked, t, Scanning(cnt, 0, 0, s.used));
  }

  lemma ScanKeeps(s: Pool, t: Tid)
    requires Inv(s) && t in s.pc && s.pc[t].Scanning?
    ensures StepFits(s.pc[t], |s.used|) && Inv(Advance(s, t, s.pc[t]))
  {
    hide Inv, PcOk;
    SectionFacts(s, t);
    var pc := s.pc[t];
    ScanMoves(s.used, pc);
    MoveKeeps(s, t, Advance(s, t, pc).pc[t]);
  }

  lemma SectionFacts(s: Pool, t: Tid)
    requires Inv(s) && t in s.pc && InSection(s.pc[t])
    ensures PcOk(s.used, s.pc[t]) && s.lock == Some(t)
    ensures forall u | u in s.pc && u != t :: !InSection(s.pc[u])
  {
    hide Accounts, PcOk;
  }

  /** The scan's next place: what it has seen stays true. */
  lemma ScanMoves(used: seq<bool>, pc: Pc)
    requires pc.Scanning? && PcOk(used, pc)
    ensures var Scanning(cnt, i, j, before) := pc;
      && (i + cnt > |used| ==> PcOk(used, Found(cnt, None, before)))
      && (i + cnt <= |used| && j >= cnt ==> PcOk(used, Flipping(cnt, i, 0, before)))
      && (i + cnt <= |used| && j < cnt && used[i + j] ==> PcOk(used, Scanning(cnt, i + 1, 0, before)))
      && (i + cnt <= |used| && j < cnt && !used[i + j] ==> PcOk(used, Scanning(cnt, i, j + 1, before)))
  {
    var Scanning(cnt, i, j, before) := pc;
    if i + cnt <= |used| && j < cnt && used[i + j] {
      assert before[i + j];
    }
  }

  lemma FlipKeeps(s: Pool, t: Tid)
    requires Inv(s) && t in s.pc && s.pc[t].Flipping?
    ensures StepFits(s.pc[t], |s.used|) && Inv(Advance(s, t, s.pc[t]))
  {
    hide Accounts, Places;
    SectionFacts(s, t);
    var pc := s.pc[t];
    var Flipping(cnt, start, j, before) := pc;
    if j >= cnt {
      MoveKeeps(s, t, Found(cnt, Some(start), before));
    } else {
      FlipAccounts(s, t);
      FlipPlaces(s, t);
    }
  }

  lemma FlipAccounts(s: Pool, t: Tid)
    requires Inv(s) && t in s.pc && s.pc[t].Flipping? && s.pc[t].j < s.pc[t].cnt && PcOk(s.used, s.pc[t])
    ensures var r := Advance(s, t, s.pc[t]); Accounts(r.used, r.pc, r.owner)
  {
    var Flipping(cnt, start, j, before) := s.pc[t];
    var r, p0 := Advance(s, t, s.pc[t]), start + j;
    assert !s.used[p0];
    assert forall p: nat :: Claims(r.pc[t], p) <==> Claims(s.pc[t], p) || p == p0;
    assert forall p: nat | Claims(s.pc[t], p) :: ClaimsAt(s.pc, t, p);
    AccountsMove(s.used, s.pc, s.owner, t, r.pc[t], r.used, r.owner);
  }

  lemma FlipPlaces(s: Pool, t: Tid)
    requires Inv(s) && t in s.pc && s.pc[t].Flipping? && s.pc[t].j < s.pc[t].cnt && PcOk(s.used, s.pc[t])
    ensures var r := Advance(s, t, s.pc[t]); Places(r.used, r.pc)
  {
    hide Accounts;
    SectionFacts(s, t);
    var r := Advance(s, t, s.pc[t]);
    forall u | u in r.pc ensures PcOk(r.used, r.pc[u]) {
      assert u == t || !InSection(s.pc[u]);
    }
  }

  lemma ReturnKeeps(s: Pool, t: Tid)
    requires Inv(s) && t in s.pc && s.pc[t].Found?
    ensures Inv(Advance(s, t, s.pc[t]))
  {
    hide Accounts, PcOk;
    SectionFacts(s, t);
    ReturnAccounts(s, t);
    ReturnOk(s.used, s.pc[t]);
  }

  lemma ReturnOk(used: seq<bool>, pc: Pc)
    requires PcOk(used, pc) && (pc.Found? || pc.Zeroing?)
    ensures PcOk(used, Out)
    ensures pc.Found? && pc.run.Some? ==> PcOk(used, Zeroing(pc.run.value, pc.cnt, 0))
    ensures pc.Zeroing? && pc.j < PGSIZE * pc.cnt ==> PcOk(used, Zeroing(pc.start, pc.cnt, pc.j + 1))
  {
  }

  lemma ReturnAccounts(s: Pool, t: Tid)
    requires Inv(s) && t in s.pc && (s.pc[t].Found? || (s.pc[t].Zeroing? && s.pc[t].j >= PGSIZE * s.pc[t].cnt))
    ensures var r := Advance(s, t, s.pc[t]); Accounts(r.used, r.pc, r.owner)
  {
    hide PcOk;
    var r := Advance(s, t, s.pc[t]);
    if r.pc[t] != Out {
      MoveAccounts(s, t, r.pc[t]);
      return;
    }
    assert forall p: nat :: p in r.owner <==> p in s.owner || Claims(s.pc[t], p);
    assert forall p: nat | Claims(s.pc[t], p) :: ClaimsAt(s.pc, t, p);
    AccountsMove(s.used, s.pc, s.owner, t, Out, r.used, r.owner);
  }

  lemma ZeroKeeps(s: Pool, t: Tid)
    requires Inv(s) && t in s.pc && s.pc[t].Zeroing?
    ensures StepFits(s.pc[t], |s.used|) && Inv(Advance(s, t, s.pc[t]))
  {
    hide Accounts, PcOk;
    StepsFit(s, t);
    ReturnOk(s.used, s.pc[t]);
    var Zeroing(start, cnt, j) := s.pc[t];
    if j >= PGSIZE * cnt {
      ReturnAccounts(s, t);
    } else {
      MoveKeeps(s.(mem := s.mem[PGSIZE * start + j := 0]), t, Zeroing(start, cnt, j + 1));
    }
  }

  lemma WipeKeeps(s: Pool, t: Tid)
    requires Inv(s) && t in s.pc && s.pc[t].Wiping?
    ensures StepFits(s.pc[t], |s.used|) && Inv(Advance(s, t, s.pc[t]))
  {
    hide Accounts;
    StepsFit(s, t);
    assert PcOk(s.used, s.pc[t]);
    var Wiping(start, cnt, j) := s.pc[t];
    if j >= PGSIZE * cnt {
      MoveKeeps(s, t, Freeing(start, cnt, 0));
    } else {
      MoveKeeps(s.(mem := s.mem[PGSIZE * start + j := 0xcc]), t, Wiping(start, cnt, j + 1));
    }
  }

  lemma FreeKeeps(s: Pool, t: Tid, start: nat, cnt: nat)
    requires Inv(s) && Enabled(s, Free(t, start, cnt))
    ensures Inv(Apply(s, Free(t, start, cnt)))
  {
    hide Accounts;
    FreeAccounts(s, t, start, cnt);
  }

  lemma FreeAccounts(s: Pool, t: Tid, start: nat, cnt: nat)
    requires Inv(s) && Enabled(s, Free(t, start, cnt))
    ensures var r := Apply(s, Free(t, start, cnt)); start + cnt <= |s.used| && Accounts(r.used, r.pc, r.owner)
  {
    hide PcOk;
    var r := Apply(s, Free(t, start, cnt));
    assert start + cnt - 1 in s.owner;
    assert forall p: nat :: Claims(r.pc[t], p) <==> InRun(start, cnt, p);
    AccountsMove(s.used, s.pc, s.owner, t, r.pc[t], r.used, r.owner);
  }

  lemma ClearKeeps(s: Pool, t: Tid)
    requires Inv(s) && t in s.pc && s.pc[t].Freeing?
    ensures StepFits(s.pc[t], |s.used|) && Inv(Advance(s, t, s.pc[t]))
  {
    hide Accounts;
    var Freeing(start, cnt, j) := s.pc[t];
    assert PcOk(s.used, s.pc[t]);
    if j >= cnt {
      MoveKeeps(s, t, Out);
    } else {
      ClearAccounts(s, t);
      ClearPlaces(s, t);
    }
  }

  lemma ClearAccounts(s: Pool, t: Tid)
    requires Inv(s) && t in s.pc && s.pc[t].Freeing? && s.pc[t].j < s.pc[t].cnt && PcOk(s.used, s.pc[t])
    ensures var r := Advance(s, t, s.pc[t]); Accounts(r.used, r.pc, r.owner)
  {
    var Freeing(start, cnt, j) := s.pc[t];
    var r, p0 := Advance(s, t, s.pc[t]), start + j;
    assert forall p: nat :: Claims(r.pc[t], p) <==> Claims(s.pc[t], p) && p != p0;
    assert forall p: nat | Claims(s.pc[t], p) :: ClaimsAt(s.pc, t, p);
    AccountsMove(s.used, s.pc, s.owner, t, r.pc[t], r.used, r.owner);
  }

  lemma ClearPlaces(s: Pool, t: Tid)
    requires Inv(s) && t in s.pc && s.pc[t].Freeing? && s.pc[t].j < s.pc[t].cnt && PcOk(s.used, s.pc[t])
    ensures var r := Advance(s, t, s.pc[t]); Places(r.used, r.pc)
  {
    hide Accounts;
    var r := Advance(s, t, s.pc[t]);
    forall u | u in r.pc ensures PcOk(r.used, r.pc[u]) {
      assert PcOk(s.used, s.pc[u]);
    }
  }

  /** Whatever the interleaving, and no step ever reads or writes outside the bitmap. */
  lemma StepKeeps(s: Pool, e: Event)
    requires Inv(s) && Enabled(s, e)
    ensures Inv(Apply(s, e))
  {
    hide Sections, Places, Accounts, Advance;
    match e {
      case Get(t, cnt, zero) => GetKeeps(s, t, cnt, zero);
      case Put(t, a, b) => {}
      case Free(t, start, cnt) => FreeKeeps(s, t, start, cnt);
      case Step(t) =>
        match s.pc[t] {
          case Scanning(cnt, i, j, before) => ScanKeeps(s, t);
          case Flipping(cnt, start, j, before) => FlipKeeps(s, t);
          case Found(cnt, run, before) => ReturnKeeps(s, t);
          case Zeroing(start, cnt, j) => ZeroKeeps(s, t);
          case Wiping(start, cnt, j) => WipeKeeps(s, t);
          case Freeing(start, cnt, j) => ClearKeeps(s, t);
        }
    }
  }

  lemma StepsFit(s: Pool, t: Tid)
    requires Inv(s) && t in s.pc
    ensures StepFits(s.pc[t], |s.used|)
  {
    hide Accounts;
    assert PcOk(s.used, s.pc[t]);
  }

  // ---- runs ----

  predicate Allowed(s: Pool, es: seq<Event>)
    decreases |es|
  {
    es == [] || (Enabled(s, es[0]) && Allowed(Apply(s, es[0]), es[1..]))
  }

  function Run(s: Pool, es: seq<Event>): Pool
    requires Allowed(s, es)
    decreases |es|
  {
    if es == [] then s else Run(Apply(s, es[0]), es[1..])
  }

  /** init_pool, for any set of threads; the pages may hold anything. */
  function Start(pages: nat, threads: set<Tid>, mem: map<nat, Byte>): Pool {
    Pool(seq(pages, i => false), None, map t | t in threads :: Out, map[], {}, mem)
  }

  lemma {:induction false} RunKeeps(s: Pool, es: seq<Event>)
    requires Inv(s) && Allowed(s, es)
    ensures Inv(Run(s, es))
    decreases |es|
  {
    hide Inv, Enabled, Apply;
    if es != [] {
      StepKeeps(s, es[0]);
      RunKeeps(Apply(s, es[0]), es[1..]);
    }
  }

  /** Marked pages that have no owner and are in no other thread's hands. */
  ghost predicate NobodyElses(s: Pool, t: Tid, start: nat, cnt: nat) {
    && cnt > 0 && start + cnt <= |s.used|
    && forall p: nat | start <= p < start + cnt ::
         s.used[p] && p !in s.owner && forall u | u in s.pc && u != t :: !Claims(s.pc[u], p)
  }

  /** The pages that a call is about to return. */
  function RunOf(pc: Pc): nat
    requires pc.Zeroing? || (pc.Found? && pc.run.Some?)
  {
    if pc.Zeroing? then pc.start else pc.run.value
  }

  /** In every interleaving, the pages a call is about to return are marked, belong to no one and
      are in no other call's hands. */
  lemma NoPageTwice(pages: nat, threads: set<Tid>, mem: map<nat, Byte>, es: seq<Event>, t: Tid)
    requires Allowed(Start(pages, threads, mem), es)
    requires var s := Run(Start(pages, threads, mem), es); 
      t in s.pc && (s.pc[t].Zeroing? || (s.pc[t].Found? && s.pc[t].run.Some?))
    ensures var s := Run(Start(pages, threads, mem), es);
      |s.used| == pages && NobodyElses(s, t, RunOf(s.pc[t]), s.pc[t].cnt)
  {
    hide Run, Allowed, Inv, NobodyElses;
    var s0 := Start(pages, threads, mem);
    StartInv(pages, threads, mem);
    RunKeeps(s0, es);
    RunSize(s0, es);
    var s := Run(s0, es);
    assert |s.used| == |s0.used| == pages;
    FoundIsOurs(s, t);
  }

  lemma FoundIsOurs(s: Pool, t: Tid)
    requires Inv(s) && t in s.pc && (s.pc[t].Zeroing? || (s.pc[t].Found? && s.pc[t].run.Some?))
    ensures NobodyElses(s, t, RunOf(s.pc[t]), s.pc[t].cnt)
  {
    assert PcOk(s.used, s.pc[t]);
    forall p: nat | RunOf(s.pc[t]) <= p < RunOf(s.pc[t]) + s.pc[t].cnt
      ensures s.used[p] && p !in s.owner && forall u | u in s.pc && u != t :: !ClaimsAt(s.pc, u, p)
    {
      assert ClaimsAt(s.pc, t, p);
    }
    assert forall u, p: nat | u in s.pc :: Claims(s.pc[u], p) == ClaimsAt(s.pc, u, p);
  }

  lemma {:induction false} RunSize(s: Pool, es: seq<Event>)
    requires Allowed(s, es)
    ensures |Run(s, es).used| == |s.used|
    decreases |es|
  {
    if es != [] {
      RunSize(Apply(s, es[0]), es[1..]);
    }
  }

  lemma StartInv(pages: nat, threads: set<Tid>, mem: map<nat, Byte>)
    ensures Inv(Start(pages, threads, mem))
  {
  }

  // ---- what is in the pages ----

  /** The first `n` bytes of the pages from `start` on are zeros. */
  ghost predicate Zeros(mem: map<nat, Byte>, start: nat, n: nat) {
    forall a: nat | PGSIZE * start <= a < PGSIZE * start + n :: a in mem && mem[a] == 0
  }

  /** What a call with PAL_ZERO has set to 0 so far is 0. */
  ghost predicate Cleaned(s: Pool) {
    forall t | t in s.pc && s.pc[t].Zeroing? :: Zeros(s.mem, s.pc[t].start, s.pc[t].j)
  }

  /** A byte of a page that has an owner, or is in another call's hands, is none of those. */
  lemma ByteApart(s: Pool, u: Tid, t: Tid, a: nat)
    requires Inv(s) && u in s.pc && s.pc[u].Zeroing?
    requires a / PGSIZE in s.owner || (t != u && ClaimsAt(s.pc, t, a / PGSIZE))
    ensures !(PGSIZE * s.pc[u].start <= a < PGSIZE * s.pc[u].start + s.pc[u].j)
  {
    assert PcOk(s.used, s.pc[u]);
    if PGSIZE * s.pc[u].start <= a < PGSIZE * s.pc[u].start + s.pc[u].j {
      assert ClaimsAt(s.pc, u, a / PGSIZE);
    }
  }

  lemma ByteOfRun(start: nat, cnt: nat, j: nat)
    requires j < PGSIZE * cnt
    ensures InRun(start, cnt, (PGSIZE * start + j) / PGSIZE)
  {
  }

  /** A store by thread `t` to a byte `a` that it may write spoils nobody's zeros. */
  lemma StoreKeeps(s: Pool, t: Tid, a: nat, b: Byte)
    requires Inv(s) && Cleaned(s) && (a / PGSIZE in s.owner || ClaimsAt(s.pc, t, a / PGSIZE))
    ensures forall u | u in s.pc && s.pc[u].Zeroing? && (u != t || a / PGSIZE in s.owner) ::
      Zeros(s.mem[a := b], s.pc[u].start, s.pc[u].j)
  {
    hide Inv, ClaimsAt;
    forall u | u in s.pc && s.pc[u].Zeroing? && (u != t || a / PGSIZE in s.owner)
      ensures Zeros(s.mem[a := b], s.pc[u].start, s.pc[u].j)
    {
      ByteApart(s, u, t, a);
      assert Zeros(s.mem, s.pc[u].start, s.pc[u].j);
    }
  }

  lemma CleanedKept(s: Pool, e: Event)
    requires Inv(s) && Enabled(s, e) && Cleaned(s)
    ensures Cleaned(Apply(s, e))
  {
    hide Inv, Zeros;
    if e.Put? {
      StoreKeeps(s, e.t, e.a, e.b);
    } else if e.Step? {
      CleanedStep(s, e.t);
    }
  }

  lemma CleanedStep(s: Pool, t: Tid)
    requires Inv(s) && Enabled(s, Step(t)) && Cleaned(s)
    ensures Cleaned(Apply(s, Step(t)))
  {
    hide Inv, Zeros;
    var pc := s.pc[t];
    if (pc.Zeroing? || pc.Wiping?) && pc.j < PGSIZE * pc.cnt {
      var a, b: Byte := PGSIZE * pc.start + pc.j, if pc.Zeroing? then 0 else 0xcc;
      ByteOfRun(pc.start, pc.cnt, pc.j);
      StoreKeeps(s, t, a, b);
      if pc.Zeroing? {
        OneMoreZero(s.mem, pc.start, pc.j);
      }
    } else if pc.Found? && pc.run.Some? {
      NoZerosYet(s.mem, pc.run.value);
    }
  }

  lemma OneMoreZero(mem: map<nat, Byte>, start: nat, n: nat)
    requires Zeros(mem, start, n)
    ensures Zeros(mem[PGSIZE * start + n := 0], start, n + 1)
  {
  }

  lemma NoZerosYet(mem: map<nat, Byte>, start: nat)
    ensures Zeros(mem, start, 0)
  {
  }

  lemma {:induction false} RunCleaned(s: Pool, es: seq<Event>)
    requires Inv(s) && Allowed(s, es) && Cleaned(s)
    ensures Inv(Run(s, es)) && Cleaned(Run(s, es))
    decreases |es|
  {
    hide Inv, Enabled, Apply, Cleaned;
    if es != [] {
      StepKeeps(s, es[0]);
      CleanedKept(s, es[0]);
      RunCleaned(Apply(s, es[0]), es[1..]);
    }
  }

  /** Whether its call has PAL_ZERO stays with a thread until the call returns. */
  lemma FlagStays(s: Pool, e: Event, t: Tid)
    requires Enabled(s, e) && t in s.pc
    ensures e.Get? && e.t == t ==> (t in Apply(s, e).zero <==> e.zero)
    ensures s.pc[t] != Out ==> (t in Apply(s, e).zero <==> t in s.zero)
  {
  }

  /** In every interleaving, whatever is freed, wiped or written meanwhile: the step that makes a
      page somebody's makes it the caller's, and if the call has PAL_ZERO every byte of the page is
      0 then. */
  lemma ZeroPages(pages: nat, threads: set<Tid>, mem: map<nat, Byte>, es: seq<Event>, e: Event, p: nat)
    requires Allowed(Start(pages, threads, mem), es) && Enabled(Run(Start(pages, threads, mem), es), e)
    requires var s := Run(Start(pages, threads, mem), es); p in Apply(s, e).owner && p !in s.owner
    ensures var s := Run(Start(pages, threads, mem), es); var r := Apply(s, e);
      && e.Step? && r.owner[p] == e.t && r.pc[e.t] == Out
      && (e.t in s.zero ==> forall a: nat | PGSIZE * p <= a < PGSIZE * (p + 1) :: a in r.mem && r.mem[a] == 0)
  {
    hide Run, Allowed, Inv;
    StartInv(pages, threads, mem);
    RunCleaned(Start(pages, threads, mem), es);
    var s := Run(Start(pages, threads, mem), es);
    if e.t in s.zero && s.pc[e.t].Zeroing? {
      assert Zeros(s.mem, s.pc[e.t].start, s.pc[e.t].j);
    }
  }

  /** The ASSERT of palloc_free_multiple holds: when it has wiped the pages, all of them are marked. */
  lemma FreeAsserts(s: Pool, t: Tid)
    requires Inv(s) && t in s.pc && s.pc[t].Wiping?
    ensures AllAre(s.used, s.pc[t].start, s.pc[t].cnt, true)
  {
    assert PcOk(s.used, s.pc[t]);
    forall p: nat | s.pc[t].start <= p < s.pc[t].start + s.pc[t].cnt ensures s.used[p] {
      assert ClaimsAt(s.pc, t, p);
    }
  }

  // ---- first fit ----

  /** The event is a free's clearing of a bit. */
  predicate Clears(s: Pool, e: Event) {
    e.Step? && e.t in s.pc && s.pc[e.t].Freeing?
  }

  predicate NoClears(s: Pool, es: seq<Event>)
    requires Allowed(s, es)
    decreases |es|
  {
    es == [] || (!Clears(s, es[0]) && NoClears(Apply(s, es[0]), es[1..]))
  }

  /** While no free clears a bit, the bitmap is the one at the time of locking plus what this
      call has marked. */
  ghost predicate Undisturbed(used: seq<bool>, pc: Pc) {
    match pc
    case Scanning(cnt, i, j, before) => used == before
    case Flipping(cnt, start, j, before) => used == Mark(before, start, j, true) && AllAre(before, start, cnt, false)
    case Found(cnt, run, before) => run.Some? ==> AllAre(before, run.value, cnt, false)
    case _ => true
  }

  predicate SameCall(p: Pc, q: Pc) {
    InSection(p) && InSection(q) && p.cnt == q.cnt && p.before == q.before
  }

  lemma StaysUndisturbed(s: Pool, e: Event, t: Tid)
    requires Inv(s) && Enabled(s, e) && !Clears(s, e) && t in s.pc && InSection(s.pc[t])
    requires Undisturbed(s.used, s.pc[t])
    ensures var r := Apply(s, e);
      t in r.pc && (!InSection(r.pc[t]) || (SameCall(s.pc[t], r.pc[t]) && Undisturbed(r.used, r.pc[t])))
  {
    hide Accounts, PcOk;
    SectionFacts(s, t);
    if e == Step(t) {
      OwnStep(s, t);
    }
  }

  lemma OwnStep(s: Pool, t: Tid)
    requires t in s.pc && InSection(s.pc[t]) && PcOk(s.used, s.pc[t]) && Undisturbed(s.used, s.pc[t])
    ensures StepFits(s.pc[t], |s.used|)
    ensures var r := Advance(s, t, s.pc[t]);
      !InSection(r.pc[t]) || (SameCall(s.pc[t], r.pc[t]) && Undisturbed(r.used, r.pc[t]))
  {
    match s.pc[t] {
      case Scanning(cnt, i, j, before) =>
        if i + cnt <= |s.used| && j >= cnt {
          assert Mark(before, i, 0, true) == before;
        }
      case Flipping(cnt, start, j, before) =>
        if j < cnt {
          assert Mark(before, start, j, true)[start + j := true] == Mark(before, start, j + 1, true);
        }
      case _ =>
    }
  }

  /** First fit: with no free at work meanwhile, a call finds the lowest run of free pages that is
      long enough, and fails only if there was none. (With frees at work, what it finds is no
      higher than the lowest run at the time of locking, and if it fails there was none then.) */
  lemma FirstFit(s: Pool, t: Tid, cnt: nat, zero: bool, es: seq<Event>)
    requires Inv(s) && Enabled(s, Get(t, cnt, zero)) && Allowed(Apply(s, Get(t, cnt, zero)), es)
    requires StillIn(Apply(s, Get(t, cnt, zero)), es, t)
    requires var r := Run(Apply(s, Get(t, cnt, zero)), es); t in r.pc && r.pc[t].Found?
    ensures var run, lowest := Run(Apply(s, Get(t, cnt, zero)), es).pc[t].run, Scan(s.used, 0, cnt, false);
      && (run.None? ==> lowest.None?) && (run.Some? && lowest.Some? ==> run.value <= lowest.value)
      && (NoClears(Apply(s, Get(t, cnt, zero)), es) ==> run == lowest)
  {
    hide Run, Allowed, Inv, StillIn, NoClears, PcOk;
    var s1 := Apply(s, Get(t, cnt, zero));
    StepKeeps(s, Get(t, cnt, zero));
    RunKeeps(s1, es);
    CallGoesOn(s1, es, t);
    var r := Run(s1, es);
    FoundPlace(r, t);
    ScanFindsLowest(s.used, 0, cnt, false);
    if NoClears(s1, es) {
      RunUndisturbed(s1, es, t);
    }
  }

  lemma FoundPlace(s: Pool, t: Tid)
    requires Inv(s) && t in s.pc && s.pc[t].Found?
    ensures var Found(cnt, run, before) := s.pc[t];
      if run.Some? then NoneBelow(before, run.value, cnt) else forall k: nat :: !AllAre(before, k, cnt, false)
  {
    hide Accounts;
    assert PcOk(s.used, s.pc[t]);
  }

  /** Thread `t` stays inside the one call all along. */
  predicate StillIn(s: Pool, es: seq<Event>, t: Tid)
    requires Allowed(s, es)
    decreases |es|
  {
    t in s.pc && InSection(s.pc[t]) && (es == [] || StillIn(Apply(s, es[0]), es[1..], t))
  }

  lemma {:induction false} CallGoesOn(s: Pool, es: seq<Event>, t: Tid)
    requires Inv(s) && Allowed(s, es) && StillIn(s, es, t)
    ensures t in Run(s, es).pc && SameCall(s.pc[t], Run(s, es).pc[t])
    decreases |es|
  {
    hide Inv, Advance;
    if es != [] {
      StepKeeps(s, es[0]);
      CallStep(s, es[0], t);
      CallGoesOn(Apply(s, es[0]), es[1..], t);
    }
  }

  lemma CallStep(s: Pool, e: Event, t: Tid)
    requires Inv(s) && Enabled(s, e) && t in s.pc && InSection(s.pc[t])
    requires t in Apply(s, e).pc && InSection(Apply(s, e).pc[t])
    ensures SameCall(s.pc[t], Apply(s, e).pc[t])
  {
    hide Accounts, PcOk;
    SectionFacts(s, t);
  }

  lemma {:induction false} RunUndisturbed(s: Pool, es: seq<Event>, t: Tid)
    requires Inv(s) && Allowed(s, es) && StillIn(s, es, t) && NoClears(s, es) && Undisturbed(s.used, s.pc[t])
    ensures t in Run(s, es).pc && Undisturbed(Run(s, es).used, Run(s, es).pc[t])
    decreases |es|
  {
    hide Inv, Advance, Undisturbed, Enabled, Apply, Clears;
    if es != [] {
      StepKeeps(s, es[0]);
      StaysUndisturbed(s, es[0], t);
      RunUndisturbed(Apply(s, es[0]), es[1..], t);
    }
  }
}
