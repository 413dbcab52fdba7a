/** The calls of threads/palloc.c from beginning to end, whatever runs in between. */
module PallocCalls {
  import opened Bytes
  import opened Options
  import opened Bitmap
  import opened Palloc

  // ---- palloc_get_multiple ----

  lemma SearchGoesOn(s: Pool, e: Event, t: Tid)
    requires Enabled(s, e) && t in s.pc && InSection(s.pc[t]) && !s.pc[t].Found?
    ensures var r := Apply(s, e); t in r.pc && InSection(r.pc[t])
  {
  }

  /** The search of a call that ends comes to a result. */
  lemma {:induction false} SearchEnds(s: Pool, es: seq<Event>, t: Tid) returns (p: nat)
    requires Inv(s) && Allowed(s, es) && t in s.pc && InSection(s.pc[t])
    requires var r := Run(s, es); t in r.pc && !InSection(r.pc[t])
    ensures p < |es| && Allowed(s, es[..p]) && StillIn(s, es[..p], t)
    ensures var r := Run(s, es[..p]); t in r.pc && r.pc[t].Found?
    ensures Allowed(Run(s, es[..p]), es[p..]) && Run(Run(s, es[..p]), es[p..]) == Run(s, es)
    decreases |es|
  {
    hide Inv, Enabled, Apply;
    if s.pc[t].Found? {
      p := 0;
      assert es[0..] == es;
    } else {
      var e, rest := es[0], es[1..];
      StepKeeps(s, e);
      SearchGoesOn(s, e, t);
      var k := SearchEnds(Apply(s, e), rest, t);
      p := k + 1;
      assert es[..p][1..] == rest[..k] && es[p..] == rest[k..];
    }
  }

  /** The call has its result, and may be filling its pages with zeros. */
  predicate HasResult(pc: Pc, cnt: nat, run: Option<nat>) {
    || (pc.Found? && pc.cnt == cnt && pc.run == run)
    || (pc.Zeroing? && pc.cnt == cnt && run == Some(pc.start))
  }

  /** It has returned, and the pages are its caller's. */
  predicate Returned(s: Pool, t: Tid, cnt: nat, run: Option<nat>) {
    && t in s.pc && s.pc[t] == Out
    && (run.Some? ==> forall p | run.value <= p < run.value + cnt :: p in s.owner && s.owner[p] == t)
  }

  lemma ResultStays(s: Pool, e: Event, t: Tid, cnt: nat, run: Option<nat>)
    requires Enabled(s, e) && t in s.pc && HasResult(s.pc[t], cnt, run)
    ensures var r := Apply(s, e); Returned(r, t, cnt, run) || (t in r.pc && HasResult(r.pc[t], cnt, run))
  {
  }

  lemma {:induction false} ResultReturned(s: Pool, es: seq<Event>, t: Tid, cnt: nat, run: Option<nat>) returns (q: nat)
    requires Inv(s) && Allowed(s, es) && t in s.pc && HasResult(s.pc[t], cnt, run)
    requires var r := Run(s, es); t in r.pc && r.pc[t] == Out
    ensures 0 < q <= |es| && Allowed(s, es[..q]) && Returned(Run(s, es[..q]), t, cnt, run)
    decreases |es|
  {
    hide Inv, Enabled, Apply, Returned;
    var e, rest := es[0], es[1..];
    StepKeeps(s, e);
    ResultStays(s, e, t, cnt, run);
    if Returned(Apply(s, e), t, cnt, run) {
      q := 1;
      assert es[..1] == [e];
    } else {
      var k := ResultReturned(Apply(s, e), rest, t, cnt, run);
      q := k + 1;
      assert es[..q][1..] == rest[..k];
    }
  }

  lemma GetBegins(s: Pool, t: Tid, cnt: nat, zero: bool)
    requires Enabled(s, Get(t, cnt, zero))
    ensures var r := Apply(s, Get(t, cnt, zero)); t in r.pc && InSection(r.pc[t]) && r.pc[t].cnt == cnt
  {
  }

  lemma {:induction false} RunConcat(s: Pool, es: seq<Event>, fs: seq<Event>)
    requires Allowed(s, es) && Allowed(Run(s, es), fs)
    ensures Allowed(s, es + fs) && Run(s, es + fs) == Run(Run(s, es), fs)
    decreases |es|
  {
    hide Enabled, Apply;
    if es == [] {
      assert es + fs == fs;
    } else {
      RunConcat(Apply(s, es[0]), es[1..], fs);
      assert (es + fs)[1..] == es[1..] + fs;
    }
  }

  /** A call of palloc_get_multiple that has ended had found its result at some step, the first fit if no
      free had disturbed it, and when it returned the pages of that result, all `cnt` of them, were its
      caller's. */
  lemma GetReturns(s: Pool, t: Tid, cnt: nat, zero: bool, es: seq<Event>) returns (p: nat, q: nat)
    requires Inv(s) && Enabled(s, Get(t, cnt, zero)) && Allowed(Apply(s, Get(t, cnt, zero)), es)
    requires var r := Run(Apply(s, Get(t, cnt, zero)), es); t in r.pc && r.pc[t] == Out
    ensures var s1 := Apply(s, Get(t, cnt, zero));
      && p < q <= |es| && Allowed(s1, es[..p]) && StillIn(s1, es[..p], t) && Allowed(s1, es[..q])
      && var r := Run(s1, es[..p]);
         && t in r.pc && r.pc[t].Found? && r.pc[t].cnt == cnt && Returned(Run(s1, es[..q]), t, cnt, r.pc[t].run)
         && (NoClears(s1, es[..p]) ==> r.pc[t].run == Scan(s.used, 0, cnt, false))
  {
    hide Inv, Enabled, Apply, Returned;
    StepKeeps(s, Get(t, cnt, zero));
    GetBegins(s, t, cnt, zero);
    var s1 := Apply(s, Get(t, cnt, zero));
    p := SearchEnds(s1, es, t);
    RunKeeps(s1, es[..p]);
    CallGoesOn(s1, es[..p], t);
    FirstFit(s, t, cnt, zero, es[..p]);
    var r := Run(s1, es[..p]);
    var k := ResultReturned(r, es[p..], t, cnt, r.pc[t].run);
    q := p + k;
    RunConcat(s1, es[..p], es[p..][..k]);
    assert es[..p] + es[p..][..k] == es[..q];
  }

  // ---- palloc_free_multiple ----

  /** The call has still to clear the bit of page `k`. */
  predicate ToClear(pc: Pc, k: nat) {
    (pc.Wiping? || pc.Freeing?) && Claims(pc, k)
  }

  /** The event is a step of `t` that makes page `k` free. */
  predicate MakesFree(s: Pool, e: Event, t: Tid, k: nat)
    requires Enabled(s, e)
  {
    var r := Apply(s, e);
    e == Step(t) && k < |s.used| == |r.used| && s.used[k] && !r.used[k]
  }

  lemma ClearingGoesOn(s: Pool, e: Event, t: Tid, k: nat)
    requires Inv(s) && Enabled(s, e) && t in s.pc && ToClear(s.pc[t], k)
    ensures var r := Apply(s, e); MakesFree(s, e, t, k) || (t in r.pc && ToClear(r.pc[t], k))
  {
    hide Inv, Apply, Enabled, MakesFree;
    ClaimedIsUsed(s, t, k);
    ClearingStep(s, e, t, k);
  }

  lemma ClearingStep(s: Pool, e: Event, t: Tid, k: nat)
    requires Enabled(s, e) && t in s.pc && ToClear(s.pc[t], k) && k < |s.used| && s.used[k]
    ensures var r := Apply(s, e); MakesFree(s, e, t, k) || (t in r.pc && ToClear(r.pc[t], k))
  {
  }

  lemma ClaimedIsUsed(s: Pool, t: Tid, k: nat)
    requires Inv(s) && ClaimsAt(s.pc, t, k)
    ensures k < |s.used| && s.used[k]
  {
    hide Sections, Places;
  }

  lemma {:induction false} ClearingEnds(s: Pool, es: seq<Event>, t: Tid, k: nat) returns (p: nat)
    requires Inv(s) && Allowed(s, es) && t in s.pc && ToClear(s.pc[t], k)
    requires var r := Run(s, es); t in r.pc && r.pc[t] == Out
    ensures p < |es| && Allowed(s, es[..p]) && Enabled(Run(s, es[..p]), es[p])
    ensures MakesFree(Run(s, es[..p]), es[p], t, k)
    decreases |es|
  {
    hide Inv, Enabled, Apply, MakesFree;
    var e, rest := es[0], es[1..];
    StepKeeps(s, e);
    ClearingGoesOn(s, e, t, k);
    if MakesFree(s, e, t, k) {
      p := 0;
    } else {
      var i := ClearingEnds(Apply(s, e), rest, t, k);
      p := i + 1;
      assert es[..p][1..] == rest[..i];
    }
  }

  lemma FreeBegins(s: Pool, t: Tid, start: nat, cnt: nat, k: nat)
    requires Enabled(s, Free(t, start, cnt)) && start <= k < start + cnt
    ensures var r := Apply(s, Free(t, start, cnt)); t in r.pc && ToClear(r.pc[t], k) && k !in r.owner
  {
  }

  /** A call of palloc_free_multiple that has ended has made each of its pages free: from the call on
      the page is nobody's, and some step of the call cleared its bit. */
  lemma FreeReturns(s: Pool, t: Tid, start: nat, cnt: nat, es: seq<Event>, k: nat) returns (p: nat)
    requires Inv(s) && Enabled(s, Free(t, start, cnt)) && Allowed(Apply(s, Free(t, start, cnt)), es)
    requires var r := Run(Apply(s, Free(t, start, cnt)), es); t in r.pc && r.pc[t] == Out
    requires start <= k < start + cnt
    ensures var s1 := Apply(s, Free(t, start, cnt));
      && k !in s1.owner && p < |es| && Allowed(s1, es[..p]) && Enabled(Run(s1, es[..p]), es[p])
      && MakesFree(Run(s1, es[..p]), es[p], t, k)
  {
    hide Inv, Enabled, Apply, MakesFree;
    StepKeeps(s, Free(t, start, cnt));
    FreeBegins(s, t, start, cnt, k);
    p := ClearingEnds(Apply(s, Free(t, start, cnt)), es, t, k);
  }
}
