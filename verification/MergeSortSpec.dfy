/** What list_sort computes, on sequences: one pass merges adjacent maximal runs, and passes
    repeat until a pass leaves a single run. `less` is the caller's comparison; it has to be
    a strict weak order only on the elements at hand, collected in `u`. */
module MergeSortSpec {
  import opened Nonlinear

  type Less<!T> = (T, T) -> bool

  ghost predicate StrictWeakOrder<T>(less: Less<T>, u: set<T>) {
    && (forall x | x in u :: !less(x, x))
    && (forall x, y, z | x in u && y in u && z in u :: less(x, y) && less(y, z) ==> less(x, z))
    && (forall x, y, z | x in u && y in u && z in u :: less(x, z) ==> less(x, y) || less(y, z))
  }

  ghost predicate Within<T>(s: seq<T>, u: set<T>) {
    forall i | 0 <= i < |s| :: s[i] in u
  }

  ghost predicate Sorted<T>(s: seq<T>, less: Less<T>) {
    forall i, j | 0 <= i < j < |s| :: !less(s[j], s[i])
  }

  /** No element is less than its predecessor. */
  ghost predicate Ascending<T>(s: seq<T>, less: Less<T>) {
    forall i {:trigger s[i]} | 0 < i < |s| :: !less(s[i], s[i - 1])
  }

  predicate Equivalent<T>(x: T, y: T, less: Less<T>) {
    !less(x, y) && !less(y, x)
  }

  function IfEquivalent<T>(x: T, y: T, less: Less<T>): seq<T> {
    if Equivalent(x, y, less) then [y] else []
  }

  /** The elements of `s` equivalent to `x`, in the order they appear. */
  function ClassOf<T>(x: T, s: seq<T>, less: Less<T>): seq<T> {
    if s == [] then [] else IfEquivalent(x, s[0], less) + ClassOf(x, s[1..], less)
  }

  /** The two sequences hold the same elements, equivalent ones in the same order. */
  ghost predicate StablePermutation<T>(s: seq<T>, t: seq<T>, less: Less<T>, u: set<T>) {
    && multiset(s) == multiset(t)
    && forall x | x in u :: ClassOf(x, s, less) == ClassOf(x, t, less)
  }

  // ---- the algorithm on sequences ----

  /** Exclusive end of the maximal run that starts at `lo`. */
  function RunEnd<T>(s: seq<T>, lo: nat, less: Less<T>): (hi: nat)
    requires lo < |s|
    ensures lo < hi <= |s|
    decreases |s| - lo
  {
    if lo + 1 == |s| || less(s[lo + 1], s[lo]) then lo + 1 else RunEnd(s, lo + 1, less)
  }

  lemma {:induction false} RunIsMaximal<T>(s: seq<T>, lo: nat, less: Less<T>)
    requires lo < |s|
    ensures var hi := RunEnd(s, lo, less);
      && (hi < |s| ==> less(s[hi], s[hi - 1]))
      && (forall i {:trigger s[i]} | lo < i < hi :: !less(s[i], s[i - 1]))
    decreases |s| - lo
  {
    if !(lo + 1 == |s| || less(s[lo + 1], s[lo])) {
      RunIsMaximal(s, lo + 1, less);
    }
  }

  function Merge<T>(a: seq<T>, b: seq<T>, less: Less<T>): (r: seq<T>)
    ensures |r| == |a| + |b|
  {
    if a == [] then b
    else if b == [] then a
    else if !less(b[0], a[0]) then [a[0]] + Merge(a[1..], b, less)
    else [b[0]] + Merge(a, b[1..], less)
  }

  function Pass<T>(s: seq<T>, less: Less<T>): (r: seq<T>)
    ensures |r| == |s|
  {
    if s == [] then []
    else
      var m := RunEnd(s, 0, less);
      if m == |s| then s
      else
        var e := RunEnd(s, m, less);
        Merge(s[..m], s[m..e], less) + Pass(s[e..], less)
  }

  /** Number of runs a pass puts out, as the loop counts them. */
  function OutputRuns<T>(s: seq<T>, less: Less<T>): nat {
    if s == [] then 0
    else
      var m := RunEnd(s, 0, less);
      if m == |s| then 1 else 1 + OutputRuns(s[RunEnd(s, m, less)..], less)
  }

  /** Places where an element is less than its predecessor. */
  function Descents<T>(s: seq<T>, less: Less<T>): nat {
    if |s| < 2 then 0 else (if less(s[1], s[0]) then 1 else 0) + Descents(s[1..], less)
  }

  /** Number of maximal runs. */
  function Runs<T>(s: seq<T>, less: Less<T>): nat {
    if s == [] then 0 else 1 + Descents(s, less)
  }

  // ---- counting runs ----

  lemma {:induction false} DescentsConcat<T>(a: seq<T>, b: seq<T>, less: Less<T>)
    requires a != [] && b != []
    ensures Descents(a + b, less)
         == Descents(a, less) + Descents(b, less) + (if less(b[0], a[|a| - 1]) then 1 else 0)
    decreases |a|
  {
    assert (a + b)[1..] == a[1..] + b;
    if |a| > 1 {
      DescentsConcat(a[1..], b, less);
    } else {
      assert (a + b)[1..] == b;
    }
  }

  lemma {:induction false} AscendingHasNoDescents<T>(s: seq<T>, less: Less<T>)
    ensures Ascending(s, less) <==> Descents(s, less) == 0
    decreases |s|
  {
    if |s| >= 2 {
      AscendingHasNoDescents(s[1..], less);
      if Ascending(s, less) {
        assert Ascending(s[1..], less) by {
          forall i {:trigger s[1..][i]} | 0 < i < |s[1..]|
            ensures !less(s[1..][i], s[1..][i - 1])
          {
            assert s[1..][i] == s[i + 1];
          }
        }
        assert !less(s[1], s[0]);
      } else {
        var i :| 0 < i < |s| && less(s[i], s[i - 1]);
        if i > 1 {
          assert s[1..][i - 1] == s[i];
        }
      }
    }
  }

  /** Splitting off the first maximal run leaves one run fewer. */
  lemma FirstRun<T>(s: seq<T>, less: Less<T>)
    requires s != []
    ensures var m := RunEnd(s, 0, less);
      && Ascending(s[..m], less)
      && Runs(s, less) == 1 + Runs(s[m..], less)
  {
    var m := RunEnd(s, 0, less);
    RunIsMaximal(s, 0, less);
    assert Ascending(s[..m], less);
    AscendingHasNoDescents(s[..m], less);
    if m < |s| {
      assert s == s[..m] + s[m..];
      DescentsConcat(s[..m], s[m..], less);
    } else {
      assert s[..m] == s;
    }
  }

  lemma RunEndShift<T>(s: seq<T>, m: nat, less: Less<T>)
    requires m < |s|
    ensures RunEnd(s, m, less) == m + RunEnd(s[m..], 0, less)
  {
    var t, e := s[m..], RunEnd(s, m, less);
    RunIsMaximal(s, m, less);
    assert forall i {:trigger t[i]} | 0 < i < |t| :: t[i] == s[m + i] && t[i - 1] == s[m + i - 1];
    RunEndUnique(t, less, e - m);
  }

  lemma {:induction false} RunEndUnique<T>(s: seq<T>, less: Less<T>, hi: nat)
    requires s != [] && 0 < hi <= |s|
    requires hi < |s| ==> less(s[hi], s[hi - 1])
    requires forall i {:trigger s[i]} | 0 < i < hi :: !less(s[i], s[i - 1])
    ensures RunEnd(s, 0, less) == hi
  {
    RunIsMaximal(s, 0, less);
    assert RunEnd(s, 0, less) == hi;
  }

  /** A pass over r runs puts out half as many, rounded up. */
  lemma {:induction false} OutputRunsIsHalf<T>(s: seq<T>, less: Less<T>)
    ensures OutputRuns(s, less) == (Runs(s, less) + 1) / 2
    decreases |s|
  {
    if s != [] {
      FirstRun(s, less);
      var m := RunEnd(s, 0, less);
      if m < |s| {
        FirstRun(s[m..], less);
        RunEndShift(s, m, less);
        var e := RunEnd(s, m, less);
        assert s[m..][RunEnd(s[m..], 0, less)..] == s[e..];
        OutputRunsIsHalf(s[e..], less);
      }
    }
  }

  // ---- one merge ----

  lemma {:induction false} AscendingIsSorted<T>(s: seq<T>, less: Less<T>, u: set<T>)
    requires StrictWeakOrder(less, u) && Within(s, u)
    ensures Ascending(s, less) <==> Sorted(s, less)
  {
    if Ascending(s, less) {
      forall i, j | 0 <= i < j < |s|
        ensures !less(s[j], s[i])
      {
        AscendingReaches(s, less, u, i, j);
      }
    }
  }

  lemma {:induction false} AscendingReaches<T>(s: seq<T>, less: Less<T>, u: set<T>, i: nat, j: nat)
    requires StrictWeakOrder(less, u) && Within(s, u) && Ascending(s, less)
    requires i < j < |s|
    ensures !less(s[j], s[i])
    decreases j
  {
    if i < j - 1 {
      AscendingReaches(s, less, u, i, j - 1);
    }
  }

  lemma {:induction false} MergePermutes<T>(a: seq<T>, b: seq<T>, less: Less<T>)
    ensures multiset(Merge(a, b, less)) == multiset(a) + multiset(b)
    decreases |a| + |b|
  {
    if a != [] && b != [] {
      if !less(b[0], a[0]) {
        assert a == [a[0]] + a[1..];
        MergePermutes(a[1..], b, less);
      } else {
        assert b == [b[0]] + b[1..];
        MergePermutes(a, b[1..], less);
      }
    }
  }

  lemma {:induction false} MergeSorted<T>(a: seq<T>, b: seq<T>, less: Less<T>, u: set<T>)
    requires StrictWeakOrder(less, u) && Within(a, u) && Within(b, u)
    requires Sorted(a, less) && Sorted(b, less)
    ensures Sorted(Merge(a, b, less), less)
    decreases |a| + |b|
  {
    if a != [] && b != [] {
      if !less(b[0], a[0]) {
        MergeSorted(a[1..], b, less, u);
        ConsSorted(a[0], a[1..], b, less, u);
      } else {
        MergeSorted(a, b[1..], less, u);
        assert !less(a[0], b[0]);
        ConsSorted(b[0], a, b[1..], less, u);
      }
    }
  }

  lemma ConsSorted<T>(x: T, a: seq<T>, b: seq<T>, less: Less<T>, u: set<T>)
    requires StrictWeakOrder(less, u) && x in u && Within(a, u) && Within(b, u)
    requires Sorted(a, less) && Sorted(b, less) && Sorted(Merge(a, b, less), less)
    requires a != [] ==> !less(a[0], x)
    requires b != [] ==> !less(b[0], x)
    ensures Sorted([x] + Merge(a, b, less), less)
  {
    var r := Merge(a, b, less);
    MergePermutes(a, b, less);
    forall j | 0 <= j < |r|
      ensures !less(r[j], x)
    {
      assert r[j] in multiset(r);
      if r[j] in multiset(a) {
        var k :| 0 <= k < |a| && a[k] == r[j];
        assert k == 0 || !less(a[k], a[0]);
      } else {
        assert r[j] in multiset(b);
        var k :| 0 <= k < |b| && b[k] == r[j];
        assert k == 0 || !less(b[k], b[0]);
      }
    }
  }

  lemma {:induction false} ClassConcat<T>(x: T, a: seq<T>, b: seq<T>, less: Less<T>)
    ensures ClassOf(x, a + b, less) == ClassOf(x, a, less) + ClassOf(x, b, less)
    decreases |a|
  {
    hide IfEquivalent;
    if a == [] {
      assert a + b == b;
    } else {
      assert (a + b)[1..] == a[1..] + b;
      ClassConcat(x, a[1..], b, less);
      var h := IfEquivalent(x, a[0], less);
      assert ClassOf(x, a + b, less) == h + (ClassOf(x, a[1..], less) + ClassOf(x, b, less));
    }
  }

  lemma {:induction false} ClassEmpty<T>(x: T, s: seq<T>, less: Less<T>)
    requires forall i | 0 <= i < |s| :: !Equivalent(x, s[i], less)
    ensures ClassOf(x, s, less) == []
    decreases |s|
  {
    if s != [] {
      assert !Equivalent(x, s[0], less);
      ClassEmpty(x, s[1..], less);
    }
  }

  /** Merging sorted sequences keeps equivalent elements in order, the first run's ahead. */
  lemma {:induction false} MergeStable<T>(x: T, a: seq<T>, b: seq<T>, less: Less<T>, u: set<T>)
    requires StrictWeakOrder(less, u) && x in u && Within(a, u) && Within(b, u)
    requires Sorted(a, less) && Sorted(b, less)
    ensures ClassOf(x, Merge(a, b, less), less) == ClassOf(x, a, less) + ClassOf(x, b, less)
    decreases |a| + |b|
  {
    hide StrictWeakOrder;
    hide Sorted;
    hide Within;
    hide IfEquivalent;
    if a != [] && b != [] {
      if !less(b[0], a[0]) {
        Tail(a, less, u);
        MergeStable(x, a[1..], b, less, u);
        ClassCons(x, a[0], Merge(a[1..], b, less), less);
        ConcatAssoc(IfEquivalent(x, a[0], less), ClassOf(x, a[1..], less), ClassOf(x, b, less));
      } else {
        Tail(b, less, u);
        MergeStable(x, a, b[1..], less, u);
        ClassCons(x, b[0], Merge(a, b[1..], less), less);
        SecondFirst(x, a, b, less, u);
      }
    } else if a == [] {
      assert ClassOf(x, b, less) == [] + ClassOf(x, b, less);
    } else {
      assert ClassOf(x, a, less) == ClassOf(x, a, less) + [];
    }
  }

  lemma ConcatAssoc<T>(a: seq<T>, b: seq<T>, c: seq<T>)
    ensures a + (b + c) == (a + b) + c
  {
  }

  lemma Tail<T>(s: seq<T>, less: Less<T>, u: set<T>)
    requires s != [] && Sorted(s, less) && Within(s, u)
    ensures Sorted(s[1..], less) && Within(s[1..], u)
  {
  }

  /** Taking `b[0]` first is only done when nothing in `a` is equivalent to it. */
  lemma SecondFirst<T>(x: T, a: seq<T>, b: seq<T>, less: Less<T>, u: set<T>)
    requires StrictWeakOrder(less, u) && x in u && Within(a, u) && Within(b, u)
    requires Sorted(a, less) && a != [] && b != [] && less(b[0], a[0])
    ensures IfEquivalent(x, b[0], less) + (ClassOf(x, a, less) + ClassOf(x, b[1..], less))
         == ClassOf(x, a, less) + ClassOf(x, b, less)
  {
    hide StrictWeakOrder;
    hide Sorted;
    var h, ca, cb := IfEquivalent(x, b[0], less), ClassOf(x, a, less), ClassOf(x, b[1..], less);
    if Equivalent(x, b[0], less) {
      NoneEquivalentAbove(x, a, b[0], less, u);
      assert ca == [];
      assert h + (ca + cb) == ca + (h + cb);
    } else {
      assert h == [];
      assert h + (ca + cb) == ca + (h + cb);
    }
  }

  lemma ClassCons<T>(x: T, y: T, s: seq<T>, less: Less<T>)
    ensures ClassOf(x, [y] + s, less) == IfEquivalent(x, y, less) + ClassOf(x, s, less)
  {
    assert ([y] + s)[1..] == s;
  }

  lemma NoneEquivalentAbove<T>(x: T, a: seq<T>, y: T, less: Less<T>, u: set<T>)
    requires StrictWeakOrder(less, u) && x in u && y in u && Within(a, u)
    requires Sorted(a, less) && a != [] && less(y, a[0]) && Equivalent(x, y, less)
    ensures ClassOf(x, a, less) == []
  {
    forall i | 0 <= i < |a|
      ensures !Equivalent(x, a[i], less)
    {
      assert i == 0 || !less(a[i], a[0]);
      assert less(y, a[i]);
    }
    ClassEmpty(x, a, less);
  }

  // ---- one pass ----

  lemma WithinSlice<T>(s: seq<T>, u: set<T>, lo: nat, hi: nat)
    requires Within(s, u) && lo <= hi <= |s|
    ensures Within(s[lo..hi], u) && (hi == |s| ==> Within(s[lo..], u))
  {
  }

  lemma AscendingSlice<T>(s: seq<T>, lo: nat, less: Less<T>)
    requires lo < |s|
    ensures Ascending(s[lo..RunEnd(s, lo, less)], less)
  {
    var r := s[lo..RunEnd(s, lo, less)];
    RunIsMaximal(s, lo, less);
    forall i {:trigger r[i]} | 0 < i < |r|
      ensures !less(r[i], r[i - 1])
    {
      assert r[i] == s[lo + i];
    }
  }

  /** One step of a pass: the two runs at the front are merged, stably. */
  lemma PassStep<T>(s: seq<T>, m: nat, e: nat, less: Less<T>, u: set<T>)
    requires StrictWeakOrder(less, u) && Within(s, u) && s != []
    requires m == RunEnd(s, 0, less) < |s| && e == RunEnd(s, m, less)
    ensures var r := Merge(s[..m], s[m..e], less);
      Sorted(r, less) && StablePermutation(s[..e], r, less, u)
  {
    hide Sorted;
    hide Ascending;
    hide StrictWeakOrder;
    hide ClassOf;
    hide Merge;
    hide RunEnd;
    AscendingSlice(s, 0, less);
    AscendingSlice(s, m, less);
    AscendingIsSorted(s[..m], less, u);
    AscendingIsSorted(s[m..e], less, u);
    MergeSorted(s[..m], s[m..e], less, u);
    MergePermutes(s[..m], s[m..e], less);
    assert s[..e] == s[..m] + s[m..e];
    forall x | x in u
      ensures ClassOf(x, s[..e], less) == ClassOf(x, Merge(s[..m], s[m..e], less), less)
    {
      MergeStable(x, s[..m], s[m..e], less, u);
      ClassConcat(x, s[..m], s[m..e], less);
    }
  }

  lemma StableConcat<T>(a: seq<T>, b: seq<T>, c: seq<T>, d: seq<T>, less: Less<T>, u: set<T>)
    requires StablePermutation(a, c, less, u) && StablePermutation(b, d, less, u)
    ensures StablePermutation(a + b, c + d, less, u)
  {
    forall x | x in u
      ensures ClassOf(x, a + b, less) == ClassOf(x, c + d, less)
    {
      ClassConcat(x, a, b, less);
      ClassConcat(x, c, d, less);
    }
  }

  lemma {:induction false} PassStable<T>(s: seq<T>, less: Less<T>, u: set<T>)
    requires StrictWeakOrder(less, u) && Within(s, u)
    ensures StablePermutation(s, Pass(s, less), less, u)
    decreases |s|
  {
    hide StablePermutation;
    hide StrictWeakOrder;
    hide Within;
    hide Pass;
    if s != [] && RunEnd(s, 0, less) < |s| {
      var m := RunEnd(s, 0, less);
      var e := RunEnd(s, m, less);
      WithinSlice(s, u, e, |s|);
      PassStable(s[e..], less, u);
      PassStableStep(s, m, e, less, u);
    } else {
      PassWhole(s, less);
      StableReflexive(s, less, u);
    }
  }

  lemma PassTwoRuns<T>(t: seq<T>, m: nat, j: nat, less: Less<T>)
    requires 0 < m < j <= |t| && RunEnd(t, 0, less) == m && RunEnd(t, m, less) == j
    ensures Pass(t, less) == Merge(t[..m], t[m..j], less) + Pass(t[j..], less)
    ensures OutputRuns(t, less) == 1 + OutputRuns(t[j..], less)
  {
    hide RunEnd;
    hide Merge;
  }

  lemma PassWhole<T>(s: seq<T>, less: Less<T>)
    requires s == [] || RunEnd(s, 0, less) == |s|
    ensures Pass(s, less) == s
  {
  }

  lemma StableSplit<T>(s: seq<T>, e: nat, c: seq<T>, d: seq<T>, less: Less<T>, u: set<T>)
    requires e <= |s| && StablePermutation(s[..e], c, less, u) && StablePermutation(s[e..], d, less, u)
    ensures StablePermutation(s, c + d, less, u)
  {
    hide StablePermutation;
    StableConcat(s[..e], s[e..], c, d, less, u);
    assert s[..e] + s[e..] == s;
  }

  lemma PassStableStep<T>(s: seq<T>, m: nat, e: nat, less: Less<T>, u: set<T>)
    requires StrictWeakOrder(less, u) && Within(s, u) && s != []
    requires m == RunEnd(s, 0, less) < |s| && e == RunEnd(s, m, less)
    requires StablePermutation(s[e..], Pass(s[e..], less), less, u)
    ensures StablePermutation(s, Pass(s, less), less, u)
  {
    hide StablePermutation;
    hide StrictWeakOrder;
    hide Sorted;
    hide Merge;
    hide RunEnd;
    hide Pass;
    hide Within;
    PassTwoRuns(s, m, e, less);
    PassStep(s, m, e, less, u);
    StableSplit(s, e, Merge(s[..m], s[m..e], less), Pass(s[e..], less), less, u);
  }

  lemma StableReflexive<T>(s: seq<T>, less: Less<T>, u: set<T>)
    ensures StablePermutation(s, s, less, u)
  {
  }

  /** Merged runs may join up, so a pass leaves at most as many runs as it counted. */
  lemma {:induction false} PassRuns<T>(s: seq<T>, less: Less<T>, u: set<T>)
    requires StrictWeakOrder(less, u) && Within(s, u)
    ensures Runs(Pass(s, less), less) <= OutputRuns(s, less)
    decreases |s|
  {
    hide StrictWeakOrder;
    hide ClassOf;
    hide Merge;
    hide RunEnd;
    if s != [] {
      var m := RunEnd(s, 0, less);
      if m < |s| {
        var e := RunEnd(s, m, less);
        var r := Merge(s[..m], s[m..e], less);
        PassStep(s, m, e, less, u);
        AscendingIsSorted(r, less, u) by {
          SameElementsWithin(s[..e], r, u);
        }
        AscendingHasNoDescents(r, less);
        PassRuns(s[e..], less, u);
        var rest := Pass(s[e..], less);
        if rest != [] {
          DescentsConcat(r, rest, less);
        } else {
          assert r + rest == r;
        }
      } else {
        FirstRun(s, less);
      }
    }
  }

  lemma SameElementsWithin<T>(s: seq<T>, t: seq<T>, u: set<T>)
    requires multiset(s) == multiset(t) && Within(s, u)
    ensures Within(t, u)
  {
    forall i | 0 <= i < |t|
      ensures t[i] in u
    {
      assert t[i] in multiset(s);
    }
  }

  /** The promise about one pass: from r runs to at most ceil(r / 2). */
  lemma PassHalvesRuns<T>(s: seq<T>, less: Less<T>, u: set<T>)
    requires StrictWeakOrder(less, u) && Within(s, u)
    ensures Runs(Pass(s, less), less) <= OutputRuns(s, less) == (Runs(s, less) + 1) / 2
    ensures Within(Pass(s, less), u)
  {
    PassRuns(s, less, u);
    OutputRunsIsHalf(s, less);
    PassStable(s, less, u);
    SameElementsWithin(s, Pass(s, less), u);
  }

  // ---- all passes ----

  function Iterate<T>(s: seq<T>, k: nat, less: Less<T>): seq<T> {
    if k == 0 then s else Pass(Iterate(s, k - 1, less), less)
  }

  /** `t` is what `p` passes make of `s`; only the last of them counted at most one run. */
  ghost predicate SortedBy<T>(s: seq<T>, t: seq<T>, p: nat, less: Less<T>) {
    && p > 0
    && t == Iterate(s, p, less)
    && OutputRuns(Iterate(s, p - 1, less), less) <= 1
    && forall k | 0 <= k < p - 1 :: OutputRuns(Iterate(s, k, less), less) > 1
  }

  lemma {:induction false} IterateStable<T>(s: seq<T>, k: nat, less: Less<T>, u: set<T>)
    requires StrictWeakOrder(less, u) && Within(s, u)
    ensures Within(Iterate(s, k, less), u) && StablePermutation(s, Iterate(s, k, less), less, u)
  {
    hide StrictWeakOrder;
    hide Within;
    hide Pass;
    if k > 0 {
      IterateStable(s, k - 1, less, u);
      PassHalvesRuns(Iterate(s, k - 1, less), less, u);
      PassStable(Iterate(s, k - 1, less), less, u);
    }
  }

  lemma RunsStep<T>(s: seq<T>, k: nat, c: nat, less: Less<T>, u: set<T>)
    requires StrictWeakOrder(less, u) && Within(s, u) && k > 0
    requires Runs(Iterate(s, k, less), less) > c
    ensures Runs(Iterate(s, k - 1, less), less) > 2 * c
  {
    hide StrictWeakOrder;
    hide Within;
    hide Runs;
    hide OutputRuns;
    hide Pass;
    IterateStable(s, k - 1, less, u);
    PassHalvesRuns(Iterate(s, k - 1, less), less, u);
  }

  /** Each pass halves the runs, so many runs after `k` passes mean 2^k times as many before. */
  lemma {:induction false} RunsBefore<T>(s: seq<T>, k: nat, c: nat, less: Less<T>, u: set<T>)
    requires StrictWeakOrder(less, u) && Within(s, u)
    requires Runs(Iterate(s, k, less), less) > c
    ensures Runs(s, less) > c * Pow2(k)
    decreases k
  {
    hide StrictWeakOrder;
    hide Within;
    hide Runs;
    hide Pass;
    if k > 0 {
      RunsStep(s, k, c, less, u);
      RunsBefore(s, k - 1, 2 * c, less, u);
      assert 2 * c * Pow2(k - 1) == c * Pow2(k);
    }
  }

  lemma PassCount<T>(s: seq<T>, p: nat, less: Less<T>, u: set<T>)
    requires StrictWeakOrder(less, u) && Within(s, u) && p > 1
    requires OutputRuns(Iterate(s, p - 2, less), less) > 1
    ensures Pow2(p - 1) < Runs(s, less)
  {
    hide StrictWeakOrder;
    hide Within;
    hide Runs;
    hide OutputRuns;
    hide Iterate;
    hide Pass;
    IterateStable(s, p - 2, less, u);
    PassHalvesRuns(Iterate(s, p - 2, less), less, u);
    RunsBefore(s, p - 2, 2, less, u);
  }

  lemma OneRunSorted<T>(s: seq<T>, less: Less<T>, u: set<T>)
    requires StrictWeakOrder(less, u) && Within(s, u) && Runs(s, less) <= 1
    ensures Sorted(s, less)
  {
    hide StrictWeakOrder;
    hide Within;
    hide Descents;
    AscendingHasNoDescents(s, less);
    AscendingIsSorted(s, less, u);
  }

  /** Correctness of the repeated passes: sorted, a stable permutation, and at most
      max(1, ceil(log2 r)) passes for r runs. */
  lemma SortCorrect<T>(s: seq<T>, t: seq<T>, p: nat, less: Less<T>, u: set<T>)
    requires StrictWeakOrder(less, u) && Within(s, u) && SortedBy(s, t, p, less)
    ensures Sorted(t, less) && StablePermutation(s, t, less, u)
    ensures p == 1 || Pow2(p - 1) < Runs(s, less)
  {
    hide StrictWeakOrder;
    hide Within;
    hide Runs;
    hide OutputRuns;
    hide StablePermutation;
    hide Sorted;
    hide Pass;
    IterateStable(s, p - 1, less, u);
    IterateStable(s, p, less, u);
    PassHalvesRuns(Iterate(s, p - 1, less), less, u);
    OneRunSorted(t, less, u);
    if p > 1 {
      PassCount(s, p, less, u);
    }
  }
}
