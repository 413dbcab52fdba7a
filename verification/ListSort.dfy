/** list_sort (list.c): natural merge sort by relinking, proved against the sequence-level
    algorithm of MergeSortSpec. Positions are indices into `list.elems`. */
module ListSorting {
  import opened Nonlinear
  import opened MergeSortSpec
  import opened LinkedList
  import opened Sequences

  /** The range `[i, j)` of one list moves in front of position `k`. */
  method SpliceWithin(list: List, before: ListElem, first: ListElem, last: ListElem,
                        ghost k: nat, ghost i: nat, ghost j: nat)
    requires list.Valid() && k < i <= j <= |list.elems|
    requires before == list.At(k) && first == list.At(i) && last == list.At(j)
    modifies list`elems, list.Nodes()
    ensures list.Valid() && list.Nodes() == old(list.Nodes())
    ensures list.elems == MoveBack(old(list.elems), k, i, j)
  {
    hide Links;
    hide Distinct;
    hide MoveBack;
    ghost var e := list.elems;
    ghost var w, x, m, z := e[..k], e[k..i], e[i..j], e[j..];
    FourPieces(e, k, i, j);
    Reassociate(list.head, w, x, m, z, list.tail);
    assert before == x[0] by {
      assert x[0] == e[k];
    }
    ListSplice(before, first, last, [list.head] + w + x, m, z + [list.tail], [list.head] + w, x + (z + [list.tail]));
    list.elems := w + m + x + z;
    SamePieces(list.head, w, x, m, z, list.tail);
  }

  lemma FourPieces<T>(e: seq<T>, k: nat, i: nat, j: nat)
    requires k <= i <= j <= |e|
    ensures e[..k] + e[k..i] + e[i..j] + e[j..] == e
    ensures MoveBack(e, k, i, j) == e[..k] + e[i..j] + e[k..i] + e[j..]
  {
  }

  lemma Reassociate<T>(h: T, w: seq<T>, x: seq<T>, m: seq<T>, z: seq<T>, t: T)
    ensures ([h] + w + x) + m + (z + [t]) == [h] + (w + x + m + z) + [t]
    ensures ([h] + w) + (x + (z + [t])) == ([h] + w + x) + (z + [t])
    ensures ([h] + w) + m + (x + (z + [t])) == [h] + (w + m + x + z) + [t]
  {
  }

  lemma SamePieces<T>(h: T, w: seq<T>, x: seq<T>, m: seq<T>, z: seq<T>, t: T)
    ensures (set n | n in [h] + (w + x + m + z) + [t]) == (set n | n in [h] + (w + m + x + z) + [t])
  {
  }

  function MoveBack<T>(s: seq<T>, k: nat, i: nat, j: nat): seq<T>
    requires k <= i <= j <= |s|
  {
    s[..k] + s[i..j] + s[k..i] + s[j..]
  }

  lemma RunEndStep<T>(s: seq<T>, k: nat, less: Less<T>)
    requires 0 < k <= |s|
    ensures k == |s| || less(s[k], s[k - 1]) ==> RunEnd(s, k - 1, less) == k
    ensures k < |s| && !less(s[k], s[k - 1]) ==> RunEnd(s, k - 1, less) == RunEnd(s, k, less)
  {
  }

  /** find_end_of_run: the first position after `i`, and not behind `n`, where the run that starts
      at `i` stops. */
  method FindEndOfRun(list: List, a0: ListElem, b: ListElem, less: Less<ListElem>, ghost i: nat, ghost n: nat)
    returns (a: ListElem)
    requires list.Valid() && i < n <= |list.elems| && a0 == list.At(i) && b == list.At(n)
    ensures list.Valid() && a == list.At(RunEnd(list.elems[..n], i, less))
  {
    hide List.Valid;
    hide List.Chain;
    hide RunEnd;
    ghost var k := i + 1;
    ghost var range := list.elems[..n];
    list.Step(i);
    a := a0.next;
    list.AtInjective(k, n);
    RunEndStep(range, k, less);
    while a != b
      invariant list.Valid() && i < k <= n && a == list.At(k)
      invariant a == b <==> k == n
      invariant RunEnd(range, i, less) == RunEnd(range, k - 1, less)
      invariant k == n ==> RunEnd(range, k - 1, less) == k
      decreases n - k
    {
      list.Step(k - 1);
      RunEndStep(range, k, less);
      if less(a, a.prev) {
        break;
      }
      list.Step(k);
      a := a.next;
      k := k + 1;
      list.AtInjective(k, n);
      RunEndStep(range, k, less);
    }
  }

  lemma MergeTakesFirst<T>(e: seq<T>, i: nat, x: nat, y: nat, j: nat, less: Less<T>)
    requires i <= x < y < j <= |e| && !less(e[y], e[x])
    ensures e[i..x] + Merge(e[x..y], e[y..j], less) == e[i..x + 1] + Merge(e[x + 1..y], e[y..j], less)
  {
    var a, b := e[x..y], e[y..j];
    assert a[1..] == e[x + 1..y];
    assert Merge(a, b, less) == [e[x]] + Merge(a[1..], b, less);
    assert e[i..x + 1] == e[i..x] + [e[x]];
  }

  lemma MergeTakesSecond<T>(e: seq<T>, f: seq<T>, i: nat, x: nat, y: nat, j: nat, less: Less<T>)
    requires i <= x < y < j <= |e| && less(e[y], e[x]) && f == MoveBack(e, x, y, y + 1)
    ensures |f| == |e| && f[..i] == e[..i] && f[j..] == e[j..]
    ensures f[x + 1] == e[x] && (forall t | y < t < |e| :: f[t] == e[t])
    ensures e[i..x] + Merge(e[x..y], e[y..j], less) == f[i..x + 1] + Merge(f[x + 1..y + 1], f[y + 1..j], less)
  {
    var a, b := e[x..y], e[y..j];
    assert Merge(a, b, less) == [e[y]] + Merge(a, b[1..], less);
    assert f[x + 1..y + 1] == a;
    assert f[y + 1..j] == b[1..];
    assert f[..x] == e[..x] && f[x] == e[y];
    assert f[i..x + 1] == e[i..x] + [e[y]];
  }

  lemma MergeStops<T>(e: seq<T>, i: nat, x: nat, y: nat, j: nat, less: Less<T>)
    requires i <= x <= y <= j <= |e| && (x == y || y == j)
    ensures e == e[..i] + (e[i..x] + Merge(e[x..y], e[y..j], less)) + e[j..]
  {
    var p, q := e[x..y], e[y..j];
    assert Merge(p, q, less) == p + q by {
      assert p == [] ==> p + q == q;
      assert q == [] ==> p + q == p;
    }
    hide Merge;
    assert e[i..x] + (p + q) == e[i..j];
  }

  /** inplace_merge: merges the adjacent ranges `[i, m)` and `[m, j)`. */
  method InplaceMerge(list: List, a: ListElem, b: ListElem, b1: ListElem, less: Less<ListElem>,
                        ghost i: nat, ghost m: nat, ghost j: nat)
    requires list.Valid() && i <= m <= j <= |list.elems|
    requires a == list.At(i) && b == list.At(m) && b1 == list.At(j)
    modifies list`elems, list.Nodes()
    ensures list.Valid() && list.Nodes() == old(list.Nodes())
    ensures var e := old(list.elems);
      list.elems == e[..i] + Merge(e[i..m], e[m..j], less) + e[j..]
  {
    hide List.Valid;
    hide List.Chain;
    hide List.Nodes;
    hide MoveBack;
    hide Merge;
    var a0, a1b0 := a, b;
    ghost var x, y := i, m;
    ghost var e0 := list.elems;
    ghost var goal := Merge(e0[i..m], e0[m..j], less);
    assert e0[i..i] + goal == goal;
    list.AtInjective(x, y);
    list.AtInjective(y, j);
    while a0 != a1b0 && a1b0 != b1
      invariant list.Valid() && |list.elems| == |e0| && i <= x <= y <= j
      invariant list.Nodes() == old(list.Nodes())
      invariant list.elems[..i] == e0[..i] && list.elems[j..] == e0[j..]
      invariant a0 == list.At(x) && a1b0 == list.At(y) && b1 == list.At(j)
      invariant (a0 == a1b0 <==> x == y) && (a1b0 == b1 <==> y == j)
      invariant list.elems[i..x] + Merge(list.elems[x..y], list.elems[y..j], less) == goal
      decreases 2 * j - x - y
    {
      ghost var e := list.elems;
      list.Step(x);
      list.Step(y);
      if !less(a1b0, a0) {
        MergeTakesFirst(e, i, x, y, j, less);
        a0 := a0.next;
        x := x + 1;
      } else {
        a1b0 := a1b0.next;
        SpliceWithin(list, a0, a1b0.prev, a1b0, x, y, y + 1);
        MergeTakesSecond(e, list.elems, i, x, y, j, less);
        x, y := x + 1, y + 1;
      }
      list.AtInjective(x, y);
      list.AtInjective(y, j);
    }
    MergeStops(list.elems, i, x, y, j, less);
  }

  /** What the two runs found at position `i` mean for the pass over the rest of `s`. */
  lemma PassUnfold<T>(s: seq<T>, i: nat, less: Less<T>)
    requires i < |s|
    ensures var m := RunEnd(s, i, less);
      && (m == |s| ==> Pass(s[i..], less) == s[i..] && OutputRuns(s[i..], less) == 1)
      && (m < |s| ==> var j := RunEnd(s, m, less);
            && Pass(s[i..], less) == Merge(s[i..m], s[m..j], less) + Pass(s[j..], less)
            && OutputRuns(s[i..], less) == 1 + OutputRuns(s[j..], less))
  {
    hide RunEnd;
    hide Merge;
    var m := RunEnd(s, i, less);
    RunEndShift(s, i, less);
    if m < |s| {
      PassUnfoldTwo(s, i, m, RunEnd(s, m, less), less);
    }
  }

  lemma PassUnfoldTwo<T>(s: seq<T>, i: nat, m: nat, j: nat, less: Less<T>)
    requires i < m < j <= |s| && m == RunEnd(s, i, less) && j == RunEnd(s, m, less)
    ensures Pass(s[i..], less) == Merge(s[i..m], s[m..j], less) + Pass(s[j..], less)
    ensures OutputRuns(s[i..], less) == 1 + OutputRuns(s[j..], less)
  {
    hide RunEnd;
    hide Merge;
    hide Pass;
    hide OutputRuns;
    SliceOfSlice(s, i, j);
    RunEndsShift(s, i, m, j, less);
    MiddleSlices(s, i, m, j);
    PassOfPieces(s[i..], m - i, j - i, s[i..m], s[m..j], s[j..], less);
  }

  lemma PassOfPieces<T>(t: seq<T>, m: nat, j: nat, a: seq<T>, b: seq<T>, c: seq<T>, less: Less<T>)
    requires 0 < m < j <= |t| && RunEnd(t, 0, less) == m && RunEnd(t, m, less) == j
    requires t[..m] == a && t[m..j] == b && t[j..] == c
    ensures Pass(t, less) == Merge(a, b, less) + Pass(c, less)
    ensures OutputRuns(t, less) == 1 + OutputRuns(c, less)
  {
    hide RunEnd;
    hide Merge;
    hide Pass;
    hide OutputRuns;
    PassTwoRuns(t, m, j, less);
  }

  lemma RunEndsShift<T>(s: seq<T>, i: nat, m: nat, j: nat, less: Less<T>)
    requires i < m < j <= |s| && m == RunEnd(s, i, less) && j == RunEnd(s, m, less)
    ensures RunEnd(s[i..], 0, less) == m - i
    ensures RunEnd(s[i..], m - i, less) == j - i
  {
    hide RunEnd;
    RunEndShift(s, i, less);
    RunEndShift(s, m, less);
    SliceOfSlice(s, i, m);
    RunEndShift(s[i..], m - i, less);
  }

  lemma MiddleSlices<T>(s: seq<T>, i: nat, m: nat, j: nat)
    requires i <= m <= j <= |s|
    ensures s[i..][..m - i] == s[i..m] && s[i..][m - i..j - i] == s[m..j]
  {
  }

  lemma SliceOfSlice<T>(s: seq<T>, i: nat, m: nat)
    requires i <= m <= |s|
    ensures s[i..][m - i..] == s[m..]
  {
  }

  /** One pass over the list, as the inner loop of list_sort makes it. */
  method SortPass(list: List, less: Less<ListElem>) returns (outputRuns: nat)
    requires list.Valid()
    modifies list`elems, list.Nodes()
    ensures list.Valid() && list.Nodes() == old(list.Nodes())
    ensures list.elems == Pass(old(list.elems), less)
    ensures outputRuns == OutputRuns(old(list.elems), less)
  {
    hide List.Valid;
    hide List.Chain;
    hide List.Nodes;
    hide RunEnd;
    hide Pass;
    hide OutputRuns;
    hide Merge;
    ghost var e0 := list.elems;
    outputRuns := 0;
    list.BeginIsFirst();
    var a0 := list.head.next;
    ghost var i := 0;
    list.AtInjective(i, |list.elems|);
    assert e0[0..] == e0;
    while a0 != list.tail
      invariant list.Valid() && |list.elems| == |e0| && i <= |e0| && a0 == list.At(i)
      invariant list.Nodes() == old(list.Nodes())
      invariant a0 == list.tail <==> i == |e0|
      invariant list.elems[i..] == e0[i..]
      invariant list.elems[..i] + Pass(e0[i..], less) == Pass(e0, less)
      invariant outputRuns + OutputRuns(e0[i..], less) == OutputRuns(e0, less)
      decreases |e0| - i
    {
      ghost var e := list.elems;
      outputRuns := outputRuns + 1;
      assert e[..|e|] == e;
      var a1b0 := FindEndOfRun(list, a0, list.tail, less, i, |list.elems|);
      ghost var m := RunEnd(e, i, less);
      list.AtInjective(m, |e|);
      PassUnfold(e, i, less);
      if a1b0 == list.tail {
        assert e[..i] + e[i..] == e;
        PassNothing(e0, less);
        PassNothing(e, less);
        i := |e|;
        assert list.elems[i..] == e0[i..];
        break;
      }
      var b1 := FindEndOfRun(list, a1b0, list.tail, less, m, |list.elems|);
      ghost var j := RunEnd(e, m, less);
      InplaceMerge(list, a0, a1b0, b1, less, i, m, j);
      PassAdvance(e, list.elems, e0, i, m, j, less);
      a0 := b1;
      i := j;
      list.AtInjective(i, |e0|);
    }
    PassNothing(list.elems, less);
  }

  lemma PassNothing<T>(s: seq<T>, less: Less<T>)
    ensures s[..|s|] + Pass(s[|s|..], less) == s && OutputRuns(s[|s|..], less) == 0
  {
  }

  lemma PassAdvance<T>(e: seq<T>, f: seq<T>, e0: seq<T>, i: nat, m: nat, j: nat, less: Less<T>)
    requires i < m < j <= |e| == |e0| && e[i..] == e0[i..]
    requires Pass(e[i..], less) == Merge(e[i..m], e[m..j], less) + Pass(e[j..], less)
    requires f == e[..i] + Merge(e[i..m], e[m..j], less) + e[j..]
    ensures |f| == |e| && f[j..] == e0[j..] && e[j..] == e0[j..]
    ensures j < |e| ==> f[j] == e[j]
    ensures f[..j] + Pass(e0[j..], less) == e[..i] + Pass(e0[i..], less)
  {
    hide Pass;
    hide Merge;
    var r := Merge(e[i..m], e[m..j], less);
    assert e[j..] == e0[j..] by {
      SliceOfSlice(e, i, j);
      SliceOfSlice(e0, i, j);
    }
    Reassemble(e[..i], r, e[j..], Pass(e[j..], less));
    assert |e[..i] + r| == j;
  }

  lemma Reassemble<T>(a: seq<T>, r: seq<T>, b: seq<T>, p: seq<T>)
    ensures (a + r + b)[..|a + r|] + p == a + (r + p)
    ensures (a + r + b)[|a + r|..] == b
  {
  }

  /** list_sort: passes repeat until one of them puts out at most one run. `SortCorrect` says
      what that makes of the list. */
  method ListSort(list: List, less: Less<ListElem>, ghost u: set<ListElem>) returns (ghost passes: nat)
    requires list.Valid() && Within(list.elems, u) && StrictWeakOrder(less, u)
    modifies list`elems, list.Nodes()
    ensures list.Valid() && SortedBy(old(list.elems), list.elems, passes, less)
    ensures Sorted(list.elems, less) && StablePermutation(old(list.elems), list.elems, less, u)
    ensures passes == 1 || Pow2(passes - 1) < Runs(old(list.elems), less)
  {
    hide List.Valid;
    hide List.Chain;
    hide List.Nodes;
    hide StrictWeakOrder;
    hide StablePermutation;
    hide Sorted;
    hide Within;
    hide Pass;
    hide Runs;
    hide OutputRuns;
    ghost var e0 := list.elems;
    passes := 0;
    var outputRuns := 0;
    while true
      invariant list.Valid() && Within(list.elems, u) && list.Nodes() == old(list.Nodes())
      invariant list.elems == Iterate(e0, passes, less)
      invariant forall k | 0 <= k < passes :: OutputRuns(Iterate(e0, k, less), less) > 1
      decreases Runs(list.elems, less)
    {
      PassHalvesRuns(list.elems, less, u);
      outputRuns := SortPass(list, less);
      passes := passes + 1;
      if outputRuns <= 1 {
        break;
      }
    }
    SortCorrect(e0, list.elems, passes, less, u);
  }
}
