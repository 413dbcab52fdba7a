/** sort (heapsort) and binary_search of lib/stdlib.c. Positions count from 1, as there. */
module HeapSort {
  import opened Options

  /** A strcmp()-type comparison of a total preorder. */
  ghost predicate TotalPreorder<T(!new)>(cmp: (T, T) -> int) {
    && (forall x, y :: cmp(x, y) > 0 <==> cmp(y, x) < 0)
    && (forall x, y, z :: cmp(x, y) <= 0 && cmp(y, z) <= 0 ==> cmp(x, z) <= 0)
  }

  ghost predicate Sorted<T(!new)>(cmp: (T, T) -> int, s: seq<T>) {
    forall i, j | 0 <= i < j < |s| :: cmp(s[i], s[j]) <= 0
  }

  /** The element at position `i` is at least as large as its children among the first `cnt`. */
  predicate Dominates<T>(cmp: (T, T) -> int, s: seq<T>, cnt: nat, i: nat, c: nat)
    requires cnt <= |s| && 1 <= i && 1 <= c
  {
    i <= cnt && c <= cnt ==> cmp(s[i - 1], s[c - 1]) >= 0
  }

  predicate NodeOk<T>(cmp: (T, T) -> int, s: seq<T>, cnt: nat, i: nat)
    requires cnt <= |s| && 1 <= i
  {
    Dominates(cmp, s, cnt, i, 2 * i) && Dominates(cmp, s, cnt, i, 2 * i + 1)
  }

  /** Every node from `lo` on is at least as large as its children, except perhaps `hole`. */
  predicate HeapBut<T>(cmp: (T, T) -> int, s: seq<T>, cnt: nat, lo: nat, hole: nat)
    requires cnt <= |s| && 1 <= lo
  {
    forall i | lo <= i <= cnt && i != hole :: NodeOk(cmp, s, cnt, i)
  }

  predicate Heap<T>(cmp: (T, T) -> int, s: seq<T>, cnt: nat, lo: nat)
    requires cnt <= |s| && 1 <= lo
  {
    forall i | lo <= i <= cnt :: NodeOk(cmp, s, cnt, i)
  }

  function Swapped<T>(s: seq<T>, i: nat, j: nat): seq<T>
    requires 1 <= i <= |s| && 1 <= j <= |s|
  {
    s[i - 1 := s[j - 1]][j - 1 := s[i - 1]]
  }

  /** The parent of the hole, if it is at or after `lo`, is as large as the hole's children. */
  predicate Above<T>(cmp: (T, T) -> int, s: seq<T>, cnt: nat, lo: nat, i: nat)
    requires cnt <= |s| && 1 <= lo && 1 <= i
  {
    i / 2 >= lo ==> Dominates(cmp, s, cnt, i / 2, 2 * i) && Dominates(cmp, s, cnt, i / 2, 2 * i + 1)
  }

  /** The hole has moved from `i` down to its larger child `m`. */
  lemma SiftStep<T(!new)>(cmp: (T, T) -> int, s: seq<T>, cnt: nat, lo: nat, i: nat, m: nat)
    requires cnt <= |s| && 1 <= lo <= i && m <= cnt && (m == 2 * i || m == 2 * i + 1)
    requires HeapBut(cmp, s, cnt, lo, i) && cmp(s[m - 1], s[i - 1]) > 0
    requires Dominates(cmp, s, cnt, m, 2 * i) && Dominates(cmp, s, cnt, m, 2 * i + 1)
    requires Above(cmp, s, cnt, lo, i)
    ensures HeapBut(cmp, Swapped(s, i, m), cnt, lo, m) && Above(cmp, Swapped(s, i, m), cnt, lo, m)
  {
    hide NodeOk, Dominates;
    var r := Swapped(s, i, m);
    forall k | lo <= k <= cnt && k != m ensures NodeOk(cmp, r, cnt, k) {
      if k == i {
        SwappedNode(cmp, s, cnt, i, m);
      } else {
        assert NodeOk(cmp, s, cnt, k);
        OtherNode(cmp, s, cnt, i, m, k);
      }
    }
    assert NodeOk(cmp, s, cnt, m);
    BelowNode(cmp, s, cnt, i, m);
  }

  lemma SwappedNode<T(!new)>(cmp: (T, T) -> int, s: seq<T>, cnt: nat, i: nat, m: nat)
    requires cnt <= |s| && 1 <= i && m <= cnt && (m == 2 * i || m == 2 * i + 1) && cmp(s[m - 1], s[i - 1]) > 0
    requires Dominates(cmp, s, cnt, m, 2 * i) && Dominates(cmp, s, cnt, m, 2 * i + 1)
    ensures NodeOk(cmp, Swapped(s, i, m), cnt, i)
  {
  }

  lemma OtherNode<T(!new)>(cmp: (T, T) -> int, s: seq<T>, cnt: nat, i: nat, m: nat, k: nat)
    requires cnt <= |s| && 1 <= i && 1 <= k && k != i && k != m && m <= cnt && (m == 2 * i || m == 2 * i + 1)
    requires NodeOk(cmp, s, cnt, k)
    requires k == i / 2 ==> Dominates(cmp, s, cnt, k, 2 * i) && Dominates(cmp, s, cnt, k, 2 * i + 1)
    ensures NodeOk(cmp, Swapped(s, i, m), cnt, k)
  {
  }

  lemma BelowNode<T(!new)>(cmp: (T, T) -> int, s: seq<T>, cnt: nat, i: nat, m: nat)
    requires cnt <= |s| && 1 <= i && m <= cnt && (m == 2 * i || m == 2 * i + 1) && NodeOk(cmp, s, cnt, m)
    ensures Dominates(cmp, Swapped(s, i, m), cnt, i, 2 * m) && Dominates(cmp, Swapped(s, i, m), cnt, i, 2 * m + 1)
  {
  }

  lemma SwapPermutes<T>(s: seq<T>, i: nat, j: nat)
    requires 1 <= i <= |s| && 1 <= j <= |s|
    ensures multiset(Swapped(s, i, j)) == multiset(s)
  {
  }

  /** heapify: floats the element at `i` down. */
  method Heapify<T(!new)>(a: array<T>, i: nat, cnt: nat, cmp: (T, T) -> int)
    requires TotalPreorder(cmp) && 1 <= i && cnt <= a.Length
    requires Heap(cmp, a[..], cnt, i + 1)
    modifies a
    ensures Heap(cmp, a[..], cnt, i)
    ensures multiset(a[..cnt]) == old(multiset(a[..cnt])) && a[cnt..] == old(a[cnt..])
  {
    hide Swapped, TotalPreorder, NodeOk;
    var at := i;
    while true
      invariant i <= at && (at > i ==> at <= cnt)
      invariant HeapBut(cmp, a[..], cnt, i, at) && Above(cmp, a[..], cnt, i, at)
      invariant multiset(a[..cnt]) == old(multiset(a[..cnt])) && a[cnt..] == old(a[cnt..])
      decreases cnt - at
    {
      var left, right := 2 * at, 2 * at + 1;
      var max := at;
      if left <= cnt && cmp(a[left - 1], a[max - 1]) > 0 {
        max := left;
      }
      if right <= cnt && cmp(a[right - 1], a[max - 1]) > 0 {
        max := right;
      }
      MaxOfThree(cmp, a[..], cnt, at, max);
      if max == at {
        break;
      }
      SiftStep(cmp, a[..], cnt, i, at, max);
      Swap(a, at, max, cnt);
      at := max;
    }
  }

  /** do_swap */
  method Swap<T>(a: array<T>, i: nat, j: nat, ghost cnt: nat)
    requires 1 <= i <= cnt <= a.Length && 1 <= j <= cnt
    modifies a
    ensures a[..] == Swapped(old(a[..]), i, j)
    ensures multiset(a[..cnt]) == old(multiset(a[..cnt])) && a[cnt..] == old(a[cnt..])
  {
    ghost var s := a[..cnt];
    a[i - 1], a[j - 1] := a[j - 1], a[i - 1];
    SwapPermutes(s, i, j);
    assert a[..cnt] == Swapped(s, i, j);
  }

  /** What the two tests of the loop leave in `max`. */
  lemma MaxOfThree<T(!new)>(cmp: (T, T) -> int, s: seq<T>, cnt: nat, i: nat, max: nat)
    requires TotalPreorder(cmp) && cnt <= |s| && 1 <= i
    requires var m := if 2 * i <= cnt && cmp(s[2 * i - 1], s[i - 1]) > 0 then 2 * i else i;
      max == if 2 * i + 1 <= cnt && cmp(s[2 * i], s[m - 1]) > 0 then 2 * i + 1 else m
    ensures max != i ==> max <= cnt && (max == 2 * i || max == 2 * i + 1) && cmp(s[max - 1], s[i - 1]) > 0
    ensures Dominates(cmp, s, cnt, max, 2 * i) && Dominates(cmp, s, cnt, max, 2 * i + 1)
    ensures max == i ==> NodeOk(cmp, s, cnt, i)
  {
    assert forall x: T :: cmp(x, x) == 0;
  }

  lemma {:induction false} RootIsLargest<T(!new)>(cmp: (T, T) -> int, s: seq<T>, cnt: nat, i: nat)
    requires TotalPreorder(cmp) && cnt <= |s| && Heap(cmp, s, cnt, 1) && 1 <= i <= cnt
    ensures cmp(s[i - 1], s[0]) <= 0
    decreases i
  {
    assert cmp(s[0], s[0]) == 0;
    if i > 1 {
      RootIsLargest(cmp, s, cnt, i / 2);
      assert NodeOk(cmp, s, cnt, i / 2);
      assert Dominates(cmp, s, cnt, i / 2, i);
    }
  }

  /** The part from position `i + 1` on is in order and above all the rest. */
  ghost predicate Tail<T(!new)>(cmp: (T, T) -> int, s: seq<T>, i: nat)
    requires i <= |s|
  {
    Sorted(cmp, s[i..]) && forall x, y | x in s[..i] && y in s[i..] :: cmp(x, y) <= 0
  }

  /** sort: in order, and a permutation of what was there. */
  method Sort<T(!new)>(a: array<T>, cmp: (T, T) -> int)
    requires TotalPreorder(cmp)
    modifies a
    ensures Sorted(cmp, a[..]) && multiset(a[..]) == old(multiset(a[..]))
  {
    hide NodeOk, TotalPreorder, Swapped, Sorted;
    var cnt := a.Length;
    var i: nat := cnt / 2;
    ghost var all := multiset(a[..]);
    LeavesAreHeaps(cmp, a[..], cnt);
    assert a[..cnt] == a[..];
    while i > 0
      invariant i <= cnt / 2 && Heap(cmp, a[..], cnt, i + 1) && multiset(a[..]) == all
    {
      assert a[..cnt] == a[..];
      Heapify(a, i, cnt, cmp);
      assert a[..cnt] == a[..];
      i := i - 1;
    }
    i := cnt;
    EmptyTail(cmp, a[..]);
    while i > 1
      invariant i <= cnt && Heap(cmp, a[..], i, 1) && Tail(cmp, a[..], i) && multiset(a[..]) == all
    {
      ghost var s := a[..];
      Swap(a, 1, i, i);
      SamePermutation(s, a[..], i);
      RootRemoved(cmp, s, i);
      ghost var t := a[..];
      Heapify(a, 1, i - 1, cmp);
      SamePermutation(t, a[..], i - 1);
      TailKept(cmp, t, a[..], i - 1);
      i := i - 1;
    }
    TailIsAll(cmp, a[..], i);
  }

  lemma LeavesAreHeaps<T>(cmp: (T, T) -> int, s: seq<T>, cnt: nat)
    requires cnt <= |s|
    ensures Heap(cmp, s, cnt, cnt / 2 + 1)
  {
  }

  lemma EmptyTail<T(!new)>(cmp: (T, T) -> int, s: seq<T>)
    ensures Tail(cmp, s, |s|)
  {
  }

  lemma SamePermutation<T>(s: seq<T>, t: seq<T>, i: nat)
    requires i <= |s| == |t| && multiset(s[..i]) == multiset(t[..i]) && s[i..] == t[i..]
    ensures multiset(s) == multiset(t)
  {
    assert s == s[..i] + s[i..] && t == t[..i] + t[i..];
  }

  /** The root, moved behind the heap, extends the tail. */
  lemma RootRemoved<T(!new)>(cmp: (T, T) -> int, s: seq<T>, i: nat)
    requires TotalPreorder(cmp) && 1 < i <= |s| && Heap(cmp, s, i, 1) && Tail(cmp, s, i)
    ensures Heap(cmp, Swapped(s, 1, i), i - 1, 2) && Tail(cmp, Swapped(s, 1, i), i - 1)
  {
    var t := Swapped(s, 1, i);
    RootHeap(cmp, s, i);
    assert t[i - 1..] == [s[0]] + s[i..];
    assert s[0] in s[..i];
    var p, q := t[..i - 1], t[i - 1..];
    forall x, y | x in p && y in q ensures cmp(x, y) <= 0 {
      var k :| 0 <= k < i - 1 && p[k] == x;
      assert x == s[if k == 0 then i - 1 else k];
      RootIsLargest(cmp, s, i, if k == 0 then i else k + 1);
      assert x in s[..i];
    }
  }

  lemma RootHeap<T(!new)>(cmp: (T, T) -> int, s: seq<T>, i: nat)
    requires 1 < i <= |s| && Heap(cmp, s, i, 1)
    ensures Heap(cmp, Swapped(s, 1, i), i - 1, 2)
  {
    var t, n := Swapped(s, 1, i), i - 1;
    forall k | 2 <= k <= n ensures NodeOk(cmp, t, n, k) {
      assert NodeOk(cmp, s, i, k);
    }
  }

  lemma TailKept<T(!new)>(cmp: (T, T) -> int, s: seq<T>, t: seq<T>, i: nat)
    requires i <= |s| == |t| && Tail(cmp, s, i) && multiset(s[..i]) == multiset(t[..i]) && s[i..] == t[i..]
    ensures Tail(cmp, t, i)
  {
    var p, q := t[..i], t[i..];
    forall x, y | x in p && y in q ensures cmp(x, y) <= 0 {
      assert x in multiset(p);
      assert x in s[..i];
    }
  }

  lemma TailIsAll<T(!new)>(cmp: (T, T) -> int, s: seq<T>, i: nat)
    requires i <= |s| && i <= 1 && Tail(cmp, s, i)
    ensures Sorted(cmp, s)
  {
    forall j, k | 0 <= j < k < |s| ensures cmp(s[j], s[k]) <= 0 {
      assert s[k] == s[i..][k - i] && s[k] in s[i..];
      if j < i {
        assert s[j] in s[..i];
      } else {
        assert s[j] == s[i..][j - i];
      }
    }
  }

  /** binary_search: a match, if there is one. */
  method BinarySearch<T(!new)>(key: T, a: array<T>, cmp: (T, T) -> int) returns (r: Option<nat>)
    requires TotalPreorder(cmp) && Sorted(cmp, a[..])
    ensures r.Some? ==> r.value < a.Length && cmp(key, a[r.value]) == 0
    ensures r.None? ==> forall i | 0 <= i < a.Length :: cmp(key, a[i]) != 0
  {
    var first, last := 0, a.Length;
    while first < last
      invariant first <= last <= a.Length
      invariant forall i | 0 <= i < first :: cmp(key, a[i]) > 0
      invariant forall i | last <= i < a.Length :: cmp(key, a[i]) < 0
    {
      var middle := first + (last - first) / 2;
      var c := cmp(key, a[middle]);
      Ordered(cmp, a[..], key, middle);
      if c < 0 {
        last := middle;
      } else if c > 0 {
        first := middle + 1;
      } else {
        return Some(middle);
      }
    }
    return None;
  }

  lemma LessThanAtMost<T(!new)>(cmp: (T, T) -> int, x: T, y: T, z: T)
    requires TotalPreorder(cmp)
    ensures cmp(x, y) < 0 && cmp(y, z) <= 0 ==> cmp(x, z) < 0
    ensures cmp(x, y) <= 0 && cmp(y, z) < 0 ==> cmp(x, z) < 0
  {
    assert cmp(z, x) <= 0 && cmp(x, y) <= 0 ==> cmp(z, y) <= 0;
    assert cmp(y, z) <= 0 && cmp(z, x) <= 0 ==> cmp(y, x) <= 0;
  }

  lemma Ordered<T(!new)>(cmp: (T, T) -> int, s: seq<T>, key: T, m: nat)
    requires TotalPreorder(cmp) && Sorted(cmp, s) && m < |s|
    ensures cmp(key, s[m]) < 0 ==> forall i | m <= i < |s| :: cmp(key, s[i]) < 0
    ensures cmp(key, s[m]) > 0 ==> forall i | 0 <= i <= m :: cmp(key, s[i]) > 0
  {
    forall i | m < i < |s| && cmp(key, s[m]) < 0 ensures cmp(key, s[i]) < 0 {
      LessThanAtMost(cmp, key, s[m], s[i]);
    }
    forall i | 0 <= i < m && cmp(key, s[m]) > 0 ensures cmp(key, s[i]) > 0 {
      LessThanAtMost(cmp, s[i], s[m], key);
    }
  }
}
