/** list_swap and list_shuffle (list.c). Every draw is below the position it is swapped
    with, which makes the shuffle a cyclic permutation. */
module ListShuffling {
  import opened LinkedList
  import opened Sequences

  function Swapped<T>(s: seq<T>, i: nat, j: nat): (r: seq<T>)
    requires i < |s| && j < |s|
    ensures |r| == |s|
  {
    s[i := s[j]][j := s[i]]
  }

  /** The branch of list_swap for adjacent elements, `a` just before `b`, between the chain
      segments `p` and `q`. */
  method SwapAdjacent(a: ListElem, b: ListElem, ghost p: seq<ListElem>, ghost q: seq<ListElem>)
    requires p != [] && q != [] && Distinct(p + [a] + [b] + q) && Links(p + [a] + [b] + q)
    modifies p[|p| - 1], a, b, q[0]
    ensures Links(p + [b] + [a] + q)
    ensures p[0].prev == old(p[0].prev) && q[|q| - 1].next == old(q[|q| - 1].next)
  {
    SplitLinks(p + [a] + [b], q);
    SplitLinks(p + [a], [b]);
    SplitLinks(p, [a]);
    DistinctParts4(p, [a], [b], q);
    assert (p + [a] + [b])[|p| + 1] == b && (p + [a])[|p|] == a;
    assert [a][0] == a && [b][0] == b;
    assert a.prev == p[|p| - 1] && a.next == b && b.next == q[0];

    var prev := a.prev;
    a.prev.next := b;
    b.next.prev := a;
    a.prev := b;
    a.next := b.next;
    b.prev := prev;
    b.next := a;

    assert Links(p) && Links(q) by {
      SegmentKept(p);
      SegmentKept(q);
    }
    assert Links(p + [b]) by {
      JoinLinks(p, [b]);
    }
    assert Links(p + [b] + [a]) by {
      JoinLinks(p + [b], [a]);
    }
    JoinLinks(p + [b] + [a], q);
  }

  lemma DistinctParts4<T>(a: seq<T>, b: seq<T>, c: seq<T>, d: seq<T>)
    requires Distinct(a + b + c + d)
    ensures Distinct(a) && Distinct(b) && Distinct(c) && Distinct(d)
    ensures forall i, j | 0 <= i < |a| && 0 <= j < |b| :: a[i] != b[j]
    ensures forall i, j | 0 <= i < |a| && 0 <= j < |c| :: a[i] != c[j]
    ensures forall i, j | 0 <= i < |a| && 0 <= j < |d| :: a[i] != d[j]
    ensures forall i, j | 0 <= i < |b| && 0 <= j < |c| :: b[i] != c[j]
    ensures forall i, j | 0 <= i < |b| && 0 <= j < |d| :: b[i] != d[j]
    ensures forall i, j | 0 <= i < |c| && 0 <= j < |d| :: c[i] != d[j]
  {
    DistinctRemove(a + b, c, d);
    DistinctRemove(a, b, c);
    DistinctRemove(a, b, d);
    DistinctConcat(a, b);
    DistinctConcat(a, c);
    DistinctConcat(a, d);
    DistinctConcat(b, c);
    DistinctConcat(b, d);
    DistinctConcat(c, d);
  }

  lemma DistinctParts5<T>(a: seq<T>, b: seq<T>, c: seq<T>, d: seq<T>, e: seq<T>)
    requires Distinct(a + b + c + d + e)
    ensures Distinct(a + b + c + d)
    ensures forall i, j | 0 <= i < |a| && 0 <= j < |e| :: a[i] != e[j]
    ensures forall i, j | 0 <= i < |b| && 0 <= j < |e| :: b[i] != e[j]
    ensures forall i, j | 0 <= i < |c| && 0 <= j < |e| :: c[i] != e[j]
    ensures forall i, j | 0 <= i < |d| && 0 <= j < |e| :: d[i] != e[j]
    ensures Distinct(e)
  {
    var l := a + b + c + d;
    DistinctConcat(l, e);
    assert forall i | 0 <= i < |a| :: l[i] == a[i];
    assert forall i | 0 <= i < |b| :: l[|a| + i] == b[i];
    assert forall i | 0 <= i < |c| :: l[|a| + |b| + i] == c[i];
    assert forall i | 0 <= i < |d| :: l[|a| + |b| + |c| + i] == d[i];
  }

  /** The last branch of list_swap: the elements, `x` ahead of `y` in the chain and given in
      either order, have the nonempty segment `m` between them. */
  method SwapApart(a: ListElem, b: ListElem, ghost x: ListElem, ghost y: ListElem,
                   ghost p: seq<ListElem>, ghost m: seq<ListElem>, ghost q: seq<ListElem>)
    requires p != [] && m != [] && q != [] && ((a == x && b == y) || (a == y && b == x))
    requires Distinct(p + [x] + m + [y] + q) && Links(p + [x] + m + [y] + q)
    modifies p[|p| - 1], a, m[0], m[|m| - 1], b, q[0]
    ensures Links(p + [y] + m + [x] + q)
    ensures p[0].prev == old(p[0].prev) && q[|q| - 1].next == old(q[|q| - 1].next)
  {
    SplitApart(x, y, p, m, q);

    var prev := a.prev;
    var next := a.next;
    a.prev.next := b;
    a.next.prev := b;
    b.prev.next := a;
    b.next.prev := a;
    a.prev := b.prev;
    a.next := b.next;
    b.prev := prev;
    b.next := next;

    assert Links(p) && Links(m) && Links(q) by {
      SegmentKept(p);
      SegmentKept(m);
      SegmentKept(q);
    }
    assert Links(p + [y]) by {
      JoinLinks(p, [y]);
    }
    assert Links(p + [y] + m) by {
      JoinLinks(p + [y], m);
    }
    assert Links(p + [y] + m + [x]) by {
      JoinLinks(p + [y] + m, [x]);
    }
    JoinLinks(p + [y] + m + [x], q);
  }

  lemma SplitApart(x: ListElem, y: ListElem, p: seq<ListElem>, m: seq<ListElem>, q: seq<ListElem>)
    requires p != [] && m != [] && q != []
    requires Distinct(p + [x] + m + [y] + q) && Links(p + [x] + m + [y] + q)
    ensures Links(p) && Links(m) && Links(q)
    ensures p[|p| - 1].next == x && x.prev == p[|p| - 1] && x.next == m[0] && m[0].prev == x
    ensures m[|m| - 1].next == y && y.prev == m[|m| - 1] && y.next == q[0] && q[0].prev == y
    ensures Distinct(p) && Distinct(m) && Distinct(q) && x != y
    ensures x !in p && x !in m && x !in q && y !in p && y !in m && y !in q
    ensures forall i, j | 0 <= i < |p| && 0 <= j < |m| :: p[i] != m[j]
    ensures forall i, j | 0 <= i < |p| && 0 <= j < |q| :: p[i] != q[j]
    ensures forall i, j | 0 <= i < |m| && 0 <= j < |q| :: m[i] != q[j]
  {
    SplitLinks(p + [x] + m + [y], q);
    SplitLinks(p + [x] + m, [y]);
    SplitLinks(p + [x], m);
    SplitLinks(p, [x]);
    DistinctParts5(p, [x], m, [y], q);
    DistinctParts4(p, [x], m, [y]);
    assert (p + [x] + m + [y])[|p| + 1 + |m|] == y && (p + [x])[|p|] == x;
    assert (p + [x] + m)[|p| + |m|] == m[|m| - 1];
    assert [x][0] == x && [y][0] == y;
  }

  lemma SwapTwice<T>(s: seq<T>, i: nat, j: nat)
    requires i < |s| && j < |s|
    ensures Swapped(s, i, j) == Swapped(s, j, i)
    ensures i == j ==> Swapped(s, i, j) == s
  {
  }

  lemma SwapSlices<T>(h: T, e: seq<T>, t: T, i: nat, j: nat)
    requires i < j < |e|
    ensures var p, m, q := [h] + e[..i], e[i + 1..j], e[j + 1..] + [t];
      && p + [e[i]] + m + [e[j]] + q == [h] + e + [t]
      && p + [e[j]] + m + [e[i]] + q == [h] + Swapped(e, i, j) + [t]
      && (m == [] <==> j == i + 1)
      && (m == [] ==> p + [e[i]] + [e[j]] + q == [h] + e + [t])
      && (m == [] ==> p + [e[j]] + [e[i]] + q == [h] + Swapped(e, i, j) + [t])
      && p[0] == h && q[|q| - 1] == t
  {
    var p, m, q := [h] + e[..i], e[i + 1..j], e[j + 1..] + [t];
    assert e == e[..i] + [e[i]] + m + [e[j]] + e[j + 1..];
    assert Swapped(e, i, j) == e[..i] + [e[j]] + m + [e[i]] + e[j + 1..];
    assert m == [] ==> p + [e[i]] + m == p + [e[i]] && p + [e[j]] + m == p + [e[j]];
  }

  lemma DistinctSwapped<T>(h: T, e: seq<T>, t: T, i: nat, j: nat)
    requires i < |e| && j < |e| && Distinct([h] + e + [t])
    ensures Distinct([h] + Swapped(e, i, j) + [t])
  {
    var c, d := [h] + e + [t], [h] + Swapped(e, i, j) + [t];
    forall x, y | 0 <= x < y < |d|
      ensures d[x] != d[y]
    {
      var x', y' := SwappedIndex(x, i + 1, j + 1), SwappedIndex(y, i + 1, j + 1);
      assert d[x] == c[x'] && d[y] == c[y'];
    }
  }

  function SwappedIndex(x: nat, i: nat, j: nat): nat {
    if x == i then j else if x == j then i else x
  }

  /** list_swap: exchanges the elements at positions `i` and `j`. */
  method ListSwap(a: ListElem, b: ListElem, ghost list: List, ghost i: nat, ghost j: nat)
    requires list.Valid() && i < |list.elems| && j < |list.elems| && a == list.At(i) && b == list.At(j)
    modifies list`elems, list.Nodes()
    ensures list.Valid() && list.Nodes() == old(list.Nodes())
    ensures list.elems == Swapped(old(list.elems), i, j)
  {
    hide Links;
    hide Distinct;
    ghost var h, e, t := list.head, list.elems, list.tail;
    SwapTwice(e, i, j);
    list.AtInjective(i, j);
    list.Step(i);
    list.Step(j);
    list.AtInjective(i + 1, j);
    list.AtInjective(j + 1, i);
    if a == b {
      return;
    }
    ghost var x, y := if i < j then i else j, if i < j then j else i;
    ghost var p, m, q := [h] + e[..x], e[x + 1..y], e[y + 1..] + [t];
    SwapSlices(h, e, t, x, y);
    DistinctSwapped(h, e, t, x, y);
    assert p[|p| - 1] in list.Chain() && q[0] in list.Chain();
    if a.next == b {
      SwapAdjacent(a, b, p, q);
    } else if b.next == a {
      SwapAdjacent(b, a, p, q);
    } else {
      assert m[0] in list.Chain() && m[|m| - 1] in list.Chain();
      SwapApart(a, b, e[x], e[y], p, m, q);
    }
    list.elems := Swapped(e, x, y);
    assert forall n | n in [h] + Swapped(e, x, y) + [t] :: n in [h] + e + [t];
    assert forall n | n in [h] + e + [t] :: n in [h] + Swapped(e, x, y) + [t];
  }

  /** The swaps list_shuffle makes on the first `n` positions, the `t`-th call of rand()
      having returned `rand(t)`. */
  function Shuffled<T>(s: seq<T>, n: nat, t: nat, rand: nat -> nat): (r: seq<T>)
    requires n <= |s|
    ensures |r| == |s|
    decreases n
  {
    if n < 2 then s else Shuffled(Swapped(s, n - 1, rand(t) % (n - 1)), n - 1, t + 1, rand)
  }

  /** Walks from the front to position `k`, as both inner loops of list_shuffle do. */
  method Nth(list: List, k: nat) returns (e: ListElem)
    requires list.Valid() && k < |list.elems|
    ensures list.Valid() && e == list.At(k)
  {
    list.BeginIsFirst();
    e := list.head.next;
    for j := 0 to k
      invariant list.Valid() && e == list.At(j)
    {
      list.Step(j);
      e := e.next;
    }
  }

  /** list_size */
  method ListSize(list: List) returns (cnt: nat)
    requires list.Valid()
    ensures list.Valid() && cnt == |list.elems|
  {
    list.BeginIsFirst();
    var e := list.head.next;
    cnt := 0;
    list.AtInjective(0, |list.elems|);
    while e != list.tail
      invariant list.Valid() && cnt <= |list.elems| && e == list.At(cnt)
      invariant e == list.tail <==> cnt == |list.elems|
      decreases |list.elems| - cnt
    {
      list.Step(cnt);
      e := e.next;
      cnt := cnt + 1;
      list.AtInjective(cnt, |list.elems|);
    }
  }

  method ListShuffle(list: List, rand: nat -> nat)
    requires list.Valid()
    modifies list`elems, list.Nodes()
    ensures list.Valid() && list.elems == Shuffled(old(list.elems), |old(list.elems)|, 0, rand)
  {
    var size: int := ListSize(list);
    var i := size - 1;
    ghost var e0 := list.elems;
    var t := 0;
    while i > 0
      invariant list.Valid() && list.Nodes() == old(list.Nodes()) && |list.elems| == size && -1 <= i < size
      invariant Shuffled(list.elems, i + 1, t, rand) == Shuffled(e0, |e0|, 0, rand)
    {
      hide List.Valid;
      var elem1 := Nth(list, i);
      var randomNum := rand(t) % i;
      var elem2 := Nth(list, randomNum);
      ListSwap(elem1, elem2, list, i, randomNum);
      i := i - 1;
      t := t + 1;
    }
  }

  // ---- the permutation is a single cycle ----

  ghost predicate Enumerates(c: seq<nat>, n: nat) {
    && |c| == n
    && Distinct(c)
    && (forall k | 0 <= k < n :: c[k] < n)
    && (forall x | 0 <= x < n :: x in c)
  }

  /** Following where elements of `r` came from in `s` runs through the positions of `c` and
      back to the start; positions not below `n` are unchanged. */
  ghost predicate CycledBy<T>(s: seq<T>, r: seq<T>, n: nat, c: seq<nat>) {
    && |s| == |r| && n <= |s| && Enumerates(c, n)
    && (forall k {:trigger r[c[k]]} | 0 <= k < n :: r[c[k]] == s[c[After(k, n)]])
    && (forall x | n <= x < |s| :: r[x] == s[x])
  }

  function InsertAt(c: seq<nat>, a: nat, v: nat): (d: seq<nat>)
    requires a <= |c|
    ensures |d| == |c| + 1
    ensures forall k | 0 <= k < |d| :: d[k] == if k < a then c[k] else if k == a then v else c[k - 1]
  {
    c[..a] + [v] + c[a..]
  }

  lemma InsertEnumerates(c: seq<nat>, m: nat, a: nat)
    requires Enumerates(c, m) && a < m
    ensures Enumerates(InsertAt(c, a, m), m + 1)
  {
    var d := InsertAt(c, a, m);
    forall x | 0 <= x <= m
      ensures x in d
    {
      if x < m {
        assert x in c;
        var k :| 0 <= k < m && c[k] == x;
        assert d[if k < a then k else k + 1] == x;
      } else {
        assert d[a] == m;
      }
    }
  }

  function After(k: nat, n: nat): nat {
    if k + 1 < n then k + 1 else 0
  }

  /** Where the extended cycle goes after position `c[k]` of the smaller one. */
  lemma CycleStep<T>(s: seq<T>, r: seq<T>, n: nat, j: nat, c: seq<nat>, a: nat, k: nat)
    requires 2 <= n <= |s| && j < n - 1 && CycledBy(Swapped(s, n - 1, j), r, n - 1, c)
    requires a < n - 1 && c[a] == j && k < n - 1
    ensures r[c[k]] == s[if After(k, n - 1) == a then n - 1 else c[After(k, n - 1)]]
  {
    assert r[c[k]] == Swapped(s, n - 1, j)[c[After(k, n - 1)]];
    assert After(k, n - 1) != a ==> c[After(k, n - 1)] != c[a];
  }

  lemma ExtendCycleAt<T>(s: seq<T>, r: seq<T>, n: nat, j: nat, c: seq<nat>, a: nat, d: seq<nat>, k: nat)
    requires 2 <= n <= |s| && j < n - 1 && CycledBy(Swapped(s, n - 1, j), r, n - 1, c)
    requires a < n - 1 && c[a] == j && k < n && d == InsertAt(c, a, n - 1)
    ensures d[k] < n && d[After(k, n)] < n && r[d[k]] == s[d[After(k, n)]]
  {
    hide Enumerates;
    EnumeratesBelow(c, n - 1);
    if k == a {
      assert r[n - 1] == Swapped(s, n - 1, j)[n - 1] == s[j];
    } else {
      CycleStep(s, r, n, j, c, a, if k < a then k else k - 1);
    }
  }

  /** Puts position `n - 1` into the cycle of the smaller shuffle, just before `j`. */
  lemma ExtendCycle<T>(s: seq<T>, r: seq<T>, n: nat, j: nat, c: seq<nat>, a: nat) returns (d: seq<nat>)
    requires 2 <= n <= |s| && j < n - 1 && CycledBy(Swapped(s, n - 1, j), r, n - 1, c)
    requires a < |c| && c[a] == j
    ensures CycledBy(s, r, n, d)
  {
    hide Enumerates;
    EnumeratesBelow(c, n - 1);
    d := InsertAt(c, a, n - 1);
    assert Enumerates(d, n) by {
      InsertEnumerates(c, n - 1, a);
    }
    EnumeratesBelow(d, n);
    forall k | 0 <= k < n
      ensures r[d[k]] == s[d[After(k, n)]]
    {
      ExtendCycleAt(s, r, n, j, c, a, d, k);
    }
    assert forall x | n <= x < |s| :: r[x] == Swapped(s, n - 1, j)[x] == s[x];
  }

  lemma EnumeratesBelow(c: seq<nat>, n: nat)
    requires Enumerates(c, n)
    ensures |c| == n && forall k | 0 <= k < n :: c[k] < n
  {
  }

  lemma {:induction false} ShuffleCycle<T>(s: seq<T>, n: nat, t: nat, rand: nat -> nat) returns (c: seq<nat>)
    requires 1 <= n <= |s|
    ensures CycledBy(s, Shuffled(s, n, t, rand), n, c)
    decreases n
  {
    if n == 1 {
      c := [0];
      assert c[0] == 0;
    } else {
      var j := rand(t) % (n - 1);
      var c' := ShuffleCycle(Swapped(s, n - 1, j), n - 1, t + 1, rand);
      assert j in c';
      var a :| 0 <= a < |c'| && c'[a] == j;
      c := ExtendCycle(s, Shuffled(s, n, t, rand), n, j, c', a);
    }
  }

  lemma {:induction false} ShufflePermutes<T>(s: seq<T>, n: nat, t: nat, rand: nat -> nat)
    requires n <= |s|
    ensures multiset(Shuffled(s, n, t, rand)) == multiset(s)
    decreases n
  {
    if n >= 2 {
      var i, j := n - 1, rand(t) % (n - 1);
      SwapPermutes(s, i, j);
      ShufflePermutes(Swapped(s, i, j), n - 1, t + 1, rand);
    }
  }

  lemma SwapPermutes<T>(s: seq<T>, i: nat, j: nat)
    requires j < i < |s|
    ensures multiset(Swapped(s, i, j)) == multiset(s)
  {
    assert s == s[..j] + [s[j]] + s[j + 1..i] + [s[i]] + s[i + 1..];
    assert Swapped(s, i, j) == s[..j] + [s[i]] + s[j + 1..i] + [s[j]] + s[i + 1..];
  }

  /** Whatever rand() returns, list_shuffle permutes the list by one cycle through all
      positions; so in a list of two or more, nothing stays where it was. */
  lemma ShuffleIsCyclic<T>(s: seq<T>, rand: nat -> nat)
    requires s != []
    ensures var r := Shuffled(s, |s|, 0, rand);
      && multiset(r) == multiset(s)
      && (exists c :: CycledBy(s, r, |s|, c))
      && (Distinct(s) && |s| >= 2 ==> forall x | 0 <= x < |s| :: r[x] != s[x])
  {
    var r, n := Shuffled(s, |s|, 0, rand), |s|;
    ShufflePermutes(s, n, 0, rand);
    var c := ShuffleCycle(s, n, 0, rand);
    if Distinct(s) && n >= 2 {
      forall x | 0 <= x < n
        ensures r[x] != s[x]
      {
        assert x in c;
        var k :| 0 <= k < n && c[k] == x;
        var y := c[After(k, n)];
        assert y != x && r[x] == s[y];
      }
    }
  }
}
