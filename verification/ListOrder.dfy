/** list_reverse, list_insert_ordered and list_unique (list.c), and what they have to do with
    list_sort: on a strict weak order there is one stable way to sort. */
module ListOrdering {
  import opened LinkedList
  import opened MergeSortSpec
  import opened Sequences

  // ---- reversing ----

  function Reversed<T>(s: seq<T>): (r: seq<T>)
    ensures |r| == |s|
  {
    seq(|s|, i requires 0 <= i < |s| => s[|s| - 1 - i])
  }

  /** The elements at positions 1 to `k - 1` of the chain have their two links exchanged. */
  ghost predicate Exchanged(c: seq<ListElem>, k: nat)
    reads c
  {
    && 1 <= k < |c|
    && c[0].next == c[1]
    && (forall i {:trigger c[i].next} | 0 < i < k :: c[i].next == c[i - 1])
    && (forall i {:trigger c[i].next} | k <= i < |c| - 1 :: c[i].next == c[i + 1])
    && (forall i {:trigger c[i].prev} | 0 < i < k :: c[i].prev == c[i + 1])
    && (forall i {:trigger c[i].prev} | k <= i < |c| :: c[i].prev == c[i - 1])
  }

  /** What the exchanges make of the chain: its inner elements in reverse order. */
  lemma TurnedRound(c: seq<ListElem>, d: seq<ListElem>)
    requires Distinct(c) && |c| >= 3
    requires d == [c[0]] + Reversed(c[1..|c| - 1]) + [c[|c| - 1]]
    requires c[0].next == c[|c| - 2] && c[|c| - 1].prev == c[1]
    requires c[|c| - 2].prev == c[0] && c[1].next == c[|c| - 1]
    requires forall i {:trigger c[i].next} | 1 < i < |c| - 1 :: c[i].next == c[i - 1]
    requires forall i {:trigger c[i].prev} | 0 < i < |c| - 2 :: c[i].prev == c[i + 1]
    ensures Links(d) && Distinct(d)
  {
    var n := |c|;
    assert |d| == n && d[0] == c[0] && d[n - 1] == c[n - 1];
    assert forall i | 0 < i < n - 1 :: d[i] == c[n - 1 - i];
    forall i {:trigger d[i].next} | 0 <= i < n - 1
      ensures d[i].next == d[i + 1]
    {
      if 0 < i < n - 2 {
        assert c[n - 1 - i].next == c[n - 2 - i];
      }
    }
    forall i {:trigger d[i].prev} | 0 < i < n
      ensures d[i].prev == d[i - 1]
    {
      if 1 < i < n - 1 {
        assert c[n - 1 - i].prev == c[n - i];
      }
    }
  }

  /** One turn of the loop of list_reverse. */
  method ExchangeLinks(e: ListElem, ghost c: seq<ListElem>, ghost k: nat) returns (after: ListElem)
    requires Distinct(c) && 1 <= k < |c| - 1 && e == c[k] && Exchanged(c, k)
    modifies e
    ensures Exchanged(c, k + 1) && after == c[k + 1]
  {
    assert e.next == c[k + 1];
    var t := e.prev;
    e.prev := e.next;
    e.next := t;
    after := e.prev;
  }

  /** The exchanges behind the loop of list_reverse. */
  method ExchangeEnds(head: ListElem, tail: ListElem, ghost c: seq<ListElem>)
    requires Distinct(c) && |c| >= 3 && head == c[0] && tail == c[|c| - 1] && Exchanged(c, |c| - 1)
    modifies c
    ensures var d := [c[0]] + Reversed(c[1..|c| - 1]) + [c[|c| - 1]]; Links(d) && Distinct(d)
    ensures head.prev == old(head.prev) && tail.next == old(tail.next)
  {
    assert c[0].next == c[1] && c[|c| - 1].prev == c[|c| - 2];
    assert c[1].next == c[0] && c[|c| - 2].prev == c[|c| - 1];
    var first, last := head.next, tail.prev;
    head.next := last;
    tail.prev := first;
    var t := last.prev;
    last.prev := first.next;
    first.next := t;
    TurnedRound(c, [c[0]] + Reversed(c[1..|c| - 1]) + [c[|c| - 1]]);
  }

  /** list_reverse */
  method ListReverse(list: List)
    requires list.Valid()
    modifies list`elems, list.Nodes()
    ensures list.Valid() && list.Nodes() == old(list.Nodes())
    ensures list.elems == Reversed(old(list.elems))
  {
    var empty := list.Empty();
    if !empty {
      ReverseLinks(list);
    }
  }

  method ReverseLinks(list: List)
    requires list.Valid() && list.elems != []
    modifies list`elems, list.Nodes()
    ensures list.Valid() && list.Nodes() == old(list.Nodes())
    ensures list.elems == Reversed(old(list.elems))
  {
    hide Links, Distinct, Exchanged, Reversed;
    ghost var c := list.Chain();
    ExchangedNothing(c);
    list.BeginIsFirst();
    var e: ListElem := list.head.next;
    ghost var k := 1;
    SamePosition(c, 1, |c| - 1);
    while e != list.tail
      invariant 1 <= k < |c| && e == c[k] && Exchanged(c, k) && (e == list.tail <==> k == |c| - 1)
      invariant list.head.prev == null && list.tail.next == null
      invariant list.elems == old(list.elems)
      decreases |c| - k
    {
      SamePosition(c, k, 0);
      assert c[k] in c;
      e := ExchangeLinks(e, c, k);
      k := k + 1;
      SamePosition(c, k, |c| - 1);
    }
    assert forall x | x in c :: x in list.Nodes();
    assert c[1..|c| - 1] == list.elems;
    ExchangeEnds(list.head, list.tail, c);
    list.elems := Reversed(list.elems);
    SameWhenReversed(old(list.elems));
  }

  lemma ExchangedNothing(c: seq<ListElem>)
    requires Links(c) && |c| >= 2
    ensures Exchanged(c, 1)
  {
  }

  lemma SameWhenReversed<T>(s: seq<T>)
    ensures forall x :: x in s <==> x in Reversed(s)
  {
    forall x | x in s ensures x in Reversed(s) {
      var i :| 0 <= i < |s| && s[i] == x;
      assert Reversed(s)[|s| - 1 - i] == x;
    }
  }

  // ---- inserting in order ----

  /** list_insert_ordered: the list becomes its merge with the one new element. */
  method ListInsertOrdered(list: List, elem: ListElem, less: Less<ListElem>)
    requires list.Valid() && elem !in list.Chain()
    modifies list`elems, list.Chain(), elem
    ensures list.Valid() && list.elems == Merge(old(list.elems), [elem], less)
  {
    hide Merge;
    var e := list.Begin();
    ghost var k, s := 0, list.elems;
    assert s[0..] == s;
    list.AtInjective(k, |s|);
    while e != list.tail
      invariant list.Valid() && list.elems == s && list.Chain() == old(list.Chain())
      invariant k <= |s| && e == list.At(k) && (e == list.tail <==> k == |s|)
      invariant s[..k] + Merge(s[k..], [elem], less) == Merge(s, [elem], less)
      decreases |s| - k
    {
      hide List.Valid;
      if less(elem, e) {
        break;
      }
      list.Step(k);
      PastElement(s, k, elem, less);
      e := e.next;
      k := k + 1;
      list.AtInjective(k, |s|);
    }
    AtElement(s, k, elem, less);
    ListInsert(e, elem, list, k + 1);
  }

  lemma PastElement<T>(s: seq<T>, k: nat, x: T, less: Less<T>)
    requires k < |s| && !less(x, s[k])
    ensures s[..k] + Merge(s[k..], [x], less) == s[..k + 1] + Merge(s[k + 1..], [x], less)
  {
    assert s[k..][1..] == s[k + 1..];
    assert s[..k + 1] == s[..k] + [s[k]];
  }

  lemma AtElement<T>(s: seq<T>, k: nat, x: T, less: Less<T>)
    requires k <= |s| && (k < |s| ==> less(x, s[k]))
    ensures s[..k] + Merge(s[k..], [x], less) == s[..k] + [x] + s[k..]
  {
    assert [x][1..] == [];
  }

  /** What list_insert_ordered makes of an empty list and the elements of `s`, one by one. */
  function Inserted<T>(s: seq<T>, less: Less<T>): seq<T> {
    if s == [] then [] else Merge(Inserted(s[..|s| - 1], less), [s[|s| - 1]], less)
  }

  lemma {:induction false} InsertedIsSorted<T>(s: seq<T>, less: Less<T>, u: set<T>)
    requires StrictWeakOrder(less, u) && Within(s, u)
    ensures Sorted(Inserted(s, less), less) && StablePermutation(s, Inserted(s, less), less, u)
    ensures Within(Inserted(s, less), u)
  {
    hide StrictWeakOrder, Merge, ClassOf;
    if s == [] {
      StableReflexive(s, less, u);
    } else {
      var front, last := s[..|s| - 1], [s[|s| - 1]];
      var a := Inserted(front, less);
      InsertedIsSorted(front, less, u);
      MergeSorted(a, last, less, u);
      MergePermutes(a, last, less);
      assert front + last == s;
      forall x | x in u ensures ClassOf(x, s, less) == ClassOf(x, Merge(a, last, less), less) {
        MergeStable(x, a, last, less, u);
        ClassConcat(x, front, last, less);
      }
      SameElementsWithin(s, Merge(a, last, less), u);
    }
  }

  /** There is only one sorted list with the same elements, equivalent ones in the same order. */
  lemma {:induction false} StableSortIsUnique<T>(s: seq<T>, t: seq<T>, less: Less<T>, u: set<T>)
    requires StrictWeakOrder(less, u) && Within(s, u)
    requires Sorted(s, less) && Sorted(t, less) && StablePermutation(s, t, less, u)
    ensures s == t
    decreases |s|
  {
    hide StrictWeakOrder, Sorted, ClassOf;
    assert |s| == |multiset(s)| == |multiset(t)| == |t|;
    if s != [] {
      SameElementsWithin(s, t, u);
      SameFirst(s, t, less, u);
      SameRest(s, t, less, u);
      Tail(s, less, u);
      Tail(t, less, u);
      StableSortIsUnique(s[1..], t[1..], less, u);
    }
  }

  lemma SameRest<T>(s: seq<T>, t: seq<T>, less: Less<T>, u: set<T>)
    requires s != [] && t != [] && s[0] == t[0] && StablePermutation(s, t, less, u)
    ensures StablePermutation(s[1..], t[1..], less, u)
  {
    hide ClassOf, IfEquivalent;
    var x := s[0];
    assert s == [x] + s[1..] && t == [x] + t[1..];
    SameMultisetRest(x, s[1..], t[1..]);
    forall z | z in u ensures ClassOf(z, s[1..], less) == ClassOf(z, t[1..], less) {
      SameClassRest(z, x, s[1..], t[1..], less);
    }
  }

  lemma SameMultisetRest<T>(x: T, a: seq<T>, b: seq<T>)
    requires multiset([x] + a) == multiset([x] + b)
    ensures multiset(a) == multiset(b)
  {
    assert multiset(a) == multiset([x] + a) - multiset{x};
    assert multiset(b) == multiset([x] + b) - multiset{x};
  }

  lemma SameClassRest<T>(z: T, x: T, s: seq<T>, t: seq<T>, less: Less<T>)
    requires ClassOf(z, [x] + s, less) == ClassOf(z, [x] + t, less)
    ensures ClassOf(z, s, less) == ClassOf(z, t, less)
  {
    hide ClassOf;
    ClassCons(z, x, s, less);
    ClassCons(z, x, t, less);
    var h, a, b := IfEquivalent(z, x, less), ClassOf(z, s, less), ClassOf(z, t, less);
    assert (h + a)[|h|..] == a && (h + b)[|h|..] == b;
  }

  lemma SameFirst<T>(s: seq<T>, t: seq<T>, less: Less<T>, u: set<T>)
    requires StrictWeakOrder(less, u) && Within(s, u) && Within(t, u) && s != [] && t != []
    requires Sorted(s, less) && Sorted(t, less) && StablePermutation(s, t, less, u)
    ensures s[0] == t[0]
  {
    assert s[0] in multiset(t) && t[0] in multiset(s);
    assert !less(s[0], t[0]) && !less(t[0], s[0]);
    assert ClassOf(s[0], s, less)[0] == s[0];
    assert ClassOf(s[0], t, less)[0] == t[0];
  }

  /** So inserting in order, one by one, comes to the same list as list_sort. */
  lemma InsertionIsSort<T>(s: seq<T>, t: seq<T>, passes: nat, less: Less<T>, u: set<T>)
    requires StrictWeakOrder(less, u) && Within(s, u) && SortedBy(s, t, passes, less)
    ensures Inserted(s, less) == t
  {
    hide StrictWeakOrder, Sorted, ClassOf, Inserted, SortedBy;
    SortCorrect(s, t, passes, less, u);
    InsertedIsSorted(s, less, u);
    StableSortIsUnique(Inserted(s, less), t, less, u);
  }

  // ---- dropping duplicates ----

  /** What list_unique keeps of `s` behind the kept element `x`. */
  function Kept<T>(x: T, s: seq<T>, less: Less<T>): seq<T> {
    if s == [] then []
    else if Equivalent(x, s[0], less) then Kept(x, s[1..], less)
    else [s[0]] + Kept(s[0], s[1..], less)
  }

  function Dropped<T>(x: T, s: seq<T>, less: Less<T>): seq<T> {
    if s == [] then []
    else if Equivalent(x, s[0], less) then [s[0]] + Dropped(x, s[1..], less)
    else Dropped(s[0], s[1..], less)
  }

  function Unique<T>(s: seq<T>, less: Less<T>): seq<T> {
    if s == [] then [] else [s[0]] + Kept(s[0], s[1..], less)
  }

  function Duplicates<T>(s: seq<T>, less: Less<T>): seq<T> {
    if s == [] then [] else Dropped(s[0], s[1..], less)
  }

  function FirstOf<T>(s: seq<T>): seq<T> { if s == [] then [] else [s[0]] }
  function RestOf<T>(s: seq<T>): seq<T> { if s == [] then [] else s[1..] }

  lemma {:induction false} KeptClasses<T>(z: T, x: T, s: seq<T>, less: Less<T>, u: set<T>)
    requires StrictWeakOrder(less, u) && z in u && x in u && Within(s, u) && Sorted([x] + s, less)
    ensures ClassOf(z, [x] + Kept(x, s, less), less) == FirstOf(ClassOf(z, [x] + s, less))
    ensures ClassOf(z, Dropped(x, s, less), less) == RestOf(ClassOf(z, [x] + s, less))
    decreases |s|
  {
    hide ClassOf, StrictWeakOrder, Sorted;
    ClassCons(z, x, s, less);
    ClassCons(z, x, Kept(x, s, less), less);
    if s == [] {
      assert ClassOf(z, [], less) == [] by { ClassEmpty(z, [], less); }
    } else {
      var y, r := s[0], s[1..];
      assert s == [y] + r;
      SortedParts(x, y, r, less);
      ClassCons(z, y, r, less);
      if Equivalent(x, y, less) {
        KeptClasses(z, x, r, less, u);
        ClassCons(z, x, Kept(x, r, less), less);
        ClassCons(z, x, r, less);
        ClassCons(z, y, Dropped(x, r, less), less);
        SameClass(z, x, y, less, u);
      } else {
        KeptClasses(z, y, r, less, u);
        if Equivalent(z, x, less) {
          NoneEquivalentAbove(z, s, x, less, u);
        }
      }
    }
  }

  lemma SortedParts<T>(x: T, y: T, r: seq<T>, less: Less<T>)
    requires Sorted([x] + ([y] + r), less)
    ensures Sorted([x] + r, less) && Sorted([y] + r, less) && !less(y, x)
  {
    var s := [x] + ([y] + r);
    assert s[0] == x && s[1] == y && !less(s[1], s[0]);
    SortedSlice(s, 1, less);
    assert s[1..] == [y] + r;
    SortedSlice(s, 2, less);
    assert s[2..] == r;
    var a := [x] + r;
    forall i, j | 0 <= i < j < |a| ensures !less(a[j], a[i]) {
      assert a[j] == s[j + 1] && a[i] == s[if i == 0 then 0 else i + 1];
    }
  }

  lemma SortedSlice<T>(s: seq<T>, k: nat, less: Less<T>)
    requires k <= |s| && Sorted(s, less)
    ensures Sorted(s[k..], less)
  {
  }

  lemma SameClass<T>(z: T, x: T, y: T, less: Less<T>, u: set<T>)
    requires StrictWeakOrder(less, u) && z in u && x in u && y in u && Equivalent(x, y, less)
    ensures Equivalent(z, x, less) <==> Equivalent(z, y, less)
  {
  }

  /** Of a sorted list, list_unique keeps the first of each class of equivalent elements, and
      drops the others in the order they had. */
  lemma UniqueKeepsFirsts<T>(z: T, s: seq<T>, less: Less<T>, u: set<T>)
    requires StrictWeakOrder(less, u) && z in u && Within(s, u) && Sorted(s, less)
    ensures ClassOf(z, Unique(s, less), less) == FirstOf(ClassOf(z, s, less))
    ensures ClassOf(z, Duplicates(s, less), less) == RestOf(ClassOf(z, s, less))
  {
    if s != [] {
      assert s == [s[0]] + s[1..];
      KeptClasses(z, s[0], s[1..], less, u);
    }
  }

  lemma {:induction false} KeptAbove<T>(x: T, s: seq<T>, less: Less<T>, u: set<T>)
    requires StrictWeakOrder(less, u) && x in u && Within(s, u) && Sorted([x] + s, less)
    ensures var k := [x] + Kept(x, s, less);
      Within(k, u) && forall i, j | 0 <= i < j < |k| :: less(k[i], k[j])
    decreases |s|
  {
    if s != [] {
      var y, r := s[0], s[1..];
      assert s == [y] + r;
      SortedParts(x, y, r, less);
      if Equivalent(x, y, less) {
        KeptAbove(x, r, less, u);
      } else {
        KeptAbove(y, r, less, u);
        var k := [y] + Kept(y, r, less);
        forall i | 0 <= i < |k| ensures less(x, k[i]) {
          assert k[0] == y && k[i] in u && (i > 0 ==> less(k[0], k[i]));
        }
      }
    }
  }

  /** What is kept of a sorted list is strictly ascending. */
  lemma UniqueAscends<T>(s: seq<T>, less: Less<T>, u: set<T>)
    requires StrictWeakOrder(less, u) && Within(s, u) && Sorted(s, less)
    ensures var k := Unique(s, less); forall i, j | 0 <= i < j < |k| :: less(k[i], k[j])
  {
    if s != [] {
      assert s == [s[0]] + s[1..];
      KeptAbove(s[0], s[1..], less, u);
    }
  }

  lemma {:induction false} KeptAndDropped<T>(x: T, s: seq<T>, less: Less<T>)
    ensures multiset(Kept(x, s, less)) + multiset(Dropped(x, s, less)) == multiset(s)
  {
    if s != [] {
      assert s == [s[0]] + s[1..];
      KeptAndDropped(if Equivalent(x, s[0], less) then x else s[0], s[1..], less);
    }
  }

  /** Nothing is lost, sorted or not. */
  lemma UniqueLosesNothing<T>(s: seq<T>, less: Less<T>)
    ensures multiset(Unique(s, less)) + multiset(Duplicates(s, less)) == multiset(s)
  {
    if s != [] {
      assert s == [s[0]] + s[1..];
      KeptAndDropped(s[0], s[1..], less);
    }
  }

  lemma KeptStep<T>(e: seq<T>, k: nat, less: Less<T>)
    requires k + 1 < |e|
    ensures Equivalent(e[k], e[k + 1], less) ==>
      && Kept(e[k], e[k + 1..], less) == Kept(e[k], e[k + 2..], less)
      && Dropped(e[k], e[k + 1..], less) == [e[k + 1]] + Dropped(e[k], e[k + 2..], less)
    ensures !Equivalent(e[k], e[k + 1], less) ==>
      && e[..k + 1] + Kept(e[k], e[k + 1..], less) == e[..k + 2] + Kept(e[k + 1], e[k + 2..], less)
      && Dropped(e[k], e[k + 1..], less) == Dropped(e[k + 1], e[k + 2..], less)
  {
    assert e[k + 1..][1..] == e[k + 2..];
    assert e[..k + 2] == e[..k + 1] + [e[k + 1]];
  }

  /** Taking out position `k + 1`. */
  lemma WithoutNext<T>(h: T, e: seq<T>, f: seq<T>, t: T, k: nat)
    requires k + 1 < |e| && f == e[..k + 1] + e[k + 2..] && Distinct([h] + e + [t])
    ensures f[k] == e[k] && f[..k + 1] == e[..k + 1] && f[k + 1..] == e[k + 2..]
    ensures e[k + 1] !in [h] + f + [t]
    ensures forall x | x in [h] + f + [t] :: x in [h] + e + [t]
  {
    var c, d := [h] + e + [t], [h] + f + [t];
    assert c[k + 2] == e[k + 1];
    forall i | 0 <= i < |d| ensures d[i] in c && d[i] != e[k + 1] {
      assert d[i] == c[if i < k + 2 then i else i + 1];
    }
  }

  /** What list_unique may write: both lists and all their elements. */
  ghost function Footprint(list: List, duplicates: List?): set<object>
    reads list, duplicates
  {
    {list} + list.Nodes() + if duplicates == null then {} else {duplicates} + duplicates.Nodes()
  }

  ghost predicate Separate(list: List, duplicates: List?)
    reads list, list.Nodes(), duplicates, if duplicates == null then {} else duplicates.Nodes()
  {
    list.Valid()
    && (duplicates != null ==> duplicates.Valid() && duplicates != list && list.Nodes() !! duplicates.Nodes())
  }

  /** list_remove of the element at position `k + 1`, which joins the other list instead if
      there is one. */
  method RemoveNext(list: List, next: ListElem, ghost k: nat)
    requires list.Valid() && k + 1 < |list.elems| && next == list.At(k + 1)
    modifies list`elems, list.Nodes()
    ensures list.Valid() && list.Nodes() <= old(list.Nodes()) && next !in list.Nodes() && next in old(list.Nodes())
    ensures var e := old(list.elems); list.elems == e[..k + 1] + e[k + 2..]
  {
    hide Links;
    ghost var e := list.elems;
    assert list.Chain()[k + 2] == next;
    var _ := ListRemove(next, list, k + 2);
    WithoutNext(list.head, e, list.elems, list.tail, k);
  }

  lemma OtherNodes(list: List, other: List)
    requires list.Nodes() !! other.Nodes()
    ensures forall x | x in other.Chain() :: x !in list.Nodes()
    ensures other.head !in list.Nodes() && other.tail !in list.Nodes()
  {
    assert other.Chain()[0] == other.head && other.Chain()[|other.elems| + 1] == other.tail;
    assert forall x | x in other.Chain() :: x in other.Nodes();
  }

  lemma NodesPushed<T>(h: T, e: seq<T>, t: T, x: T)
    ensures (set n | n in [h] + (e + [x]) + [t]) == (set n | n in [h] + e + [t]) + {x}
  {
  }

  /** The dropped element joins the other list. */
  method PushDuplicate(list: List, duplicates: List, next: ListElem)
    requires list.Valid() && duplicates.Valid() && duplicates != list && list.Nodes() !! duplicates.Nodes()
    requires next !in list.Nodes() && next !in duplicates.Nodes()
    modifies duplicates`elems, duplicates.Nodes(), next
    ensures list.Valid() && duplicates.Valid() && list.Nodes() !! duplicates.Nodes()
    ensures duplicates.Nodes() == old(duplicates.Nodes()) + {next}
    ensures duplicates.elems == old(duplicates.elems) + [next]
  {
    hide Distinct, Links;
    OtherNodes(duplicates, list);
    assert forall x | x in list.Chain() :: x in list.Nodes();
    assert list.head in list.Chain() && list.tail in list.Chain();
    NodesPushed(duplicates.head, duplicates.elems, duplicates.tail, next);
    ghost var c, d := list.Chain(), duplicates.Chain();
    assert forall i, j | 0 <= i < |c| && 0 <= j < |d| :: c[i] != d[j] by {
      assert forall i | 0 <= i < |c| :: c[i] in c && c[i] !in duplicates.Nodes();
      assert forall j | 0 <= j < |d| :: d[j] in d && d[j] in duplicates.Nodes();
    }
    PushBack(duplicates, next);
    assert Links(c);
  }

  method DropNext(list: List, next: ListElem, duplicates: List?, ghost k: nat)
    requires Separate(list, duplicates) && k + 1 < |list.elems| && next == list.At(k + 1)
    modifies Footprint(list, duplicates)
    ensures Separate(list, duplicates) && Footprint(list, duplicates) <= old(Footprint(list, duplicates))
    ensures var e := old(list.elems); list.elems == e[..k + 1] + e[k + 2..]
    ensures duplicates != null ==> duplicates.elems == old(duplicates.elems) + [next]
  {
    hide Distinct, Links;
    if duplicates == null {
      RemoveNext(list, next, k);
    } else {
      OtherNodes(list, duplicates);
      RemoveNext(list, next, k);
      PushDuplicate(list, duplicates, next);
    }
  }

  /** list_unique, for any list, sorted or not */
  method ListUnique(list: List, duplicates: List?, less: Less<ListElem>)
    requires Separate(list, duplicates)
    modifies Footprint(list, duplicates)
    ensures Separate(list, duplicates)
    ensures list.elems == Unique(old(list.elems), less)
    ensures duplicates != null ==> duplicates.elems == old(duplicates.elems) + Duplicates(old(list.elems), less)
  {
    var empty := list.Empty();
    if !empty {
      DropDuplicates(list, duplicates, less);
    }
  }

  /** The loop of list_unique. */
  method DropDuplicates(list: List, duplicates: List?, less: Less<ListElem>)
    requires Separate(list, duplicates) && list.elems != []
    modifies Footprint(list, duplicates)
    ensures Separate(list, duplicates)
    ensures list.elems == Unique(old(list.elems), less)
    ensures duplicates != null ==> duplicates.elems == old(duplicates.elems) + Duplicates(old(list.elems), less)
  {
    hide Separate, Footprint, List.Valid, List.Chain, List.Nodes, Kept, Dropped;
    SeparateValid(list, duplicates);
    ghost var e0, k := list.elems, 0;
    list.BeginIsFirst();
    var elem: ListElem := list.head.next;
    NextOf(list, 0);
    var next := elem.next;
    while next != list.tail
      invariant Separate(list, duplicates) && Footprint(list, duplicates) <= old(Footprint(list, duplicates))
      invariant k < |list.elems| && elem == list.At(k) && next == list.At(k + 1)
      invariant next == list.tail <==> k + 1 == |list.elems|
      invariant list.elems[..k + 1] + Kept(elem, list.elems[k + 1..], less) == Unique(e0, less)
      invariant duplicates != null ==>
        duplicates.elems + Dropped(elem, list.elems[k + 1..], less) == old(duplicates.elems) + Duplicates(e0, less)
      decreases |list.elems| - k
    {
      ghost var e := list.elems;
      SeparateValid(list, duplicates);
      KeptStep(e, k, less);
      if !less(elem, next) && !less(next, elem) {
        DropNext(list, next, duplicates, k);
        assert list.elems[..k + 1] == e[..k + 1] && list.elems[k + 1..] == e[k + 2..];
        SeparateValid(list, duplicates);
      } else {
        elem := next;
        k := k + 1;
      }
      NextOf(list, k);
      next := elem.next;
    }
    NothingLeft(elem, less);
    assert list.elems[k + 1..] == [] && list.elems[..k + 1] == list.elems;
  }

  lemma NothingLeft<T>(x: T, less: Less<T>)
    ensures Kept(x, [], less) == [] && Dropped(x, [], less) == []
  {
  }

  lemma SeparateValid(list: List, duplicates: List?)
    requires Separate(list, duplicates)
    ensures list.Valid()
  {
  }

  lemma NextOf(list: List, k: nat)
    requires list.Valid() && k < |list.elems|
    ensures list.At(k).next == list.At(k + 1)
    ensures list.At(k + 1) == list.tail <==> k + 1 == |list.elems|
  {
    list.Step(k);
    list.AtInjective(k + 1, |list.elems|);
  }
}
