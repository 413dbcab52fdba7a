/** The intrusive doubly linked list (list.c): elements carry their own links, and every
    list is framed by a head and a tail element. The ghost field `elems` names the elements
    between the two, in order; `Valid` ties the links to it. */
module LinkedList {
  import opened MergeSortSpec
  import opened Sequences

  class ListElem {
    var prev: ListElem?
    var next: ListElem?

    constructor ()
      ensures prev == null && next == null
    {
      prev, next := null, null;
    }
  }

  /** Neighbours in `c` point at each other. */
  ghost predicate Links(c: seq<ListElem>)
    reads c
  {
    && (forall i {:trigger c[i].next} | 0 <= i < |c| - 1 :: c[i].next == c[i + 1])
    && (forall i {:trigger c[i].prev} | 0 < i < |c| :: c[i].prev == c[i - 1])
  }

  lemma SplitLinks(a: seq<ListElem>, b: seq<ListElem>)
    requires Links(a + b)
    ensures Links(a) && Links(b)
    ensures a != [] && b != [] ==> a[|a| - 1].next == b[0] && b[0].prev == a[|a| - 1]
  {
    var c := a + b;
    forall i {:trigger a[i].next} | 0 <= i < |a| - 1
      ensures a[i].next == a[i + 1]
    {
      assert c[i].next == c[i + 1];
    }
    forall i {:trigger a[i].prev} | 0 < i < |a|
      ensures a[i].prev == a[i - 1]
    {
      assert c[i].prev == c[i - 1];
    }
    forall i {:trigger b[i].next} | 0 <= i < |b| - 1
      ensures b[i].next == b[i + 1]
    {
      assert c[|a| + i].next == c[|a| + i + 1];
    }
    forall i {:trigger b[i].prev} | 0 < i < |b|
      ensures b[i].prev == b[i - 1]
    {
      assert c[|a| + i].prev == c[|a| + i - 1];
    }
    if a != [] && b != [] {
      assert c[|a| - 1].next == c[|a|];
      assert c[|a|].prev == c[|a| - 1];
    }
  }

  lemma JoinLinks(a: seq<ListElem>, b: seq<ListElem>)
    requires Links(a) && Links(b)
    requires a != [] && b != [] ==> a[|a| - 1].next == b[0] && b[0].prev == a[|a| - 1]
    ensures Links(a + b)
  {
    var c := a + b;
    forall i {:trigger c[i].next} | 0 <= i < |c| - 1
      ensures c[i].next == c[i + 1]
    {
      if i < |a| - 1 {
        assert a[i].next == a[i + 1];
      } else if i >= |a| {
        assert b[i - |a|].next == b[i - |a| + 1];
      }
    }
    forall i {:trigger c[i].prev} | 0 < i < |c|
      ensures c[i].prev == c[i - 1]
    {
      if i < |a| {
        assert a[i].prev == a[i - 1];
      } else if i > |a| {
        assert b[i - |a|].prev == b[i - |a| - 1];
      }
    }
  }

  /** Writing outside a segment, or to its outward links only, keeps it linked. */
  twostate lemma SegmentKept(s: seq<ListElem>)
    requires old(Links(s))
    requires forall i {:trigger s[i].next} | 0 <= i < |s| - 1 :: s[i].next == old(s[i].next)
    requires forall i {:trigger s[i].prev} | 0 < i < |s| :: s[i].prev == old(s[i].prev)
    ensures Links(s)
  {
    forall i {:trigger s[i].next} | 0 <= i < |s| - 1
      ensures s[i].next == s[i + 1]
    {
      assert old(s[i].next) == s[i + 1];
    }
    forall i {:trigger s[i].prev} | 0 < i < |s|
      ensures s[i].prev == s[i - 1]
    {
      assert old(s[i].prev) == s[i - 1];
    }
  }

  class List {
    const head: ListElem
    const tail: ListElem
    ghost var elems: seq<ListElem>

    ghost function Chain(): seq<ListElem>
      reads this
    {
      [head] + elems + [tail]
    }

    ghost function Nodes(): set<ListElem>
      reads this
    {
      set n | n in Chain()
    }

    ghost predicate Valid()
      reads this, Chain(), head, tail
    {
      && Distinct(Chain())
      && Links(Chain())
      && head.prev == null
      && tail.next == null
    }

    /** The element at position `k`; position `|elems|` is the tail. */
    ghost function At(k: nat): ListElem
      requires k <= |elems|
      reads this
      ensures At(k) == Chain()[k + 1]
    {
      if k < |elems| then elems[k] else tail
    }

    lemma AtInjective(i: nat, j: nat)
      requires Valid() && i <= |elems| && j <= |elems|
      ensures At(i) == At(j) <==> i == j
    {
      SamePosition(Chain(), i + 1, j + 1);
    }

    /** list_init */
    constructor ()
      ensures Valid() && elems == [] && fresh(head) && fresh(tail)
    {
      var h := new ListElem();
      var t := new ListElem();
      head, tail := h, t;
      elems := [];
      new;
      head.next := tail;
      tail.prev := head;
    }

    /** list_begin */
    method Begin() returns (e: ListElem)
      requires Valid()
      ensures e == At(0)
    {
      BeginIsFirst();
      e := head.next;
    }

    lemma BeginIsFirst()
      requires Valid()
      ensures head.next == At(0)
    {
      assert Chain()[0] == head;
      assert Chain()[0].next == Chain()[1];
    }

    /** What list_next and list_prev find between positions `k` and `k + 1`. */
    lemma Step(k: nat)
      requires Valid() && k < |elems|
      ensures At(k).next == At(k + 1) && At(k + 1).prev == At(k)
    {
      assert Chain()[k + 1].next == Chain()[k + 2];
      assert Chain()[k + 2].prev == Chain()[k + 1];
    }

    method Empty() returns (b: bool)
      requires Valid()
      ensures b <==> elems == []
    {
      var e := Begin();
      b := e == tail;
      assert Chain()[|elems| + 1] == tail;
    }
  }

  /** The link surgery of list_insert, between the chain segments `a` and `b`. */
  method InsertLinks(before: ListElem, elem: ListElem, ghost a: seq<ListElem>, ghost b: seq<ListElem>)
    requires a != [] && b != [] && before == b[0] && before.prev == a[|a| - 1]
    requires Distinct(a + b) && elem !in a + b && Links(a) && Links(b)
    modifies a[|a| - 1], before, elem
    ensures Links(a + [elem] + b)
    ensures a[0].prev == old(a[0].prev) && b[|b| - 1].next == old(b[|b| - 1].next)
  {
    elem.prev := before.prev;
    elem.next := before;
    before.prev.next := elem;
    before.prev := elem;
    assert Links(a) && Links(b) by {
      DistinctConcat(a, b);
      SegmentKept(a);
      SegmentKept(b);
    }
    assert Links(a + [elem]) by {
      JoinLinks(a, [elem]);
    }
    JoinLinks(a + [elem], b);
    assert a[0] != before && b[|b| - 1] != a[|a| - 1] by {
      DistinctConcat(a, b);
    }
    assert a[0] in a + b && b[|b| - 1] in a + b;
  }

  /** list_insert: `elem` goes in front of `before`, which sits at position `k` of the chain. */
  method ListInsert(before: ListElem, elem: ListElem, ghost list: List, ghost k: nat)
    requires list.Valid() && 1 <= k <= |list.elems| + 1 && before == list.Chain()[k]
    requires elem !in list.Chain()
    modifies list`elems, list.Chain(), elem
    ensures list.Valid()
    ensures list.elems == old(list.elems)[..k - 1] + [elem] + old(list.elems)[k - 1..]
  {
    hide Links;
    hide Distinct;
    ghost var a, b := list.Chain()[..k], list.Chain()[k..];
    assert a + b == list.Chain();
    SplitLinks(a, b);
    InsertLinks(before, elem, a, b);
    list.elems := list.elems[..k - 1] + [elem] + list.elems[k - 1..];
    assert list.Chain() == a + [elem] + b;
    DistinctInsert(a, elem, b);
  }

  lemma DistinctInsert<T>(a: seq<T>, x: T, b: seq<T>)
    requires Distinct(a + b) && x !in a + b
    ensures Distinct(a + [x] + b)
  {
    DistinctConcat(a, b);
    DistinctConcat(a, [x]);
    DistinctConcat(a + [x], b);
  }

  lemma DistinctRemove<T>(a: seq<T>, x: seq<T>, b: seq<T>)
    requires Distinct(a + x + b)
    ensures Distinct(a + b) && Distinct(a + x) && Distinct(x + b) && Distinct(a) && Distinct(x) && Distinct(b)
  {
    DistinctConcat(a + x, b);
    DistinctConcat(a, x);
    forall i, j | 0 <= i < |a| && 0 <= j < |b|
      ensures a[i] != b[j]
    {
      assert (a + x)[i] != b[j];
    }
    forall i, j | 0 <= i < |x| && 0 <= j < |b|
      ensures x[i] != b[j]
    {
      assert (a + x)[|a| + i] != b[j];
    }
    DistinctConcat(a, b);
    DistinctConcat(x, b);
  }

  /** The link surgery of list_remove, between the chain segments `a` and `b`. */
  method RemoveLinks(elem: ListElem, ghost a: seq<ListElem>, ghost b: seq<ListElem>) returns (after: ListElem)
    requires a != [] && b != [] && Distinct(a + [elem] + b) && Links(a + [elem] + b)
    modifies a[|a| - 1], b[0]
    ensures Links(a + b) && after == b[0]
    ensures a[0].prev == old(a[0].prev) && b[|b| - 1].next == old(b[|b| - 1].next)
  {
    SplitLinks(a + [elem], b);
    SplitLinks(a, [elem]);
    DistinctRemove(a, [elem], b);
    assert elem.prev == a[|a| - 1] && elem.next == b[0];
    elem.prev.next := elem.next;
    elem.next.prev := elem.prev;
    after := elem.next;
    assert Links(a) && Links(b) by {
      DistinctConcat(a, b);
      SegmentKept(a);
      SegmentKept(b);
    }
    JoinLinks(a, b);
    assert a[0] != b[0] && b[|b| - 1] != a[|a| - 1] by {
      DistinctConcat(a, b);
    }
  }

  /** list_remove: takes the element at position `k` of the chain out and returns its successor. */
  method ListRemove(elem: ListElem, ghost list: List, ghost k: nat) returns (after: ListElem)
    requires list.Valid() && 1 <= k <= |list.elems| && elem == list.Chain()[k]
    modifies list`elems, list.Chain()
    ensures list.Valid() && after == old(list.Chain()[k + 1])
    ensures list.elems == old(list.elems)[..k - 1] + old(list.elems)[k..]
  {
    hide Links;
    hide Distinct;
    ghost var a, b := list.Chain()[..k], list.Chain()[k + 1..];
    assert a + [elem] + b == list.Chain();
    after := RemoveLinks(elem, a, b);
    list.elems := list.elems[..k - 1] + list.elems[k..];
    assert list.Chain() == a + b;
    DistinctRemove(a, [elem], b);
  }

  method PushBack(list: List, elem: ListElem)
    requires list.Valid() && elem !in list.Chain()
    modifies list`elems, list.Chain(), elem
    ensures list.Valid() && list.elems == old(list.elems) + [elem]
  {
    assert list.tail == list.Chain()[|list.elems| + 1];
    ListInsert(list.tail, elem, list, |list.elems| + 1);
  }

  method PushFront(list: List, elem: ListElem)
    requires list.Valid() && elem !in list.Chain()
    modifies list`elems, list.Chain(), elem
    ensures list.Valid() && list.elems == [elem] + old(list.elems)
  {
    var front := list.Begin();
    ListInsert(front, elem, list, 1);
  }

  method PopFront(list: List) returns (front: ListElem)
    requires list.Valid() && list.elems != []
    modifies list`elems, list.Chain()
    ensures list.Valid() && front == old(list.elems)[0] && list.elems == old(list.elems)[1..]
  {
    front := list.Begin();
    var _ := ListRemove(front, list, 1);
  }

  method PopBack(list: List) returns (back: ListElem)
    requires list.Valid() && list.elems != []
    modifies list`elems, list.Chain()
    ensures list.Valid() && back == old(list.elems)[|old(list.elems)| - 1]
    ensures list.elems == old(list.elems)[..|old(list.elems)| - 1]
  {
    ghost var c := list.Chain();
    assert c[|list.elems| + 1].prev == c[|list.elems|];
    back := list.tail.prev;
    var _ := ListRemove(back, list, |list.elems|);
  }

  lemma SamePosition<T>(c: seq<T>, i: nat, j: nat)
    requires Distinct(c) && i < |c| && j < |c|
    ensures c[i] == c[j] <==> i == j
  {
  }

  lemma DistinctInsertBlock<T>(a: seq<T>, m: seq<T>, b: seq<T>)
    requires Distinct(a + b) && Distinct(m)
    requires forall i, j | 0 <= i < |m| && 0 <= j < |a + b| :: m[i] != (a + b)[j]
    ensures Distinct(a + m + b)
  {
    DistinctConcat(a, b);
    forall i, j | 0 <= i < |a| && 0 <= j < |m|
      ensures a[i] != m[j]
    {
      assert (a + b)[i] != m[j];
    }
    DistinctConcat(a, m);
    forall i, j | 0 <= i < |a + m| && 0 <= j < |b|
      ensures (a + m)[i] != b[j]
    {
      assert (a + b)[|a| + j] == b[j];
    }
    DistinctConcat(a + m, b);
  }

  lemma BlockOutside<T>(a: seq<T>, m: seq<T>, b: seq<T>)
    requires Distinct(a + m + b)
    ensures forall i, j | 0 <= i < |m| && 0 <= j < |a + b| :: m[i] != (a + b)[j]
  {
    DistinctRemove(a, m, b);
    DistinctConcat(a, m);
    DistinctConcat(m, b);
  }

  lemma BlockOutsideOther<T>(a: seq<T>, m: seq<T>, b: seq<T>, d: seq<T>)
    requires Distinct((a + m + b) + d)
    ensures forall i, j | 0 <= i < |m| && 0 <= j < |d| :: m[i] != d[j]
  {
    DistinctConcat(a + m + b, d);
    forall i, j | 0 <= i < |m| && 0 <= j < |d|
      ensures m[i] != d[j]
    {
      assert (a + m + b)[|a| + i] == m[i];
    }
  }

  /** First half of list_splice: the block `m` leaves the chain `a + m + b`. */
  method DetachLinks(first: ListElem, last: ListElem, ghost a: seq<ListElem>, ghost m: seq<ListElem>,
                      ghost b: seq<ListElem>)
    requires a != [] && m != [] && b != [] && first == m[0] && last == m[|m| - 1]
    requires Distinct(a + m + b) && Links(a + m + b)
    modifies a[|a| - 1], b[0]
    ensures Links(a + b) && Links(m)
    ensures a[0].prev == old(a[0].prev) && b[|b| - 1].next == old(b[|b| - 1].next)
  {
    SplitLinks(a + m, b);
    SplitLinks(a, m);
    DistinctRemove(a, m, b);
    DistinctConcat(a, m);
    DistinctConcat(m, b);
    DistinctConcat(a, b);
    first.prev.next := last.next;
    last.next.prev := first.prev;
    assert Links(a) && Links(b) && Links(m) by {
      SegmentKept(a);
      SegmentKept(b);
      SegmentKept(m);
    }
    JoinLinks(a, b);
  }

  /** Second half of list_splice: the block `m` enters the chain `a + b` in front of `b`. */
  method AttachLinks(before: ListElem, first: ListElem, last: ListElem,
                     ghost a: seq<ListElem>, ghost m: seq<ListElem>, ghost b: seq<ListElem>)
    requires a != [] && m != [] && b != [] && before == b[0] && first == m[0] && last == m[|m| - 1]
    requires Distinct(a + m + b) && Links(a + b) && Links(m)
    modifies first, last, before, a[|a| - 1]
    ensures Links(a + m + b)
    ensures a[0].prev == old(a[0].prev) && b[|b| - 1].next == old(b[|b| - 1].next)
  {
    SplitLinks(a, b);
    DistinctRemove(a, m, b);
    DistinctConcat(a, m);
    DistinctConcat(m, b);
    DistinctConcat(a, b);
    first.prev := before.prev;
    last.next := before;
    before.prev.next := first;
    before.prev := last;
    assert Links(a) && Links(b) && Links(m) by {
      SegmentKept(a);
      SegmentKept(b);
      SegmentKept(m);
    }
    assert Links(a + m) by {
      JoinLinks(a, m);
    }
    JoinLinks(a + m, b);
  }

  /** list_splice on chains. The block `m` leaves `a + m + b` and enters `p + q` in front of
      `before`, the first element of `q`; `p + q` is either what is left of the first chain or
      a chain of another list. */
  method ListSplice(before: ListElem, first: ListElem, last: ListElem, ghost a: seq<ListElem>, ghost m: seq<ListElem>,
                    ghost b: seq<ListElem>, ghost p: seq<ListElem>, ghost q: seq<ListElem>)
    requires a != [] && b != [] && p != [] && q != []
    requires before == q[0] && first == (m + b)[0] && last == b[0]
    requires Distinct(a + m + b) && Links(a + m + b)
    requires p + q == a + b || (Links(p + q) && Distinct((a + m + b) + (p + q)))
    modifies a, m, b, p, q
    ensures Links(p + m + q) && Distinct(p + m + q)
    ensures p[0].prev == old(p[0].prev) && q[|q| - 1].next == old(q[|q| - 1].next)
    ensures p + q != a + b ==> Links(a + b)
    ensures p + q != a + b ==> a[0].prev == old(a[0].prev) && b[|b| - 1].next == old(b[|b| - 1].next)
  {
    hide Links;
    hide Distinct;
    DistinctRemove(a, m, b);
    Ends(p, q);
    Ends(a, b);
    if p + q != a + b {
      Apart(a + m + b, p + q);
      assert a[|a| - 1] in a + m + b && b[0] in a + m + b;
      assert forall x | x in a + b :: x in a + m + b;
      assert p[|p| - 1] in p + q && q[0] in p + q;
    }
    Surrounds(a, m, b);
    if first == last {
      NoBlock(m, b);
      assert a + m + b == a + b && p + m + q == p + q;
      return;
    }
    assert (a + m + b)[|a + m|].prev == (a + m + b)[|a + m| - 1] by {
      LinkAt(a + m + b, |a + m|);
    }
    var l := last.prev;
    DetachLinks(first, l, a, m, b);
    assert Distinct(p + m + q) by {
      if p + q == a + b {
        BlockOutside(a, m, b);
      } else {
        BlockOutsideOther(a, m, b, p + q);
      }
      DistinctInsertBlock(p, m, q);
    }
    assert first in m && l in m && a[0] in a + b && b[|b| - 1] in a + b;
    AttachLinks(before, first, l, p, m, q);
  }

  lemma Ends<T>(a: seq<T>, b: seq<T>)
    requires a != [] && b != []
    ensures a[0] == (a + b)[0] && b[|b| - 1] == (a + b)[|a + b| - 1]
    ensures a[|a| - 1] == (a + b)[|a| - 1] && b[0] == (a + b)[|a|]
  {
  }

  lemma LinkAt(c: seq<ListElem>, k: nat)
    requires Links(c) && 0 < k < |c|
    ensures c[k].prev == c[k - 1] && c[k - 1].next == c[k]
  {
  }

  lemma Surrounds<T>(a: seq<T>, m: seq<T>, b: seq<T>)
    requires Distinct(a + m + b)
    ensures forall x | x in m :: x !in a + b
  {
    BlockOutside(a, m, b);
  }

  lemma Apart<T>(c: seq<T>, d: seq<T>)
    requires Distinct(c + d)
    ensures Distinct(c) && Distinct(d)
    ensures forall x | x in c :: x !in d
  {
    DistinctConcat(c, d);
  }

  lemma NoBlock<T>(m: seq<T>, b: seq<T>)
    requires b != [] && Distinct(m + b) && (m + b)[0] == b[0]
    ensures m == []
  {
    DistinctConcat(m, b);
  }
}
