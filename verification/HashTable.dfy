/** The hash table (hash.c): an array of buckets whose number is a power of two. */
module HashTable {
  import opened Options
  import opened Sequences
  import opened Nonlinear

  // ---- bits ----

  /** The bitwise and of two numbers. */
  function And(x: nat, y: nat): nat
    decreases x
  {
    if x == 0 || y == 0 then 0 else 2 * And(x / 2, y / 2) + (x % 2) * (y % 2)
  }

  ghost predicate PowerOf2(p: nat) {
    p == 1 || (p > 1 && p % 2 == 0 && PowerOf2(p / 2))
  }

  /** find_bucket's mask: the remainder of the division by a power of two. */
  lemma {:induction false} MaskIsMod(x: nat, p: nat)
    requires PowerOf2(p)
    ensures And(x, p - 1) == x % p
    decreases x
  {
    if p == 1 || x == 0 {
    } else {
      MaskIsMod(x / 2, p / 2);
      assert (p - 1) / 2 == p / 2 - 1 && (p - 1) % 2 == 1;
      HalfMod(x, p / 2);
    }
  }

  lemma HalfMod(x: nat, q: nat)
    requires q > 0
    ensures x % (2 * q) == 2 * (x / 2 % q) + x % 2
  {
    var a, b := x / 2 / q, x / 2 % q;
    assert x / 2 == q * a + b;
    assert x == 2 * q * a + (2 * b + x % 2) by {
      assert 2 * (q * a) == 2 * q * a;
    }
    assert 2 * b + x % 2 < 2 * q;
    ModIs(x, 2 * q, a, 2 * b + x % 2);
  }

  lemma ModIs(x: nat, d: nat, a: nat, r: nat)
    requires r < d && x == d * a + r
    ensures x % d == r
  {
    DivUnique(x, d, a);
  }

  lemma {:induction false} AndSelf(x: nat)
    ensures And(x, x) == x
    decreases x
  {
    if x > 0 {
      AndSelf(x / 2);
    }
  }

  /** turn_off_least_1bit gives a smaller number, with the same highest bit unless there was only
      one; and gives 0 just for powers of two. */
  lemma {:induction false} LeastBitOff(x: nat)
    requires x > 0
    ensures And(x, x - 1) < x
    ensures And(x, x - 1) == 0 <==> PowerOf2(x)
    ensures forall p: nat | PowerOf2(p) && p < x < 2 * p :: p <= And(x, x - 1)
    decreases x
  {
    if x % 2 == 1 {
      AndSelf(x / 2);
      assert (x - 1) / 2 == x / 2 && (x - 1) % 2 == 0;
      assert x > 1 ==> And(x, x - 1) == x - 1;
    } else {
      LeastBitOff(x / 2);
      assert (x - 1) / 2 == x / 2 - 1;
      assert And(x, x - 1) == 2 * And(x / 2, x / 2 - 1);
      forall p: nat | PowerOf2(p) && p < x < 2 * p ensures p <= And(x, x - 1) {
        assert PowerOf2(p / 2) && p / 2 < x / 2 < 2 * (p / 2);
      }
    }
  }

  lemma {:induction false} HighestBit(x: nat) returns (p: nat)
    requires x > 0
    ensures PowerOf2(p) && p <= x < 2 * p
    decreases x
  {
    if x == 1 {
      p := 1;
    } else {
      var q := HighestBit(x / 2);
      p := 2 * q;
      assert p / 2 == q;
    }
  }

  /** The number of buckets rehash settles on. */
  method IdealBuckets(elemCnt: nat) returns (n: nat)
    ensures PowerOf2(n) && n >= 4
    ensures elemCnt < 4 * n && (n == 4 || 2 * n <= elemCnt)
  {
    n := elemCnt / 2;
    if n < 4 {
      n := 4;
    }
    ghost var m := n;
    ghost var p := HighestBit(n);
    FourIsPower();
    PowersApart(4, p);
    while And(n, n - 1) != 0
      invariant p <= n <= m && n >= 4
      decreases n
    {
      LeastBitOff(n);
      PowersApart(n, p);
      n := And(n, n - 1);
    }
    LeastBitOff(n);
    PowersApart(n, p);
  }

  lemma FourIsPower()
    ensures PowerOf2(4)
  {
    assert PowerOf2(1);
    assert PowerOf2(2);
  }

  lemma {:induction false} PowersApart(a: nat, p: nat)
    requires PowerOf2(p)
    ensures PowerOf2(a) && p <= a < 2 * p ==> a == p
    ensures a == 4 && a < 2 * p ==> p >= 4
    decreases p
  {
    if PowerOf2(a) && p <= a < 2 * p && p > 1 {
      PowersApart(a / 2, p / 2);
    }
    assert !PowerOf2(3);
  }

  // ---- buckets ----

  /** A comparison and a hash that agree: equal elements, those neither of which is less than the
      other, hash alike, and equality is an equivalence. */
  ghost predicate Agree<E(!new)>(hash: E -> nat, less: (E, E) -> bool) {
    && (forall x :: Equal(less, x, x))
    && (forall x, y :: Equal(less, x, y) ==> hash(x) == hash(y))
    && (forall x, y, z :: Equal(less, x, y) && Equal(less, y, z) ==> Equal(less, x, z))
  }

  predicate Equal<E>(less: (E, E) -> bool, x: E, y: E) {
    !less(x, y) && !less(y, x)
  }

  /** Where an element belongs: its hash, reduced to the number of buckets. */
  function Place<E>(hash: E -> nat, e: E, cnt: nat): (i: nat)
    requires cnt > 0
    ensures i < cnt
  {
    hash(e) % cnt
  }

  /** The buckets hold exactly `elems`, each in its place and once. */
  ghost predicate Holds<E(!new)>(buckets: seq<seq<E>>, hash: E -> nat, elems: set<E>) {
    && |buckets| > 0
    && (forall i, e | 0 <= i < |buckets| && e in buckets[i] :: e in elems && Place(hash, e, |buckets|) == i)
    && (forall e | e in elems :: e in buckets[Place(hash, e, |buckets|)])
    && (forall i | 0 <= i < |buckets| :: Distinct(buckets[i]))
  }

  ghost predicate NoTwoEqual<E(!new)>(less: (E, E) -> bool, elems: set<E>) {
    forall x, y | x in elems && y in elems && Equal(less, x, y) :: x == y
  }

  /** The element of the table equal to `e`, if there is one. */
  ghost predicate Finds<E(!new)>(less: (E, E) -> bool, elems: set<E>, e: E, r: Option<E>) {
    match r
    case Some(x) => x in elems && Equal(less, x, e)
    case None => forall x | x in elems :: !Equal(less, x, e)
  }

  lemma Pushed<E(!new)>(buckets: seq<seq<E>>, hash: E -> nat, elems: set<E>, e: E)
    requires Holds(buckets, hash, elems) && e !in elems
    ensures var i := Place(hash, e, |buckets|); Holds(buckets[i := [e] + buckets[i]], hash, elems + {e})
  {
    hide Place;
    var i := Place(hash, e, |buckets|);
    var r := buckets[i := [e] + buckets[i]];
    assert e in r[i];
    forall x | x in elems + {e} ensures x in r[Place(hash, x, |r|)] {
      if x != e {
        assert x in buckets[Place(hash, x, |buckets|)];
      }
    }
    assert forall j, x | 0 <= j < |r| && x in r[j] :: x == e || x in buckets[j];
  }

  lemma Removed<E(!new)>(buckets: seq<seq<E>>, hash: E -> nat, elems: set<E>, e: E)
    requires Holds(buckets, hash, elems) && e in elems
    ensures var i := Place(hash, e, |buckets|); Holds(buckets[i := Without(buckets[i], e)], hash, elems - {e})
  {
    hide Place;
    var i := Place(hash, e, |buckets|);
    WithoutElements(buckets[i], e);
    var r := buckets[i := Without(buckets[i], e)];
    forall x | x in elems - {e} ensures x in r[Place(hash, x, |r|)] {
      assert x in buckets[Place(hash, x, |buckets|)];
    }
    assert forall j, x | 0 <= j < |r| && x in r[j] :: x in buckets[j];
  }

  /** struct hash */
  class Hash<E(==,!new)> {
    const hash: E -> nat
    const less: (E, E) -> bool
    var elemCnt: nat
    var bucketCnt: nat
    var buckets: seq<seq<E>>
    ghost var elems: set<E>

    ghost predicate Valid()
      reads this
    {
      && Agree(hash, less)
      && |buckets| == bucketCnt >= 4 && PowerOf2(bucketCnt)
      && Holds(buckets, hash, elems)
      && elemCnt == |elems| && NoTwoEqual(less, elems)
    }

    /** hash_init, when memory is found for the buckets */
    constructor (hash: E -> nat, less: (E, E) -> bool)
      requires Agree(hash, less)
      ensures Valid() && elems == {} && this.hash == hash && this.less == less
    {
      this.hash := hash;
      this.less := less;
      elemCnt := 0;
      bucketCnt := 4;
      buckets := [[], [], [], []];
      elems := {};
      new;
      FourIsPower();
    }

    /** find_bucket */
    method FindBucket(e: E) returns (i: nat)
      requires bucketCnt > 0 && PowerOf2(bucketCnt)
      ensures i == Place(hash, e, bucketCnt)
    {
      MaskIsMod(hash(e), bucketCnt);
      i := And(hash(e), bucketCnt - 1);
    }

    /** find_elem */
    method FindElem(bucket: seq<E>, e: E) returns (r: Option<E>)
      ensures r.Some? ==> r.value in bucket && Equal(less, r.value, e)
      ensures r.None? ==> forall x | x in bucket :: !Equal(less, x, e)
    {
      for i := 0 to |bucket|
        invariant forall k | 0 <= k < i :: !Equal(less, bucket[k], e)
      {
        if !less(bucket[i], e) && !less(e, bucket[i]) {
          return Some(bucket[i]);
        }
      }
      return None;
    }

    /** hash_find */
    method Find(e: E) returns (r: Option<E>)
      requires Valid()
      ensures Finds(less, elems, e, r)
    {
      hide PowerOf2, Place;
      var i := FindBucket(e);
      r := FindElem(buckets[i], e);
      InOwnBucket(buckets, hash, less, elems, e, r);
    }

    /** insert_elem and remove_elem */
    method InsertElem(i: nat, e: E)
      requires Valid() && i == Place(hash, e, bucketCnt) && e !in elems && Finds(less, elems, e, None)
      modifies this
      ensures Valid() && elems == old(elems) + {e}
    {
      hide PowerOf2, Place, Holds;
      Pushed(buckets, hash, elems, e);
      StillNoTwoEqual(hash, less, elems, e);
      elemCnt := elemCnt + 1;
      buckets := buckets[i := [e] + buckets[i]];
      elems := elems + {e};
    }

    method RemoveElem(i: nat, e: E)
      requires Valid() && e in elems && i == Place(hash, e, bucketCnt)
      modifies this
      ensures Valid() && elems == old(elems) - {e} && bucketCnt == old(bucketCnt)
    {
      hide PowerOf2, Place, Holds;
      Removed(buckets, hash, elems, e);
      elemCnt := elemCnt - 1;
      buckets := buckets[i := Without(buckets[i], e)];
      elems := elems - {e};
    }

    /** hash_insert: adds the element unless an equal one is there, which it returns. */
    method Insert(e: E, mem: bool) returns (old_: Option<E>)
      requires Valid()
      modifies this
      ensures Valid() && Finds(less, old(elems), e, old_)
      ensures elems == if old_.None? then old(elems) + {e} else old(elems)
      ensures mem ==> Balanced()
    {
      hide PowerOf2, Place, Holds, NoTwoEqual, Agree;
      var i := FindBucket(e);
      old_ := FindElem(buckets[i], e);
      InOwnBucket(buckets, hash, less, elems, e, old_);
      if old_ == None {
        NotEqualItself(hash, less, elems, e);
        InsertElem(i, e);
      }
      Rehash(mem);
    }

    /** hash_replace: puts the element in the place of an equal one, which it returns. */
    method Replace(e: E, mem: bool) returns (old_: Option<E>)
      requires Valid()
      modifies this
      ensures Valid() && Finds(less, old(elems), e, old_)
      ensures elems == (if old_.Some? then old(elems) - {old_.value} else old(elems)) + {e}
      ensures mem ==> Balanced()
    {
      hide PowerOf2, Place, Holds;
      var i := FindBucket(e);
      old_ := FindElem(buckets[i], e);
      InOwnBucket(buckets, hash, less, elems, e, old_);
      if old_.Some? {
        OthersDiffer(hash, less, elems, e, old_.value);
        RemoveElem(i, old_.value);
      }
      NotEqualItself(hash, less, elems, e);
      InsertElem(i, e);
      Rehash(mem);
    }

    /** hash_delete: takes out the element equal to `e`, if there is one. */
    method Delete(e: E, mem: bool) returns (found: Option<E>)
      requires Valid()
      modifies this
      ensures Valid() && Finds(less, old(elems), e, found)
      ensures elems == if found.Some? then old(elems) - {found.value} else old(elems)
      ensures mem && found.Some? ==> Balanced()
    {
      hide PowerOf2, Place, Holds, NoTwoEqual;
      var i := FindBucket(e);
      found := FindElem(buckets[i], e);
      InOwnBucket(buckets, hash, less, elems, e, found);
      if found.Some? {
        RemoveElem(i, found.value);
        Rehash(mem);
      }
    }

    /** The number of buckets suits the number of elements. */
    predicate Balanced()
      reads this
    {
      elemCnt < 4 * bucketCnt && (bucketCnt == 4 || 2 * bucketCnt <= elemCnt)
    }

    /** rehash: the same elements, in as many buckets as there should be if memory allows. */
    method Rehash(mem: bool)
      requires Valid()
      modifies `bucketCnt, `buckets
      ensures Valid() && elems == old(elems)
      ensures mem ==> Balanced()
    {
      hide PowerOf2, Place, Holds, NoTwoEqual, Agree;
      var newBucketCnt := IdealBuckets(elemCnt);
      if newBucketCnt == bucketCnt {
        return;
      }
      if !mem {
        return;
      }
      var oldBuckets, oldCnt := buckets, bucketCnt;
      buckets := seq(newBucketCnt, i => []);
      bucketCnt := newBucketCnt;
      EmptyHolds(buckets, hash);
      ghost var moved: set<E> := {};
      for i := 0 to oldCnt
        invariant bucketCnt == newBucketCnt == |buckets| && Holds(buckets, hash, moved)
        invariant Moved(oldBuckets, i, 0, moved)
      {
        NextBucket(oldBuckets, i, moved);
        for j := 0 to |oldBuckets[i]|
          invariant bucketCnt == newBucketCnt == |buckets| && Holds(buckets, hash, moved)
          invariant Moved(oldBuckets, i, j, moved)
        {
          var e := oldBuckets[i][j];
          var k := FindBucket(e);
          NotYetMoved(oldBuckets, hash, elems, i, j, moved);
          Pushed(buckets, hash, moved, e);
          MovedOne(oldBuckets, i, j, moved);
          buckets := buckets[k := [e] + buckets[k]];
          moved := moved + {e};
        }
        BucketDone(oldBuckets, i, moved);
      }
      AllMoved(oldBuckets, hash, elems, moved);
    }
  }

  lemma InOwnBucket<E(!new)>(buckets: seq<seq<E>>, hash: E -> nat, less: (E, E) -> bool, elems: set<E>,
                   e: E, r: Option<E>)
    requires Agree(hash, less) && Holds(buckets, hash, elems)
    requires var b := buckets[Place(hash, e, |buckets|)];
      if r.Some? then r.value in b && Equal(less, r.value, e) else forall x | x in b :: !Equal(less, x, e)
    ensures Finds(less, elems, e, r)
    ensures r.Some? ==> Place(hash, r.value, |buckets|) == Place(hash, e, |buckets|)
  {
  }

  lemma StillNoTwoEqual<E(!new)>(hash: E -> nat, less: (E, E) -> bool, elems: set<E>, e: E)
    requires Agree(hash, less) && NoTwoEqual(less, elems) && Finds(less, elems, e, None)
    ensures NoTwoEqual(less, elems + {e})
  {
    forall x, y | x in elems + {e} && y in elems + {e} && Equal(less, x, y) ensures x == y {
      assert Equal(less, y, x);
    }
  }

  lemma EqualChain<E(!new)>(hash: E -> nat, less: (E, E) -> bool, x: E, y: E, z: E)
    requires Agree(hash, less)
    ensures Equal(less, x, y) && Equal(less, y, z) ==> Equal(less, x, z)
  {
  }

  lemma OthersDiffer<E(!new)>(hash: E -> nat, less: (E, E) -> bool, elems: set<E>, e: E, x: E)
    requires Agree(hash, less) && NoTwoEqual(less, elems) && Finds(less, elems, e, Some(x))
    ensures Finds(less, elems - {x}, e, None)
  {
    assert Equal(less, e, x);
    forall y | y in elems - {x} ensures !Equal(less, y, e) {
      EqualChain(hash, less, y, e, x);
    }
  }

  lemma NotEqualItself<E(!new)>(hash: E -> nat, less: (E, E) -> bool, elems: set<E>, e: E)
    requires Agree(hash, less)
    ensures Finds(less, elems, e, None) ==> e !in elems
  {
    assert Equal(less, e, e);
  }

  // ---- rehash's two loops ----

  lemma EmptyHolds<E(!new)>(buckets: seq<seq<E>>, hash: E -> nat)
    requires |buckets| > 0 && forall i | 0 <= i < |buckets| :: buckets[i] == []
    ensures Holds(buckets, hash, {})
  {
  }

  /** The elements moved so far: those of the first `i` buckets, and the first `j` of the next. */
  ghost predicate Moved<E(!new)>(buckets: seq<seq<E>>, i: nat, j: nat, moved: set<E>) {
    && i <= |buckets| && (i == |buckets| ==> j == 0) && (i < |buckets| ==> j <= |buckets[i]|)
    && forall e :: e in moved <==> MovedAt(buckets, i, j, e)
  }

  ghost predicate MovedAt<E(!new)>(buckets: seq<seq<E>>, i: nat, j: nat, e: E)
    requires i <= |buckets| && (i < |buckets| ==> j <= |buckets[i]|)
  {
    (exists k :: 0 <= k < i && e in buckets[k]) || (i < |buckets| && e in buckets[i][..j])
  }

  lemma NextBucket<E(!new)>(buckets: seq<seq<E>>, i: nat, moved: set<E>)
    requires i < |buckets| && Moved(buckets, i, 0, moved)
    ensures forall e :: e in moved <==> exists k :: 0 <= k < i && e in buckets[k]
  {
  }

  lemma NotYetMoved<E(!new)>(buckets: seq<seq<E>>, hash: E -> nat, elems: set<E>, i: nat, j: nat, moved: set<E>)
    requires Holds(buckets, hash, elems) && i < |buckets| && j < |buckets[i]| && Moved(buckets, i, j, moved)
    ensures buckets[i][j] !in moved
  {
    hide Place;
    var e := buckets[i][j];
    assert e in buckets[i] && Distinct(buckets[i]);
    assert e !in buckets[i][..j];
    assert Place(hash, e, |buckets|) == i;
    assert forall k | 0 <= k < i :: e !in buckets[k];
  }

  lemma MovedOne<E(!new)>(buckets: seq<seq<E>>, i: nat, j: nat, moved: set<E>)
    requires i < |buckets| && j < |buckets[i]| && Moved(buckets, i, j, moved)
    ensures Moved(buckets, i, j + 1, moved + {buckets[i][j]})
  {
    assert buckets[i][..j + 1] == buckets[i][..j] + [buckets[i][j]];
  }

  lemma BucketDone<E(!new)>(buckets: seq<seq<E>>, i: nat, moved: set<E>)
    requires i < |buckets| && Moved(buckets, i, |buckets[i]|, moved)
    ensures Moved(buckets, i + 1, 0, moved)
  {
    assert buckets[i][..|buckets[i]|] == buckets[i];
    forall e ensures e in moved <==> MovedAt(buckets, i + 1, 0, e) {
      assert MovedAt(buckets, i, |buckets[i]|, e) ==> exists k :: 0 <= k < i + 1 && e in buckets[k];
    }
  }

  lemma AllMoved<E(!new)>(buckets: seq<seq<E>>, hash: E -> nat, elems: set<E>, moved: set<E>)
    requires Holds(buckets, hash, elems) && Moved(buckets, |buckets|, 0, moved)
    ensures moved == elems
  {
    hide Place;
    forall e ensures e in moved <==> e in elems {
      if e in elems {
        assert e in buckets[Place(hash, e, |buckets|)];
        assert MovedAt(buckets, |buckets|, 0, e);
      }
    }
  }

  // ---- iteration ----

  /** The elements from position `p` of bucket `b` on. */
  function Rest<E>(buckets: seq<seq<E>>, b: nat, p: nat): seq<E>
    requires b < |buckets| ==> p <= |buckets[b]|
    decreases |buckets| - b
  {
    if b >= |buckets| then [] else buckets[b][p..] + Rest(buckets, b + 1, 0)
  }

  /** struct hash_iterator, over buckets that do not change meanwhile */
  class Iterator<E(==,!new)> {
    const buckets: seq<seq<E>>
    var bucket: nat
    var next: nat

    ghost predicate Valid()
      reads this
    {
      |buckets| > 0 && bucket <= |buckets| && (bucket < |buckets| ==> next <= |buckets[bucket]|)
    }

    /** hash_first */
    constructor (buckets: seq<seq<E>>)
      requires |buckets| > 0
      ensures Valid() && this.buckets == buckets && bucket == 0 && next == 0
    {
      this.buckets := buckets;
      bucket, next := 0, 0;
    }

    /** hash_next: the next of the elements that are left, or none. */
    method Next() returns (e: Option<E>)
      requires Valid()
      modifies this`bucket, this`next
      ensures Valid()
      ensures Rest(buckets, old(bucket), old(next)) == (if e.Some? then [e.value] else []) + Rest(buckets, bucket, next)
      ensures e.None? ==> Rest(buckets, bucket, next) == []
    {
      if bucket == |buckets| {
        return None;
      }
      while next == |buckets[bucket]|
        invariant bucket < |buckets| && next <= |buckets[bucket]|
        invariant Rest(buckets, old(bucket), old(next)) == Rest(buckets, bucket, next)
        decreases |buckets| - bucket
      {
        bucket, next := bucket + 1, 0;
        if bucket >= |buckets| {
          return None;
        }
      }
      e := Some(buckets[bucket][next]);
      next := next + 1;
    }
  }

  /** An iteration meets every element of the table, and each once. */
  lemma {:induction false} RestHas<E(!new)>(buckets: seq<seq<E>>, hash: E -> nat, elems: set<E>, b: nat)
    requires Holds(buckets, hash, elems) && b <= |buckets|
    ensures forall e :: e in Rest(buckets, b, 0) <==> e in elems && Place(hash, e, |buckets|) >= b
    ensures Distinct(Rest(buckets, b, 0))
    decreases |buckets| - b
  {
    hide Place;
    if b < |buckets| {
      RestHas(buckets, hash, elems, b + 1);
      assert buckets[b][0..] == buckets[b];
      var rest := Rest(buckets, b + 1, 0);
      forall i, j | 0 <= i < |buckets[b]| && 0 <= j < |rest| ensures buckets[b][i] != rest[j] {
        assert buckets[b][i] in buckets[b] && rest[j] in rest;
      }
      DistinctConcat(buckets[b], rest);
    }
  }

  lemma IterationIsTable<E(!new)>(buckets: seq<seq<E>>, hash: E -> nat, elems: set<E>)
    requires Holds(buckets, hash, elems)
    ensures Distinct(Rest(buckets, 0, 0)) && forall e :: e in Rest(buckets, 0, 0) <==> e in elems
  {
    RestHas(buckets, hash, elems, 0);
  }
}
