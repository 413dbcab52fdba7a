/** Whole runs of the block allocator, the memory behind its blocks, and realloc. */
module MallocRuns {
  import opened Bytes
  import opened Nonlinear
  import opened Options
  import opened Sequences
  import opened Malloc

  // ---- live blocks ----

  /** block_size */
  function Size(h: Heap, b: nat): nat {
    if b / 4096 !in h.arenas then 0
    else match h.arenas[b / 4096]
      case Small(d, freeCnt) => if d < DESCS then BlockSize(d) else 0
      case Big(pages) => if pages > 0 then 4096 * pages - b % 4096 else 0
  }

  lemma LiveSize(h: Heap, b: nat)
    requires Inv(h) && b in h.live
    ensures b % 4 == 0
    ensures h.live[b] + 12 <= 0x1_0000_0000 ==> h.live[b] <= Size(h, b)
    ensures b / 4096 in h.arenas && b + Size(h, b) <= 4096 * (b / 4096 + Pages(h.arenas[b / 4096])) && Size(h, b) > 0
  {
    hide Settled, FreeIndexes, ListOk, Apart, AtBlock, BlockSize, BlocksPerArena, BlockAt;
    assert LiveOk(h.arenas, b, h.live[b]);
    var p := b / 4096;
    assert ArenaOk(h, p, h.arenas[p]);
    match h.arenas[p] {
      case Small(d, freeCnt) => SmallPlace(b, d);
      case Big(pages) => BigPlace(b, p);
    }
  }

  lemma BigPlace(b: nat, p: nat)
    requires b == 4096 * p + 12
    ensures b % 4 == 0 && b % 4096 == 12
  {
    assert b / 4096 == p;
    var q := 1024 * p + 3;
    assert b == 4 * q;
  }

  lemma SmallPlace(b: nat, d: nat)
    requires d < DESCS && AtBlock(b, d)
    ensures b % 4 == 0 && b + BlockSize(d) <= 4096 * (b / 4096 + 1)
  {
    hide BlockAt, BlockSize, BlocksPerArena, IndexOf;
    var p, i := b / 4096, IndexOf(b, d);
    BlockPlace(p, d, i);
    BlockAligned(p, d, i);
  }

  lemma BlockAligned(p: nat, d: nat, i: nat)
    requires d < DESCS && i < BlocksPerArena(d)
    ensures BlockAt(p, d, i) % 4 == 0
  {
    hide BlocksPerArena;
    var w := match d
      case 0 => 4
      case 1 => 8
      case 2 => 16
      case 3 => 32
      case 4 => 64
      case 5 => 128
      case 6 => 256;
    assert BlockSize(d) == 4 * w;
    MulAssoc(4, w, i);
    assert BlockAt(p, d, i) == 4 * (1024 * p + 3 + w * i);
    TimesFour(1024 * p + 3 + w * i);
  }

  lemma TimesFour(x: int)
    ensures 4 * x % 4 == 0
  {
  }

  /** Blocks in use do not overlap. */
  lemma LiveApart(h: Heap, b: nat, c: nat)
    requires Inv(h) && b in h.live && c in h.live && b != c
    ensures b + Size(h, b) <= c || c + Size(h, c) <= b
  {
    hide Settled, FreeIndexes, ListOk, ArenaOk, AtBlock, BlockSize, BlocksPerArena, BlockAt;
    LiveSize(h, b);
    LiveSize(h, c);
    if b / 4096 == c / 4096 {
      SamePage(h, b, c);
    } else {
      OtherPage(h, b, c);
    }
  }

  lemma SamePage(h: Heap, b: nat, c: nat)
    requires Inv(h) && b in h.live && c in h.live && b != c && b / 4096 == c / 4096
    ensures b + Size(h, b) <= c || c + Size(h, c) <= b
  {
    hide Settled, FreeIndexes, ListOk, ArenaOk, BlockSize, BlocksPerArena, BlockAt, IndexOf, Apart;
    var p := b / 4096;
    assert LiveOk(h.arenas, b, h.live[b]) && LiveOk(h.arenas, c, h.live[c]);
    if h.arenas[p].Small? {
      var d := h.arenas[p].d;
      BlocksApart(p, p, d, d, IndexOf(b, d), IndexOf(c, d));
    }
  }

  lemma OtherPage(h: Heap, b: nat, c: nat)
    requires Apart(h.arenas) && b / 4096 in h.arenas && c / 4096 in h.arenas && b / 4096 != c / 4096
    requires b + Size(h, b) <= 4096 * (b / 4096 + Pages(h.arenas[b / 4096]))
    requires c + Size(h, c) <= 4096 * (c / 4096 + Pages(h.arenas[c / 4096]))
    ensures b + Size(h, b) <= c || c + Size(h, c) <= b
  {
    var p, q := b / 4096, c / 4096;
    assert 4096 * p <= b && 4096 * q <= c;
    if p < q {
      assert p + Pages(h.arenas[p]) <= q;
    } else {
      assert q + Pages(h.arenas[q]) <= p;
    }
  }

  // ---- runs ----

  datatype Event = EvMalloc(size: nat, page: Option<nat>) | EvFree(b: nat)

  /** The page allocator hands out only pages no one has; free is given a block in use. */
  ghost predicate Enabled(h: Heap, e: Event) {
    match e
    case EvMalloc(size, page) =>
      size < 0x1_0000_0000 && (page.Some? && Wanted(size) > 0 ==> Fresh(h.arenas, page.value, Wanted(size)))
    case EvFree(b) => b in h.live
  }

  ghost function Apply(h: Heap, e: Event): (r: Heap)
    requires Inv(h) && Enabled(h, e)
    ensures Inv(r)
  {
    SoundLists(h);
    match e
    case EvMalloc(size, page) => MallocKeeps(h, size, page); MallocCall(h, size, page).0
    case EvFree(b) => FreeKeeps(h, b); FreeCall(h, b)
  }

  ghost predicate Allowed(h: Heap, es: seq<Event>)
    requires Inv(h)
    decreases |es|
  {
    es == [] || (Enabled(h, es[0]) && Allowed(Apply(h, es[0]), es[1..]))
  }

  ghost function Run(h: Heap, es: seq<Event>): (r: Heap)
    requires Inv(h) && Allowed(h, es)
    ensures Inv(r)
    decreases |es|
  {
    if es == [] then h else Run(Apply(h, es[0]), es[1..])
  }

  /** After malloc_init. */
  function Start(): Heap {
    Heap(map[], [[], [], [], [], [], [], []], map[])
  }

  lemma StartInv()
    ensures Inv(Start())
  {
  }

  /** Between calls, in every run: each arena's count is the number of its blocks on its free
      list, at least one of its blocks is in use, and blocks in use are aligned, big enough and
      do not overlap. */
  lemma BooksBalance(es: seq<Event>)
    requires Inv(Start()) && Allowed(Start(), es)
    ensures var h := Run(Start(), es);
      && (forall p | p in h.arenas && h.arenas[p].Small? :: var d := h.arenas[p].d;
            d < DESCS && |h.free| == DESCS && h.arenas[p].freeCnt == |FreeIndexes(h.free[d], p, d)| < BlocksPerArena(d))
      && (forall b | b in h.live :: b % 4 == 0 && (h.live[b] + 12 <= 0x1_0000_0000 ==> h.live[b] <= Size(h, b)))
      && (forall b, c | b in h.live && c in h.live && b != c :: b + Size(h, b) <= c || c + Size(h, c) <= b)
  {
    hide Run, Allowed, Size, FreeIndexes, BlocksPerArena, LiveOk, Settled, ListOk, Apart;
    var h := Run(Start(), es);
    forall p | p in h.arenas && h.arenas[p].Small?
      ensures var d := h.arenas[p].d;
        d < DESCS && |h.free| == DESCS && h.arenas[p].freeCnt == |FreeIndexes(h.free[d], p, d)| < BlocksPerArena(d)
    {
      assert ArenaOk(h, p, h.arenas[p]);
    }
    forall b | b in h.live ensures b % 4 == 0 && (h.live[b] + 12 <= 0x1_0000_0000 ==> h.live[b] <= Size(h, b)) {
      LiveSize(h, b);
    }
    forall b, c | b in h.live && c in h.live && b != c ensures b + Size(h, b) <= c || c + Size(h, c) <= b {
      LiveApart(h, b, c);
    }
  }

  // ---- memory, and realloc ----

  ghost predicate InUse(h: Heap, a: nat) {
    exists b :: b in h.live && b <= a < b + Size(h, b)
  }

  /** The allocator's own writes: it may put anything (arena headers, list links, 0xcc) where no
      block is in use. */
  ghost function Scribble(mem: seq<Byte>, h: Heap, noise: seq<Byte>): (r: seq<Byte>)
    requires |noise| == |mem|
    ensures |r| == |mem| && forall a: nat | a < |mem| && InUse(h, a) :: r[a] == mem[a]
  {
    seq(|mem|, a requires 0 <= a < |mem| => if InUse(h, a) then mem[a] else noise[a])
  }

  /** memcpy */
  function Copied(mem: seq<Byte>, to: nat, from: nat, n: nat): (r: seq<Byte>)
    requires to + n <= |mem| && from + n <= |mem|
    ensures |r| == |mem|
    ensures forall a: nat | a < |mem| :: r[a] == if to <= a < to + n then mem[from + (a - to)] else mem[a]
  {
    mem[..to] + mem[from..from + n] + mem[to + n..]
  }

  ghost predicate InMemory(h: Heap, n: nat) {
    forall b | b in h.live :: b + Size(h, b) <= n
  }

  /** realloc of a block in use, or of a null pointer; `page` for malloc, and what the allocator
      leaves in memory that is not in use. */
  ghost function Realloc(h: Heap, mem: seq<Byte>, old_: Option<nat>, newSize: nat, page: Option<nat>,
                         noise: seq<Byte>, noise': seq<Byte>): (Heap, seq<Byte>, Option<nat>)
    requires Inv(h) && InMemory(h, |mem|) && |noise| == |noise'| == |mem|
    requires old_.Some? ==> old_.value in h.live
    requires newSize > 0 ==> Enabled(h, EvMalloc(newSize, page))
    requires newSize > 0 ==> InMemory(Apply(h, EvMalloc(newSize, page)), |mem|)
    requires newSize + 12 <= 0x1_0000_0000
  {
    if newSize == 0 then
      var h1 := if old_.None? then h else Apply(h, EvFree(old_.value));
      (h1, Scribble(mem, h1, noise), None)
    else
      SoundLists(h);
      MallocKeeps(h, newSize, page);
      var (h1, b) := MallocCall(h, newSize, page);
      var mem1 := Scribble(mem, h, noise);
      if old_.None? || b.None? then (h1, mem1, b)
      else
        Room(h1, |mem|, b.value, old_.value, newSize);
        var mem2 := Copied(mem1, b.value, old_.value, Min(newSize, Size(h1, old_.value)));
        var h2 := Apply(h1, EvFree(old_.value));
        (h2, Scribble(mem2, h2, noise'), b)
  }

  lemma Room(h: Heap, n: nat, b: nat, c: nat, size: nat)
    requires Inv(h) && InMemory(h, n) && b in h.live && c in h.live && h.live[b] == size && size + 12 <= 0x1_0000_0000
    ensures b + Min(size, Size(h, c)) <= n && c + Min(size, Size(h, c)) <= n && size <= Size(h, b)
  {
    hide Inv;
    LiveSize(h, b);
  }

  /** A call leaves every block's size alone, except the one freed. */
  lemma SameSize(h: Heap, e: Event, c: nat)
    requires Inv(h) && Enabled(h, e) && c in h.live && c in Apply(h, e).live
    ensures Size(Apply(h, e), c) == Size(h, c)
  {
    hide BlockSize, BlocksPerArena, BlockAt, Settled, FreeIndexes, Apart, AtBlock;
    match e {
      case EvMalloc(size, page) => MallocSame(h, size, page, c);
      case EvFree(b) => FreeSame(h, b, c);
    }
  }

  lemma MallocSame(h: Heap, size: nat, page: Option<nat>, c: nat)
    requires Inv(h) && Enabled(h, EvMalloc(size, page)) && c in h.live
    ensures Size(Apply(h, EvMalloc(size, page)), c) == Size(h, c)
  {
    hide Sound, Take, AddBlocks, BlockSize, BlocksPerArena, PageCnt;
    SoundLists(h);
    HeadsAreSmall(h);
    LiveArena(h, c);
    var d := DescFor(0, size);
    if size > 0 && d == DESCS {
      if page.Some? && PageCnt(size) > 0 {
        NotThereBig(h, page.value, PageCnt(size));
      }
    } else if size > 0 {
      if h.free[d] != [] {
        TakeKeeps(h, d, size);
        TakeSame(h, d, size);
      } else if page.Some? {
        NewArenaKeeps(h, page.value, d);
        NotThere(h, page.value);
        TakeKeeps(NewArena(h, page.value, d), d, size);
        SoundLists(NewArena(h, page.value, d));
        TakeSame(NewArena(h, page.value, d), d, size);
      }
    }
  }

  lemma TakeSame(h: Heap, d: nat, size: nat)
    requires |h.free| == DESCS && d < DESCS && h.free[d] != [] && IsSmall(h.arenas, h.free[d][0] / 4096, d)
    ensures forall c :: Size(Take(h, d, size), c) == Size(h, c)
  {
    hide BlockSize;
  }

  lemma FreeSame(h: Heap, b: nat, c: nat)
    requires Inv(h) && b in h.live && c in h.live && c != b && c in Apply(h, EvFree(b)).live
    ensures Size(Apply(h, EvFree(b)), c) == Size(h, c)
  {
    hide Settled, FreeIndexes, BlockSize, BlocksPerArena, BlockAt, Apart, IndexOf, ListOk, DropBlocks;
    FreeKeeps(h, b);
    LiveArena(h, b);
    LiveArena(h, c);
    var r := Apply(h, EvFree(b));
    LiveArena(r, c);
  }

  lemma InvLists(h: Heap)
    requires Inv(h)
    ensures |h.free| == DESCS
    ensures forall d: nat | d < DESCS && h.free[d] != [] ::
      h.free[d][0] / 4096 in h.arenas && h.arenas[h.free[d][0] / 4096].Small?
  {
    SoundLists(h);
    HeadsAreSmall(h);
  }

  /** `n` bytes of `m` from `a` are those of `m'` from `b`. */
  predicate SameBytes(m: seq<Byte>, a: nat, m': seq<Byte>, b: nat, n: nat) {
    a + n <= |m| && b + n <= |m'| && m[a..a + n] == m'[b..b + n]
  }

  lemma ScribbleKeeps(mem: seq<Byte>, h: Heap, noise: seq<Byte>, b: nat, n: nat)
    requires |noise| == |mem| && b in h.live && n <= Size(h, b) && b + n <= |mem|
    ensures SameBytes(mem, b, Scribble(mem, h, noise), b, n)
  {
    hide Size;
    var r := Scribble(mem, h, noise);
    var was, now := mem[b..b + n], r[b..b + n];
    forall i | 0 <= i < n ensures now[i] == was[i] {
      assert InUse(h, b + i);
    }
  }

  lemma CopyMoves(mem: seq<Byte>, to: nat, from: nat, n: nat)
    requires to + n <= |mem| && from + n <= |mem|
    ensures SameBytes(mem, from, Copied(mem, to, from, n), to, n)
  {
    var r := Copied(mem, to, from, n);
    assert r[to..to + n] == mem[from..from + n];
  }

  lemma CopyKeeps(mem: seq<Byte>, to: nat, from: nat, n: nat, c: nat, k: nat)
    requires to + n <= |mem| && from + n <= |mem| && c + k <= |mem| && (to + n <= c || c + k <= to)
    ensures SameBytes(mem, c, Copied(mem, to, from, n), c, k)
  {
    var r := Copied(mem, to, from, n);
    assert r[c..c + k] == mem[c..c + k];
  }

  /** The steps of a realloc that gets its new block `b`. */
  lemma MovedBlock(h: Heap, mem: seq<Byte>, old_: nat, newSize: nat, page: Option<nat>,
                   noise: seq<Byte>, noise': seq<Byte>, b: nat)
    requires Inv(h) && InMemory(h, |mem|) && |noise| == |noise'| == |mem|
    requires old_ in h.live && 0 < newSize && newSize + 12 <= 0x1_0000_0000
    requires Enabled(h, EvMalloc(newSize, page)) && InMemory(Apply(h, EvMalloc(newSize, page)), |mem|)
    requires b !in h.live && Apply(h, EvMalloc(newSize, page)).live == h.live[b := newSize]
    ensures var h1 := Apply(h, EvMalloc(newSize, page)); var h2 := Apply(h1, EvFree(old_));
      && h2.live == h.live[b := newSize] - {old_} && newSize <= Size(h2, b) && Size(h1, old_) == Size(h, old_)
      && b + Min(newSize, Size(h, old_)) <= |mem| && old_ + Min(newSize, Size(h, old_)) <= |mem|
      && var mem2 := Copied(Scribble(mem, h, noise), b, old_, Min(newSize, Size(h, old_)));
         var mem' := Scribble(mem2, h2, noise');
         && SameBytes(mem, old_, mem', b, Min(newSize, Size(h, old_)))
         && (forall c | c in h.live && c != old_ :: SameBytes(mem, c, mem', c, Size(h, c)))
  {
    hide Inv, Size, InUse, Apply, Sound, Scribble, Copied, SameBytes;
    var h1 := Apply(h, EvMalloc(newSize, page));
    var h2 := Apply(h1, EvFree(old_));
    FreedLive(h1, old_);
    SameSize(h, EvMalloc(newSize, page), old_);
    Room(h1, |mem|, b, old_, newSize);
    SameSize(h1, EvFree(old_), b);
    var n := Min(newSize, Size(h, old_));
    MovedBytes(h, h2, mem, old_, b, n, noise, noise');
    forall c | c in h.live && c != old_
      ensures SameBytes(mem, c, Scribble(Copied(Scribble(mem, h, noise), b, old_, n), h2, noise'), c, Size(h, c))
    {
      SameSize(h, EvMalloc(newSize, page), c);
      SameSize(h1, EvFree(old_), c);
      LiveApart(h1, b, c);
      OtherBytes(h, h2, mem, old_, b, n, noise, noise', c);
    }
  }

  lemma MovedBytes(h: Heap, h2: Heap, mem: seq<Byte>, old_: nat, b: nat, n: nat, noise: seq<Byte>, noise': seq<Byte>)
    requires |noise| == |noise'| == |mem| && b + n <= |mem| && old_ + n <= |mem|
    requires old_ in h.live && n <= Size(h, old_) && b in h2.live && n <= Size(h2, b)
    ensures SameBytes(mem, old_, Scribble(Copied(Scribble(mem, h, noise), b, old_, n), h2, noise'), b, n)
  {
    hide Size, Scribble, Copied;
    var mem1 := Scribble(mem, h, noise);
    ScribbleKeeps(mem, h, noise, old_, n);
    CopyMoves(mem1, b, old_, n);
    ScribbleKeeps(Copied(mem1, b, old_, n), h2, noise', b, n);
  }

  lemma OtherBytes(h: Heap, h2: Heap, mem: seq<Byte>, old_: nat, b: nat, n: nat, noise: seq<Byte>, noise': seq<Byte>,
                   c: nat)
    requires |noise| == |noise'| == |mem| && b + n <= |mem| && old_ + n <= |mem|
    requires c in h.live && c in h2.live && Size(h2, c) == Size(h, c) && c + Size(h, c) <= |mem|
    requires b + n <= c || c + Size(h, c) <= b
    ensures SameBytes(mem, c, Scribble(Copied(Scribble(mem, h, noise), b, old_, n), h2, noise'), c, Size(h, c))
  {
    hide Size, Scribble, Copied;
    var mem1 := Scribble(mem, h, noise);
    ScribbleKeeps(mem, h, noise, c, Size(h, c));
    CopyKeeps(mem1, b, old_, n, c, Size(h, c));
    ScribbleKeeps(Copied(mem1, b, old_, n), h2, noise', c, Size(h, c));
  }

  lemma MallocIs(h: Heap, size: nat, page: Option<nat>)
    requires Inv(h) && Enabled(h, EvMalloc(size, page))
    ensures |h.free| == DESCS
    ensures forall d: nat | d < DESCS && h.free[d] != [] ::
      h.free[d][0] / 4096 in h.arenas && h.arenas[h.free[d][0] / 4096].Small?
    ensures Apply(h, EvMalloc(size, page)) == MallocCall(h, size, page).0
  {
    hide Inv;
    InvLists(h);
  }

  lemma FreedLive(h: Heap, b: nat)
    requires Inv(h) && b in h.live
    ensures Apply(h, EvFree(b)).live == h.live - {b}
  {
    hide Inv;
    FreeKeeps(h, b);
  }

  /** realloc keeps what was in the block: if it returns a block, that block holds the first
      min(old, new) bytes of the old one, which is no longer in use, and every other block's
      contents are untouched; if it fails, nothing that was in use has changed. A new size of 0
      frees the block. */
  lemma ReallocKeepsBytes(h: Heap, mem: seq<Byte>, old_: nat, newSize: nat, page: Option<nat>,
                          noise: seq<Byte>, noise': seq<Byte>)
    requires Inv(h) && InMemory(h, |mem|) && |noise| == |noise'| == |mem|
    requires old_ in h.live && newSize + 12 <= 0x1_0000_0000
    requires newSize > 0 ==> Enabled(h, EvMalloc(newSize, page)) && InMemory(Apply(h, EvMalloc(newSize, page)), |mem|)
    ensures var (r, mem', b) := Realloc(h, mem, Some(old_), newSize, page, noise, noise');
      && Inv(r) && |mem'| == |mem| && (newSize == 0 ==> b.None? && r.live == h.live - {old_})
      && |h.free| == DESCS && (b.None? <==> Refused(h, newSize, page))
      && (b.None? && newSize > 0 ==> r == h && SameBytes(mem, old_, mem', old_, Size(h, old_)))
      && (b.Some? ==>
            && r.live == h.live[b.value := newSize] - {old_} && b.value !in h.live && newSize <= Size(r, b.value)
            && SameBytes(mem, old_, mem', b.value, Min(newSize, Size(h, old_))))
      && (forall c | c in h.live && c != old_ :: SameBytes(mem, c, mem', c, Size(h, c)))
  {
    hide Inv, Size, InUse, Scribble, Copied, MallocCall, SameBytes, Sound, Suits, IsBig;
    InvLists(h);
    if newSize == 0 {
      FreedBytes(h, mem, old_, noise);
    } else {
      MallocIs(h, newSize, page);
      MallocKeeps(h, newSize, page);
      MallocOutcome(h, newSize, page);
      var (h1, b) := MallocCall(h, newSize, page);
      if b.Some? {
        MovedBlock(h, mem, old_, newSize, page, noise, noise', b.value);
      } else {
        forall c | c in h.live ensures SameBytes(mem, c, Scribble(mem, h, noise), c, Size(h, c)) {
          ScribbleKeeps(mem, h, noise, c, Size(h, c));
        }
      }
    }
  }

  lemma FreedBytes(h: Heap, mem: seq<Byte>, old_: nat, noise: seq<Byte>)
    requires Inv(h) && InMemory(h, |mem|) && |noise| == |mem| && old_ in h.live
    ensures var h1 := Apply(h, EvFree(old_));
      && h1.live == h.live - {old_}
      && forall c | c in h.live && c != old_ :: SameBytes(mem, c, Scribble(mem, h1, noise), c, Size(h, c))
  {
    hide Inv, Size, InUse, Scribble, Apply, SameBytes, Sound;
    FreedLive(h, old_);
    var h1 := Apply(h, EvFree(old_));
    forall c | c in h.live && c != old_ ensures SameBytes(mem, c, Scribble(mem, h1, noise), c, Size(h, c)) {
      SameSize(h, EvFree(old_), c);
      ScribbleKeeps(mem, h1, noise, c, Size(h, c));
    }
  }

  // ---- the calls as they are written ----

  /** The allocator's static variables: the descriptors' free lists, and the arenas' headers,
      found by page. */
  class Allocator {
    var arenas: map<nat, Arena>
    var free: seq<seq<nat>>
    ghost var live: map<nat, nat>

    ghost function View(): Heap
      reads this
    {
      Heap(arenas, free, live)
    }

    /** A new arena, all of whose blocks join the free list. */
    method AddArena(p: nat, d: nat)
      requires |free| == DESCS && d < DESCS
      modifies `arenas, `free
      ensures View() == NewArena(old(View()), p, d)
    {
      hide BlockSize, BlocksPerArena, BlockAt;
      arenas := arenas[p := Small(d, BlocksPerArena(d))];
      var list := free[d];
      for i := 0 to BlocksPerArena(d)
        invariant list == AddBlocks(old(free[d]), p, d, i) && free == old(free)
        invariant arenas == old(arenas)[p := Small(d, BlocksPerArena(d))]
      {
        list := list + [BlockAt(p, d, i)];
      }
      free := free[d := list];
    }

    method PopBlock(d: nat, ghost size: nat) returns (b: nat)
      requires |free| == DESCS && d < DESCS && free[d] != [] && IsSmall(arenas, free[d][0] / 4096, d)
      requires arenas[free[d][0] / 4096].freeCnt > 0
      modifies this
      ensures View() == Take(old(View()), d, size) && b == old(free[d][0])
    {
      hide BlockSize, BlocksPerArena, BlockAt;
      b := free[d][0];
      free := free[d := free[d][1..]];
      var a := b / 4096;
      arenas := arenas[a := Small(arenas[a].d, arenas[a].freeCnt - 1)];
      live := live[b := size];
    }

    /** malloc */
    method MallocBlock(size: nat, page: Option<nat>) returns (b: Option<nat>)
      requires Inv(View()) && Enabled(View(), EvMalloc(size, page))
      modifies this
      ensures Inv(View()) && View() == Apply(old(View()), EvMalloc(size, page))
      ensures if b.Some? then b.value !in old(live) && live == old(live)[b.value := size] && size > 0
              else View() == old(View())
      ensures |old(free)| == DESCS && (b.None? <==> Refused(old(View()), size, page))
      ensures b.Some? ==> Gives(old(View()), size, page, View(), b.value)
    {
      hide Inv, Sound, Apply, BlockSize, BlocksPerArena, BlockAt, Take, NewArena, IsSmall, Refused, Gives;
      ghost var h := View();
      MallocIs(h, size, page);
      MallocKeeps(h, size, page);
      MallocOutcome(h, size, page);
      if size == 0 {
        return None;
      }
      var d := FindDesc(size);
      if d == DESCS {
        var pageCnt := PageCnt(size);
        if pageCnt == 0 || page == None {
          return None;
        }
        arenas := arenas[page.value := Big(pageCnt)];
        live := live[4096 * page.value + 12 := size];
        return Some(4096 * page.value + 12);
      }
      if free[d] == [] {
        if page == None {
          return None;
        }
        ArenaAdded(h, page.value, d);
        AddArena(page.value, d);
      } else {
        InvHead(h, d);
      }
      var block := PopBlock(d, size);
      b := Some(block);
    }

    method FindDesc(size: nat) returns (d: nat)
      ensures d == DescFor(0, size)
    {
      hide BlockSize;
      d := 0;
      while d < DESCS && BlockSize(d) < size
        invariant d <= DESCS && DescFor(0, size) == DescFor(d, size)
      {
        d := d + 1;
      }
    }

    /** Taking an arena's blocks off the free list, for palloc_free_page. */
    method RemoveArena(p: nat, d: nat)
      requires |free| == DESCS && d < DESCS
      modifies `arenas, `free
      ensures View() == DropArena(old(View()), p, d)
    {
      hide BlockSize, BlocksPerArena, BlockAt;
      var list := free[d];
      for i := 0 to BlocksPerArena(d)
        invariant list == DropBlocks(old(free[d]), p, d, i) && free == old(free) && arenas == old(arenas)
      {
        list := Without(list, BlockAt(p, d, i));
      }
      free := free[d := list];
      arenas := arenas - {p};
    }

    /** free of a block in use */
    method FreeBlock(b: nat)
      requires Inv(View()) && b in live
      modifies this
      ensures Inv(View()) && View() == Apply(old(View()), EvFree(b)) && live == old(live) - {b}
    {
      hide Inv, Sound, Apply, BlockSize, BlocksPerArena, BlockAt, DropArena, AtBlock, FreeIndexes;
      ghost var h := View();
      FreeIs(h, b);
      var p := b / 4096;
      match arenas[p] {
        case Big(pages) =>
          arenas := arenas - {p};
          live := live - {b};
        case Small(d, freeCnt) =>
          free := free[d := [b] + free[d]];
          arenas := arenas[p := Small(d, freeCnt + 1)];
          live := live - {b};
          assert View() == Give(h, b, d);
          if freeCnt + 1 >= BlocksPerArena(d) {
            RemoveArena(p, d);
          }
      }
    }
  }

  lemma FreeIs(h: Heap, b: nat)
    requires Inv(h) && b in h.live
    ensures |h.free| == DESCS && b / 4096 in h.arenas && (h.arenas[b / 4096].Small? ==> h.arenas[b / 4096].d < DESCS)
    ensures Inv(Apply(h, EvFree(b))) && Apply(h, EvFree(b)) == FreeCall(h, b) && FreeCall(h, b).live == h.live - {b}
  {
    InvLists(h);
    LiveArena(h, b);
    FreeKeeps(h, b);
  }

  lemma ArenaAdded(h: Heap, p: nat, d: nat)
    requires Inv(h) && d < DESCS && Fresh(h.arenas, p, 1) && |h.free| == DESCS && h.free[d] == []
    ensures var r := NewArena(h, p, d);
      && |r.free| == DESCS && r.free[d] != [] && IsSmall(r.arenas, r.free[d][0] / 4096, d)
      && r.arenas[r.free[d][0] / 4096].freeCnt > 0
  {
    hide Sound, NewArena;
    NewArenaKeeps(h, p, d);
    SoundLists(NewArena(h, p, d));
    IndexesNonEmpty(NewArena(h, p, d), d);
  }

  lemma InvHead(h: Heap, d: nat)
    requires Inv(h) && d < DESCS && |h.free| == DESCS && h.free[d] != []
    ensures IsSmall(h.arenas, h.free[d][0] / 4096, d) && h.arenas[h.free[d][0] / 4096].freeCnt > 0
  {
    hide Sound;
    IndexesNonEmpty(h, d);
  }

  lemma IndexesNonEmpty(h: Heap, d: nat)
    requires Sound(h) && d < DESCS && |h.free| == DESCS && h.free[d] != []
    ensures IsSmall(h.arenas, h.free[d][0] / 4096, d) && h.arenas[h.free[d][0] / 4096].freeCnt > 0
  {
    hide FreeIndexes, Sound, BlockSize, BlocksPerArena, BlockAt, IndexOf;
    HeadIsFree(h, d);
    var list, p := h.free[d], h.free[d][0] / 4096;
    assert FreeIndexes(list, p, d) != {};
  }

  // ---- calloc's test for overflow ----

  /** The size calloc passes on to malloc, or nothing if its test fails. */
  function CallocSize(a: nat, b: nat): Option<nat> {
    var size := a * b % 0x1_0000_0000;
    if size < a || size < b then None else Some(size)
  }

  /** calloc asks malloc for the product exactly when it fits in 32 bits, and both factors are 0 or
      neither is. The test refuses products of 0 and another number, and lets others pass that do not
      fit: 65537 times 65537 comes to a block of 131073 bytes. */
  lemma CallocTestMisses(a: nat, b: nat)
    requires a < 0x1_0000_0000 && b < 0x1_0000_0000
    ensures CallocSize(a, b) == Some(a * b) <==> a * b < 0x1_0000_0000 && (a == 0 <==> b == 0)
    ensures CallocSize(a, b).Some? ==> (CallocSize(a, b).value == a * b <==> a * b < 0x1_0000_0000)
    ensures a * b < 0x1_0000_0000 ==> (CallocSize(a, b).None? <==> (a == 0) != (b == 0))
    ensures CallocSize(65537, 65537) == Some(131073)
  {
    InWord(a * b);
    if a > 0 && b > 0 {
      MulMonotone(1, b, a);
      MulMonotone(1, a, b);
    }
  }

  lemma InWord(x: nat)
    ensures x % 0x1_0000_0000 == x <==> x < 0x1_0000_0000
  {
  }

  // ---- calloc ----

  /** memset to 0 */
  function Zeroed(mem: seq<Byte>, at: nat, n: nat): (r: seq<Byte>)
    requires at + n <= |mem|
    ensures |r| == |mem|
    ensures forall a: nat | a < |mem| :: r[a] == if at <= a < at + n then 0 else mem[a]
  {
    mem[..at] + seq(n, i => 0) + mem[at + n..]
  }

  /** What malloc asks of its page for `size` bytes, in a memory of `n` bytes. */
  ghost predicate CanAsk(h: Heap, n: nat, size: nat, page: Option<nat>)
    requires Inv(h)
  {
    && size + 12 <= 0x1_0000_0000 && Enabled(h, EvMalloc(size, page))
    && InMemory(Apply(h, EvMalloc(size, page)), n)
  }

  /** calloc; the other arguments as for realloc. */
  ghost function Calloc(h: Heap, mem: seq<Byte>, n: nat, size: nat, page: Option<nat>, noise: seq<Byte>)
    : (Heap, seq<Byte>, Option<nat>)
    requires Inv(h) && InMemory(h, |mem|) && |noise| == |mem|
    requires CallocSize(n, size).Some? ==> CanAsk(h, |mem|, CallocSize(n, size).value, page)
  {
    if CallocSize(n, size).None? then (h, mem, None)
    else
      var bytes := CallocSize(n, size).value;
      MallocIs(h, bytes, page);
      MallocKeeps(h, bytes, page);
      var (r, b) := MallocCall(h, bytes, page);
      var mem1 := Scribble(mem, h, noise);
      if b.None? then (r, mem1, None)
      else
        RoomFor(r, |mem|, b.value);
        (r, Zeroed(mem1, b.value, bytes), b)
  }

  lemma RoomFor(h: Heap, n: nat, b: nat)
    requires Inv(h) && InMemory(h, n) && b in h.live && h.live[b] + 12 <= 0x1_0000_0000
    ensures h.live[b] <= Size(h, b) && b + h.live[b] <= n
  {
    hide Inv;
    LiveSize(h, b);
  }

  /** calloc returns a new block with room for the product, as 32 bits hold it, every byte of it zero, and
      changes no byte of a block in use; it returns none, and changes nothing, exactly if its test fails
      or malloc has nothing to give. */
  lemma CallocZeroes(h: Heap, mem: seq<Byte>, n: nat, size: nat, page: Option<nat>, noise: seq<Byte>)
    requires Inv(h) && InMemory(h, |mem|) && |noise| == |mem| && n < 0x1_0000_0000 && size < 0x1_0000_0000
    requires CallocSize(n, size).Some? ==> CanAsk(h, |mem|, CallocSize(n, size).value, page)
    ensures var (r, mem', b) := Calloc(h, mem, n, size, page, noise);
      && Inv(r) && |mem'| == |mem| && |h.free| == DESCS
      && (b.None? <==> CallocSize(n, size).None? || Refused(h, n * size % 0x1_0000_0000, page))
      && (b.None? ==> r == h)
      && (b.Some? ==> ZeroBlock(h, r, mem', b.value, n * size % 0x1_0000_0000))
      && (forall c | c in h.live :: SameBytes(mem, c, mem', c, Size(h, c)))
  {
    hide Inv, Size, InUse, Scribble, Zeroed, MallocCall, SameBytes, Sound, Refused, Gives, Suits, IsBig;
    InvLists(h);
    CallocTestMisses(n, size);
    if CallocSize(n, size).None? {
      forall c | c in h.live ensures SameBytes(mem, c, mem, c, Size(h, c)) {
        Unchanged(mem, c, Size(h, c));
      }
    } else {
      CallocGives(h, mem, CallocSize(n, size).value, page, noise);
    }
  }

  lemma Unchanged(mem: seq<Byte>, c: nat, n: nat)
    requires c + n <= |mem|
    ensures SameBytes(mem, c, mem, c, n)
  {
  }

  /** Block `b`, in use from now on, is `n` bytes of zeros. */
  ghost predicate ZeroBlock(h: Heap, r: Heap, mem: seq<Byte>, b: nat, n: nat) {
    && b !in h.live && r.live == h.live[b := n] && n <= Size(r, b) && b + n <= |mem|
    && forall a: nat | b <= a < b + n :: mem[a] == 0
  }

  lemma CallocGives(h: Heap, mem: seq<Byte>, bytes: nat, page: Option<nat>, noise: seq<Byte>)
    requires Inv(h) && InMemory(h, |mem|) && |noise| == |mem| && CanAsk(h, |mem|, bytes, page)
    ensures |h.free| == DESCS
    ensures forall d: nat | d < DESCS && h.free[d] != [] ::
      h.free[d][0] / 4096 in h.arenas && h.arenas[h.free[d][0] / 4096].Small?
    ensures var (r, b) := MallocCall(h, bytes, page);
      var mem1 := Scribble(mem, h, noise);
      && Inv(r) && (b.None? <==> Refused(h, bytes, page))
      && (b.None? ==> r == h && forall c | c in h.live :: SameBytes(mem, c, mem1, c, Size(h, c)))
      && (b.Some? ==>
            && b.value + bytes <= |mem| && ZeroBlock(h, r, Zeroed(mem1, b.value, bytes), b.value, bytes)
            && forall c | c in h.live :: SameBytes(mem, c, Zeroed(mem1, b.value, bytes), c, Size(h, c)))
  {
    hide Inv, Size, InUse, Scribble, MallocCall, SameBytes, Sound, Refused, Gives, Suits, IsBig;
    MallocIs(h, bytes, page);
    MallocKeeps(h, bytes, page);
    MallocOutcome(h, bytes, page);
    var (r, b) := MallocCall(h, bytes, page);
    forall c | c in h.live ensures SameBytes(mem, c, Scribble(mem, h, noise), c, Size(h, c)) {
      ScribbleKeeps(mem, h, noise, c, Size(h, c));
    }
    if b.Some? {
      RoomFor(r, |mem|, b.value);
      forall c | c in h.live
        ensures SameBytes(mem, c, Zeroed(Scribble(mem, h, noise), b.value, bytes), c, Size(h, c))
      {
        SameSize(h, EvMalloc(bytes, page), c);
        LiveApart(r, b.value, c);
        ZeroKeeps(mem, Scribble(mem, h, noise), b.value, bytes, c, Size(h, c));
      }
    }
  }

  lemma ZeroKeeps(mem: seq<Byte>, mem1: seq<Byte>, at: nat, n: nat, c: nat, k: nat)
    requires |mem1| == |mem| && at + n <= |mem| && SameBytes(mem, c, mem1, c, k) && (at + n <= c || c + k <= at)
    ensures SameBytes(mem, c, Zeroed(mem1, at, n), c, k)
  {
    var r := Zeroed(mem1, at, n);
    assert r[c..c + k] == mem1[c..c + k];
  }
}
