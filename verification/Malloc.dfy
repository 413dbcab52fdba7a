/** The block allocator (threads/malloc.c): arenas of one page cut into equal blocks, and big
    blocks of whole pages. Addresses are byte numbers; a page is 4096 bytes. */
module Malloc {
  import opened Options
  import opened Sequences

  const DESCS: nat := 7

  /** malloc_init's block sizes: 16, doubled while below half a page. */
  function BlockSize(d: nat): (r: nat)
    requires d < DESCS
    ensures 16 <= r <= 1024
  {
    [16, 32, 64, 128, 256, 512, 1024][d]
  }

  function BlocksPerArena(d: nat): (r: nat)
    requires d < DESCS
    ensures 3 <= r <= 255
  {
    [255, 127, 63, 31, 15, 7, 3][d]
  }

  /** malloc_init fills in exactly these descriptors. */
  method MallocInit() returns (sizes: seq<nat>, perArena: seq<nat>)
    ensures |sizes| == |perArena| == DESCS
    ensures forall d: nat | d < DESCS ::
      sizes[d] == BlockSize(d) && perArena[d] == BlocksPerArena(d) == (4096 - 12) / sizes[d]
  {
    sizes, perArena := [], [];
    var blockSize := 16;
    while blockSize < 4096 / 2
      invariant |sizes| == |perArena| <= DESCS
      invariant blockSize == [16, 32, 64, 128, 256, 512, 1024, 2048][|sizes|]
      invariant forall d: nat | d < |sizes| ::
        sizes[d] == BlockSize(d) && perArena[d] == BlocksPerArena(d) == (4096 - 12) / sizes[d]
      decreases 2048 - blockSize
    {
      sizes, perArena := sizes + [blockSize], perArena + [(4096 - 12) / blockSize];
      blockSize := blockSize * 2;
    }
  }

  /** struct arena: its descriptor and number of free blocks, or the number of pages of a big
      block. */
  datatype Arena = Small(d: nat, freeCnt: nat) | Big(pages: nat)

  /** `live` remembers, for each block handed out, how many bytes were asked for. */
  datatype Heap = Heap(arenas: map<nat, Arena>, free: seq<seq<nat>>, live: map<nat, nat>)

  /** arena_to_block: block `i` of the arena at page `p` */
  function BlockAt(p: nat, d: nat, i: nat): nat
    requires d < DESCS
  {
    4096 * p + 12 + i * BlockSize(d)
  }

  /** Where a block lies: inside its page, in the place its number says, and nowhere else. */
  lemma BlockPlace(p: nat, d: nat, i: nat)
    requires d < DESCS && i < BlocksPerArena(d)
    ensures var b := BlockAt(p, d, i);
      && b / 4096 == p && b % 4096 >= 12 && (b % 4096 - 12) % BlockSize(d) == 0
      && (b % 4096 - 12) / BlockSize(d) == i && b % 4096 + BlockSize(d) <= 4096
  {
    match d {
      case 0 =>
      case 1 =>
      case 2 =>
      case 3 =>
      case 4 =>
      case 5 =>
      case 6 =>
    }
  }

  lemma BlockInjective(p: nat, q: nat, d: nat, i: nat, j: nat)
    requires d < DESCS && i < BlocksPerArena(d) && j < BlocksPerArena(d) && BlockAt(p, d, i) == BlockAt(q, d, j)
    ensures p == q && i == j
  {
    BlockPlace(p, d, i);
    BlockPlace(q, d, j);
  }

  lemma BlocksApart(p: nat, q: nat, d: nat, e: nat, i: nat, j: nat)
    requires d < DESCS && e < DESCS && i < BlocksPerArena(d) && j < BlocksPerArena(e)
    requires p != q || (d == e && i != j)
    ensures BlockAt(p, d, i) + BlockSize(d) <= BlockAt(q, e, j) || BlockAt(q, e, j) + BlockSize(e) <= BlockAt(p, d, i)
  {
    BlockPlace(p, d, i);
    BlockPlace(q, e, j);
    if p == q {
      match d {
        case 0 =>
        case 1 =>
        case 2 =>
        case 3 =>
        case 4 =>
        case 5 =>
        case 6 =>
      }
    }
  }

  // ---- the state between calls ----

  /** The number of a block within its arena. */
  function IndexOf(b: nat, d: nat): int
    requires d < DESCS
  {
    (b % 4096 - 12) / BlockSize(d)
  }

  predicate AtBlock(b: nat, d: nat)
    requires d < DESCS
  {
    0 <= IndexOf(b, d) < BlocksPerArena(d) && b == BlockAt(b / 4096, d, IndexOf(b, d))
  }

  lemma BlockIsAt(p: nat, d: nat, i: nat)
    requires d < DESCS && i < BlocksPerArena(d)
    ensures AtBlock(BlockAt(p, d, i), d) && BlockAt(p, d, i) / 4096 == p
  {
    BlockPlace(p, d, i);
  }

  predicate IsSmall(arenas: map<nat, Arena>, p: nat, d: nat) {
    p in arenas && arenas[p].Small? && arenas[p].d == d && d < DESCS
  }

  /** The blocks of an arena that are on its descriptor's list. */
  function FreeIndexes(list: seq<nat>, p: nat, d: nat): set<nat>
    requires d < DESCS
  {
    set i: nat | i < BlocksPerArena(d) && BlockAt(p, d, i) in list
  }

  function Pages(a: Arena): nat {
    if a.Small? then 1 else a.pages
  }

  ghost predicate ArenaOk(h: Heap, p: nat, a: Arena)
    requires |h.free| == DESCS
  {
    match a
    case Small(d, freeCnt) => d < DESCS && freeCnt == |FreeIndexes(h.free[d], p, d)|
    case Big(pages) => pages > 0 && 4096 * p + 12 in h.live
  }

  ghost predicate LiveOk(arenas: map<nat, Arena>, b: nat, size: nat) {
    && b / 4096 in arenas
    && match arenas[b / 4096]
       case Small(d, freeCnt) => d < DESCS && AtBlock(b, d) && size <= BlockSize(d)
       case Big(pages) => b == 4096 * (b / 4096) + 12 && (size + 12 <= 0x1_0000_0000 ==> size + 12 <= 4096 * pages)
  }

  ghost predicate ListOk(arenas: map<nat, Arena>, list: seq<nat>, d: nat)
    requires d < DESCS
  {
    Distinct(list) && forall b | b in list :: AtBlock(b, d) && IsSmall(arenas, b / 4096, d)
  }

  ghost predicate Apart(arenas: map<nat, Arena>) {
    forall p, q | p in arenas && q in arenas && p < q :: p + Pages(arenas[p]) <= q
  }

  /** Every block of a small arena is on the free list or in use, not both. */
  ghost predicate Settled(h: Heap)
    requires |h.free| == DESCS
  {
    forall p: nat, d: nat, i: nat | IsSmall(h.arenas, p, d) && i < BlocksPerArena(d) ::
      BlockAt(p, d, i) in h.free[d] <==> BlockAt(p, d, i) !in h.live
  }

  ghost predicate Sound(h: Heap) {
    && |h.free| == DESCS
    && (forall p | p in h.arenas :: ArenaOk(h, p, h.arenas[p]))
    && (forall d: nat | d < DESCS :: ListOk(h.arenas, h.free[d], d))
    && (forall b | b in h.live :: LiveOk(h.arenas, b, h.live[b]))
    && Settled(h)
    && Apart(h.arenas)
  }

  /** Every small arena has a block in use. */
  predicate Busy(arenas: map<nat, Arena>) {
    forall p | p in arenas && arenas[p].Small? ::
      arenas[p].d < DESCS && arenas[p].freeCnt < BlocksPerArena(arenas[p].d)
  }

  ghost predicate Inv(h: Heap) {
    Sound(h) && Busy(h.arenas)
  }

  // ---- malloc ----

  /** The smallest descriptor, from `d` on, whose blocks hold `size` bytes. */
  function DescFor(d: nat, size: nat): (r: nat)
    requires d <= DESCS
    ensures d <= r <= DESCS && (r < DESCS ==> size <= BlockSize(r))
    ensures forall e | d <= e < r :: BlockSize(e) < size
    decreases DESCS - d
  {
    if d == DESCS || BlockSize(d) >= size then d else DescFor(d + 1, size)
  }

  /** DIV_ROUND_UP (size + sizeof *a, PGSIZE), in 32 bits. */
  function PageCnt(size: nat): nat {
    ((size + 12) % 0x1_0000_0000 + 4095) % 0x1_0000_0000 / 4096
  }

  /** The pages of a big block hold the bytes asked for, except when adding the header wraps
      around: then a request for almost 4 GB is given one page, or fails. */
  lemma BigEnough(size: nat)
    requires 1024 < size < 0x1_0000_0000
    ensures PageCnt(size) > 0 ==> (size + 12 <= 4096 * PageCnt(size) <==> size + 12 <= 0x1_0000_0000)
    ensures size + 12 > 0x1_0000_0000 ==> PageCnt(size) <= 1
  {
  }

  /** Pages that the page allocator may hand out: no arena has them. */
  ghost predicate Fresh(arenas: map<nat, Arena>, p: nat, cnt: nat) {
    cnt > 0 && forall q | q in arenas :: p + cnt <= q || q + Pages(arenas[q]) <= p
  }

  function AddBlocks(list: seq<nat>, p: nat, d: nat, n: nat): seq<nat>
    requires d < DESCS
  {
    if n == 0 then list else AddBlocks(list, p, d, n - 1) + [BlockAt(p, d, n - 1)]
  }

  function NewArena(h: Heap, p: nat, d: nat): Heap
    requires |h.free| == DESCS && d < DESCS
  {
    h.(arenas := h.arenas[p := Small(d, BlocksPerArena(d))],
       free := h.free[d := AddBlocks(h.free[d], p, d, BlocksPerArena(d))])
  }

  /** Popping a block off a list. */
  function Take(h: Heap, d: nat, size: nat): Heap
    requires |h.free| == DESCS && d < DESCS && h.free[d] != []
    requires h.free[d][0] / 4096 in h.arenas && h.arenas[h.free[d][0] / 4096].Small?
  {
    var b := h.free[d][0];
    var a := h.arenas[b / 4096];
    h.(free := h.free[d := h.free[d][1..]],
       arenas := h.arenas[b / 4096 := Small(a.d, if a.freeCnt == 0 then 0 else a.freeCnt - 1)],
       live := h.live[b := size])
  }

  lemma {:induction false} AddedBlocks(list: seq<nat>, p: nat, d: nat, n: nat)
    requires d < DESCS && n <= BlocksPerArena(d) && Distinct(list)
    requires forall i: nat | i < BlocksPerArena(d) :: BlockAt(p, d, i) !in list
    ensures var r := AddBlocks(list, p, d, n);
      && Distinct(r) && (forall b | b in list :: b in r)
      && (forall b | b in r :: b in list || exists i: nat :: i < n && b == BlockAt(p, d, i))
      && (forall i: nat | i < n :: BlockAt(p, d, i) in r)
  {
    hide BlockAt;
    if n > 0 {
      AddedBlocks(list, p, d, n - 1);
      var q, b := AddBlocks(list, p, d, n - 1), BlockAt(p, d, n - 1);
      forall i: nat | i < n - 1 ensures BlockAt(p, d, i) != b {
        if BlockAt(p, d, i) == b {
          BlockInjective(p, p, d, i, n - 1);
        }
      }
      assert (q + [b])[|q|] == b;
    }
  }

  function Below(n: nat): (r: set<nat>)
    ensures |r| == n && forall i: nat :: i in r <==> i < n
  {
    if n == 0 then {} else Below(n - 1) + {n - 1}
  }

  lemma NewArenaKeeps(h: Heap, p: nat, d: nat)
    requires Inv(h) && d < DESCS && Fresh(h.arenas, p, 1) && h.free[d] == []
    ensures var r := NewArena(h, p, d);
      && Sound(r) && r.live == h.live && r.free[d] != [] && r.free[d][0] / 4096 == p && IsSmall(r.arenas, p, d)
      && (forall q | q in r.arenas && q != p :: q in h.arenas && r.arenas[q] == h.arenas[q])
  {
    hide BlockAt, BlockSize, BlocksPerArena, Settled, AtBlock, LiveOk, ArenaOk, FreeIndexes, ListOk;
    var r := NewArena(h, p, d);
    NotThere(h, p);
    AddedBlocks(h.free[d], p, d, BlocksPerArena(d));
    NewArenaLists(h, p, d);
    NewArenaArenas(h, p, d);
    NewArenaSettled(h, p, d);
    forall b | b in r.live ensures LiveOk(r.arenas, b, r.live[b]) {
      LiveElsewhere(h, p, b, r.arenas);
    }
    FirstIsNew(h, p, d);
  }

  /** No arena, block or page of one is at a fresh page. */
  lemma NotThere(h: Heap, p: nat)
    requires Sound(h) && Fresh(h.arenas, p, 1)
    ensures p !in h.arenas
    ensures forall d: nat, i: nat | d < DESCS && i < BlocksPerArena(d) ::
      BlockAt(p, d, i) !in h.live && forall e: nat | e < DESCS :: BlockAt(p, d, i) !in h.free[e]
  {
    hide Settled, ArenaOk, Apart, AtBlock, BlockAt, BlockSize, BlocksPerArena;
    if p in h.arenas {
      HasPages(h, p);
    }
    forall b | b in h.live ensures b / 4096 in h.arenas {
      assert LiveOk(h.arenas, b, h.live[b]);
    }
    forall d: nat, i: nat | d < DESCS && i < BlocksPerArena(d)
      ensures BlockAt(p, d, i) !in h.live && forall e: nat | e < DESCS :: BlockAt(p, d, i) !in h.free[e]
    {
      BlockIsAt(p, d, i);
      forall e: nat | e < DESCS ensures BlockAt(p, d, i) !in h.free[e] {
        assert ListOk(h.arenas, h.free[e], e);
      }
    }
  }

  lemma HasPages(h: Heap, p: nat)
    requires Sound(h) && p in h.arenas
    ensures Pages(h.arenas[p]) > 0
  {
    hide Settled, Apart, ListOk, LiveOk, FreeIndexes;
    assert ArenaOk(h, p, h.arenas[p]);
  }

  lemma LiveElsewhere(h: Heap, p: nat, b: nat, arenas: map<nat, Arena>)
    requires Sound(h) && p !in h.arenas && b in h.live
    requires forall q | q in h.arenas :: q in arenas && arenas[q] == h.arenas[q]
    ensures LiveOk(arenas, b, h.live[b])
  {
    hide Settled, ArenaOk, Apart, AtBlock, ListOk;
    assert LiveOk(h.arenas, b, h.live[b]);
  }

  lemma NewArenaLists(h: Heap, p: nat, d: nat)
    requires Inv(h) && d < DESCS && Fresh(h.arenas, p, 1)
    ensures var r := NewArena(h, p, d); forall e: nat | e < DESCS :: ListOk(r.arenas, r.free[e], e)
  {
    hide BlockAt, BlockSize, BlocksPerArena, Settled, AtBlock, LiveOk, ArenaOk, FreeIndexes;
    var r := NewArena(h, p, d);
    NotThere(h, p);
    AddedBlocks(h.free[d], p, d, BlocksPerArena(d));
    forall e: nat | e < DESCS ensures ListOk(r.arenas, r.free[e], e) {
      assert ListOk(h.arenas, h.free[e], e);
      if e == d {
        forall b | b in r.free[d] ensures AtBlock(b, d) && IsSmall(r.arenas, b / 4096, d) {
          if b !in h.free[d] {
            var i: nat :| i < BlocksPerArena(d) && b == BlockAt(p, d, i);
            BlockIsAt(p, d, i);
          }
        }
      }
    }
  }

  lemma NewArenaArenas(h: Heap, p: nat, d: nat)
    requires Inv(h) && d < DESCS && Fresh(h.arenas, p, 1)
    ensures var r := NewArena(h, p, d); forall q | q in r.arenas :: ArenaOk(r, q, r.arenas[q])
  {
    hide BlockAt, BlockSize, BlocksPerArena, Settled, AtBlock, LiveOk, ListOk, Apart;
    var r := NewArena(h, p, d);
    NotThere(h, p);
    AddedHere(h, p, d);
    forall q | q in r.arenas ensures ArenaOk(r, q, r.arenas[q]) {
      if q == p {
        assert FreeIndexes(r.free[d], p, d) == Below(BlocksPerArena(d));
      } else {
        assert ArenaOk(h, q, h.arenas[q]);
        if r.arenas[q].Small? && r.arenas[q].d == d {
          assert FreeIndexes(r.free[d], q, d) == FreeIndexes(h.free[d], q, d);
        }
      }
    }
  }

  /** Adding an arena's blocks to a list puts just them there. */
  lemma AddedHere(h: Heap, p: nat, d: nat)
    requires Sound(h) && d < DESCS && Fresh(h.arenas, p, 1)
    ensures var list := NewArena(h, p, d).free[d];
      forall q: nat, i: nat | i < BlocksPerArena(d) ::
        BlockAt(q, d, i) in list <==> q == p || BlockAt(q, d, i) in h.free[d]
  {
    hide BlockAt, BlockSize, BlocksPerArena, Settled, AtBlock, LiveOk, ArenaOk, FreeIndexes, Apart;
    NotThere(h, p);
    assert ListOk(h.arenas, h.free[d], d);
    AddedBlocks(h.free[d], p, d, BlocksPerArena(d));
    var list := NewArena(h, p, d).free[d];
    forall q: nat, i: nat | i < BlocksPerArena(d) && BlockAt(q, d, i) in list && q != p
      ensures BlockAt(q, d, i) in h.free[d]
    {
      if BlockAt(q, d, i) !in h.free[d] {
        var j: nat :| j < BlocksPerArena(d) && BlockAt(q, d, i) == BlockAt(p, d, j);
        BlockInjective(q, p, d, i, j);
      }
    }
  }

  lemma NewArenaSettled(h: Heap, p: nat, d: nat)
    requires Sound(h) && d < DESCS && Fresh(h.arenas, p, 1)
    ensures Settled(NewArena(h, p, d))
  {
    hide BlockAt, BlockSize, BlocksPerArena, AtBlock, LiveOk, ArenaOk, FreeIndexes, Apart, ListOk;
    NotThere(h, p);
    AddedHere(h, p, d);
  }

  lemma FirstIsNew(h: Heap, p: nat, d: nat)
    requires Sound(h) && d < DESCS && Fresh(h.arenas, p, 1) && h.free[d] == []
    ensures var r := NewArena(h, p, d); r.free[d] != [] && r.free[d][0] / 4096 == p
  {
    hide BlockAt, BlockSize, Settled, AtBlock, LiveOk, ArenaOk, FreeIndexes, Apart, ListOk;
    NotThere(h, p);
    AddedBlocks([], p, d, BlocksPerArena(d));
    var list := NewArena(h, p, d).free[d];
    assert BlockAt(p, d, 0) in list;
    assert list[0] in list;
    var i: nat :| i < BlocksPerArena(d) && list[0] == BlockAt(p, d, i);
    BlockIsAt(p, d, i);
  }

  lemma TakeKeeps(h: Heap, d: nat, size: nat)
    requires Sound(h) && d < DESCS && h.free[d] != [] && size <= BlockSize(d)
    ensures var b := h.free[d][0]; IsSmall(h.arenas, b / 4096, d) && b !in h.live
    ensures var b := h.free[d][0]; var r := Take(h, d, size);
      && Sound(r) && r.live == h.live[b := size] && r.arenas.Keys == h.arenas.Keys
      && IsSmall(r.arenas, b / 4096, d) && r.arenas[b / 4096].freeCnt < BlocksPerArena(d)
      && (forall q | q in h.arenas && q != b / 4096 :: r.arenas[q] == h.arenas[q])
  {
    hide BlockAt, BlockSize, BlocksPerArena, Settled, AtBlock, LiveOk, ArenaOk, FreeIndexes, IndexOf;
    var b := h.free[d][0];
    HeadIsFree(h, d);
    TakeArenas(h, d, size);
    TakeSettled(h, d, size);
    TakeLists(h, d, size);
    TakeLive(h, d, size);
  }

  /** The block at the head of a list, and what its arena says. */
  lemma HeadIsFree(h: Heap, d: nat)
    requires Sound(h) && d < DESCS && h.free[d] != []
    ensures var b := h.free[d][0]; var p := b / 4096;
      && IsSmall(h.arenas, p, d) && b !in h.live && AtBlock(b, d) && b == BlockAt(p, d, IndexOf(b, d))
      && h.arenas[p].freeCnt == |FreeIndexes(h.free[d], p, d)|
      && IndexOf(b, d) in FreeIndexes(h.free[d], p, d)
  {
    hide BlockAt, BlockSize, BlocksPerArena, IndexOf, Apart, LiveOk;
    var b := h.free[d][0];
    assert ListOk(h.arenas, h.free[d], d) && b in h.free[d];
    assert ArenaOk(h, b / 4096, h.arenas[b / 4096]);
  }

  /** A list less its head is less that one block. */
  lemma PopIndexes(list: seq<nat>, d: nat, q: nat)
    requires d < DESCS && list != [] && Distinct(list) && AtBlock(list[0], d)
    ensures var b := list[0];
      FreeIndexes(list[1..], q, d) == FreeIndexes(list, q, d) - (if q == b / 4096 then {IndexOf(b, d)} else {})
  {
    hide BlockAt, BlockSize, BlocksPerArena, IndexOf;
    var b := list[0];
    PoppedQueue(list);
    forall i: nat | i < BlocksPerArena(d) && BlockAt(q, d, i) == b ensures q == b / 4096 && i == IndexOf(b, d) {
      BlockInjective(q, b / 4096, d, i, IndexOf(b, d));
    }
  }

  lemma TakeArenas(h: Heap, d: nat, size: nat)
    requires Sound(h) && d < DESCS && h.free[d] != []
    requires IsSmall(h.arenas, h.free[d][0] / 4096, d)
    ensures var r := Take(h, d, size);
      && (forall q | q in r.arenas :: ArenaOk(r, q, r.arenas[q])) && Apart(r.arenas)
      && r.arenas[h.free[d][0] / 4096].freeCnt < BlocksPerArena(d)
  {
    hide BlockAt, BlockSize, BlocksPerArena, Settled, AtBlock, LiveOk, FreeIndexes, IndexOf, ListOk;
    var b, r := h.free[d][0], Take(h, d, size);
    HeadIsFree(h, d);
    assert Distinct(h.free[d]) by { ListDistinct(h, d); }
    IndexesBounded(h.free[d], b / 4096, d);
    forall q | q in r.arenas ensures ArenaOk(r, q, r.arenas[q]) {
      assert ArenaOk(h, q, h.arenas[q]);
      PopIndexes(h.free[d], d, q);
    }
    forall p, q | p in r.arenas && q in r.arenas && p < q ensures p + Pages(r.arenas[p]) <= q {
      assert Pages(r.arenas[p]) == Pages(h.arenas[p]);
    }
  }

  lemma ListDistinct(h: Heap, d: nat)
    requires Sound(h) && d < DESCS
    ensures Distinct(h.free[d])
  {
    hide Settled, Apart, LiveOk, ArenaOk;
    assert ListOk(h.arenas, h.free[d], d);
  }

  lemma IndexesBounded(list: seq<nat>, p: nat, d: nat)
    requires d < DESCS
    ensures |FreeIndexes(list, p, d)| <= BlocksPerArena(d)
    ensures |FreeIndexes(list, p, d)| == BlocksPerArena(d) ==>
        forall i: nat | i < BlocksPerArena(d) :: BlockAt(p, d, i) in list
  {
    hide BlockAt, BlocksPerArena;
    SubsetSize(FreeIndexes(list, p, d), Below(BlocksPerArena(d)));
    if |FreeIndexes(list, p, d)| == BlocksPerArena(d) {
      forall i: nat | i < BlocksPerArena(d) ensures BlockAt(p, d, i) in list {
        assert i in Below(BlocksPerArena(d));
        assert i in FreeIndexes(list, p, d);
      }
    }
  }

  lemma {:induction false} SubsetSize(a: set<nat>, b: set<nat>)
    requires a <= b
    ensures |a| <= |b| && (|a| == |b| ==> a == b)
  {
    if x :| x in a {
      SubsetSize(a - {x}, b - {x});
    }
  }

  lemma TakeSettled(h: Heap, d: nat, size: nat)
    requires Sound(h) && d < DESCS && h.free[d] != []
    requires IsSmall(h.arenas, h.free[d][0] / 4096, d)
    ensures Settled(Take(h, d, size))
  {
    hide BlockSize, BlocksPerArena, AtBlock, LiveOk, FreeIndexes, IndexOf, Apart, ArenaOk, BlockAt;
    var b, r := h.free[d][0], Take(h, d, size);
    HeadIsFree(h, d);
    assert ListOk(h.arenas, h.free[d], d);
    PoppedQueue(h.free[d]);
    forall p: nat, e: nat, i: nat | IsSmall(r.arenas, p, e) && i < BlocksPerArena(e)
      ensures BlockAt(p, e, i) in r.free[e] <==> BlockAt(p, e, i) !in r.live
    {
      assert IsSmall(h.arenas, p, e);
      if e != d && BlockAt(p, e, i) == b {
        BlockIsAt(p, e, i);
      }
    }
  }

  lemma TakeLists(h: Heap, d: nat, size: nat)
    requires Sound(h) && d < DESCS && h.free[d] != []
    requires IsSmall(h.arenas, h.free[d][0] / 4096, d)
    ensures var r := Take(h, d, size); forall e: nat | e < DESCS :: ListOk(r.arenas, r.free[e], e)
  {
    hide BlockSize, BlocksPerArena, AtBlock, LiveOk, FreeIndexes, IndexOf, Apart, ArenaOk, BlockAt, Settled;
    var r := Take(h, d, size);
    assert ListOk(h.arenas, h.free[d], d);
    PoppedQueue(h.free[d]);
    forall e: nat | e < DESCS ensures ListOk(r.arenas, r.free[e], e) {
      assert ListOk(h.arenas, h.free[e], e);
    }
  }

  lemma TakeLive(h: Heap, d: nat, size: nat)
    requires Sound(h) && d < DESCS && h.free[d] != [] && size <= BlockSize(d)
    requires IsSmall(h.arenas, h.free[d][0] / 4096, d)
    ensures var r := Take(h, d, size); forall b | b in r.live :: LiveOk(r.arenas, b, r.live[b])
  {
    hide BlockSize, BlocksPerArena, AtBlock, FreeIndexes, IndexOf, Apart, ArenaOk, BlockAt, Settled, ListOk;
    var r := Take(h, d, size);
    HeadIsFree(h, d);
    forall b | b in r.live ensures LiveOk(r.arenas, b, r.live[b]) {
      if b in h.live {
        assert LiveOk(h.arenas, b, h.live[b]);
      }
    }
  }

  /** malloc: `page` is what the page allocator gives, if it is asked. */
  function MallocCall(h: Heap, size: nat, page: Option<nat>): (Heap, Option<nat>)
    requires |h.free| == DESCS
    requires forall d: nat | d < DESCS && h.free[d] != [] ::
      h.free[d][0] / 4096 in h.arenas && h.arenas[h.free[d][0] / 4096].Small?
  {
    if size == 0 then (h, None)
    else
      var d := DescFor(0, size);
      if d == DESCS then
        if PageCnt(size) == 0 || page.None? then (h, None)
        else
          var b := 4096 * page.value + 12;
          (h.(arenas := h.arenas[page.value := Big(PageCnt(size))], live := h.live[b := size]), Some(b))
      else if h.free[d] != [] then (Take(h, d, size), Some(h.free[d][0]))
      else if page.None? then (h, None)
      else TakeNew(NewArena(h, page.value, d), d, size)
  }

  function TakeNew(h: Heap, d: nat, size: nat): (Heap, Option<nat>)
    requires |h.free| == DESCS && d < DESCS
  {
    if h.free[d] != [] && h.free[d][0] / 4096 in h.arenas && h.arenas[h.free[d][0] / 4096].Small?
    then (Take(h, d, size), Some(h.free[d][0])) else (h, None)
  }

  /** How many pages a call may ask the page allocator for. */
  function Wanted(size: nat): nat {
    if DescFor(0, size) == DESCS then PageCnt(size) else 1
  }

  lemma HeadsAreSmall(h: Heap)
    requires Sound(h)
    ensures forall d: nat | d < DESCS && h.free[d] != [] ::
      h.free[d][0] / 4096 in h.arenas && h.arenas[h.free[d][0] / 4096].Small?
  {
    hide Settled, ArenaOk, Apart, AtBlock, LiveOk;
    forall d: nat | d < DESCS && h.free[d] != []
      ensures h.free[d][0] / 4096 in h.arenas && h.arenas[h.free[d][0] / 4096].Small?
    {
      assert ListOk(h.arenas, h.free[d], d) && h.free[d][0] in h.free[d];
    }
  }

  /** malloc keeps the books, and what it returns is a block that was not in use. */
  lemma MallocKeeps(h: Heap, size: nat, page: Option<nat>)
    requires Inv(h) && (page.Some? && Wanted(size) > 0 ==> Fresh(h.arenas, page.value, Wanted(size)))
    ensures forall d: nat | d < DESCS && h.free[d] != [] ::
      h.free[d][0] / 4096 in h.arenas && h.arenas[h.free[d][0] / 4096].Small?
    ensures var (r, b) := MallocCall(h, size, page);
      && Inv(r) && (b.None? ==> r == h)
      && (b.Some? ==> b.value !in h.live && r.live == h.live[b.value := size] && size > 0)
  {
    hide Sound, Take, NewArena, BlockSize, BlocksPerArena, Settled, PageCnt;
    HeadsAreSmall(h);
    var d := DescFor(0, size);
    if size > 0 && d == DESCS {
      if page.Some? && PageCnt(size) > 0 {
        TooBig(size);
        BigKeeps(h, size, page.value);
      }
    } else if size > 0 {
      SoundLists(h);
      if h.free[d] != [] {
        TakeKeeps(h, d, size);
      } else if page.Some? {
        NewArenaKeeps(h, page.value, d);
        TakeKeeps(NewArena(h, page.value, d), d, size);
      }
    }
  }

  // ---- when malloc succeeds, and what it gives ----

  /** The smallest descriptor whose blocks hold `size` bytes. */
  ghost predicate Suits(d: nat, size: nat) {
    d < DESCS && size <= BlockSize(d) && forall e: nat | e < d :: BlockSize(e) < size
  }

  /** The size is too large for all of them. */
  ghost predicate IsBig(size: nat) {
    forall d: nat | d < DESCS :: BlockSize(d) < size
  }

  /** malloc has nothing to give: no bytes are asked for, or there is no free block of the suitable
      size and no page for a new arena, or the size is big and there are no pages for it, or the
      number of them wraps to 0. */
  ghost predicate Refused(h: Heap, size: nat, page: Option<nat>)
    requires |h.free| == DESCS
  {
    || size == 0
    || (page.None? && exists d: nat :: Suits(d, size) && h.free[d] == [])
    || (IsBig(size) && (page.None? || PageCnt(size) == 0))
  }

  /** What malloc gives: a block of the suitable size, off the free list if there is one and else from
      a new arena; or, for a big size, pages of its own. */
  ghost predicate Gives(h: Heap, size: nat, page: Option<nat>, r: Heap, b: nat)
    requires |h.free| == DESCS
  {
    && (forall d: nat | Suits(d, size) ::
          && AtBlock(b, d) && IsSmall(r.arenas, b / 4096, d)
          && if h.free[d] != [] then b in h.free[d] && r.arenas.Keys == h.arenas.Keys
             else page == Some(b / 4096) && r.arenas.Keys == h.arenas.Keys + {b / 4096})
    && (IsBig(size) ==>
          && page.Some? && b == 4096 * page.value + 12 && r.free == h.free
          && r.arenas == h.arenas[page.value := Big(PageCnt(size))])
  }

  lemma DescSuits(size: nat)
    ensures var d := DescFor(0, size); if d < DESCS then Suits(d, size) && !IsBig(size) else IsBig(size)
    ensures forall d: nat | Suits(d, size) :: d == DescFor(0, size) && d < DESCS
  {
    hide BlockSize;
  }

  /** malloc fails exactly when it has nothing to give. */
  lemma MallocOutcome(h: Heap, size: nat, page: Option<nat>)
    requires Inv(h) && (page.Some? && Wanted(size) > 0 ==> Fresh(h.arenas, page.value, Wanted(size)))
    ensures |h.free| == DESCS
    ensures forall d: nat | d < DESCS && h.free[d] != [] ::
      h.free[d][0] / 4096 in h.arenas && h.arenas[h.free[d][0] / 4096].Small?
    ensures var (r, b) := MallocCall(h, size, page);
      (b.None? <==> Refused(h, size, page)) && (b.Some? ==> Gives(h, size, page, r, b.value))
  {
    hide Sound, Take, TakeNew, NewArena, BlockSize, BlocksPerArena, Settled, PageCnt, AtBlock, Suits, IsBig, IsSmall,
      Fresh;
    SoundLists(h);
    HeadsAreSmall(h);
    DescSuits(size);
    var d := DescFor(0, size);
    if size > 0 && d < DESCS {
      if h.free[d] != [] {
        TakeKeeps(h, d, size);
        TakeGives(h, d, size);
      } else if page.Some? {
        NewGives(h, page.value, d, size);
      }
    }
  }

  lemma TakeGives(h: Heap, d: nat, size: nat)
    requires Sound(h) && d < DESCS && |h.free| == DESCS && h.free[d] != [] && size <= BlockSize(d)
    requires h.free[d][0] / 4096 in h.arenas && h.arenas[h.free[d][0] / 4096].Small?
    ensures var b := h.free[d][0]; var r := Take(h, d, size);
      AtBlock(b, d) && IsSmall(r.arenas, b / 4096, d) && b in h.free[d] && r.arenas.Keys == h.arenas.Keys
  {
    hide Sound, Take, BlockSize, BlocksPerArena, AtBlock, IsSmall;
    TakeKeeps(h, d, size);
    HeadIsFree(h, d);
  }

  lemma NewGives(h: Heap, p: nat, d: nat, size: nat)
    requires Inv(h) && d < DESCS && |h.free| == DESCS && h.free[d] == [] && Fresh(h.arenas, p, 1)
    requires size <= BlockSize(d)
    ensures var (r, b) := TakeNew(NewArena(h, p, d), d, size);
      && b.Some? && b.value / 4096 == p && AtBlock(b.value, d) && IsSmall(r.arenas, p, d)
      && r.arenas.Keys == h.arenas.Keys + {p}
  {
    hide Sound, Take, NewArena, BlockSize, BlocksPerArena, AtBlock, Fresh;
    NewArenaKeeps(h, p, d);
    NewKeys(h, p, d);
    SoundLists(NewArena(h, p, d));
    TakeGives(NewArena(h, p, d), d, size);
  }

  lemma NewKeys(h: Heap, p: nat, d: nat)
    requires |h.free| == DESCS && d < DESCS
    ensures NewArena(h, p, d).arenas.Keys == h.arenas.Keys + {p}
  {
  }

  /** The number of pages is 0 for sizes within a page of the largest only. */
  lemma NoPages(size: nat)
    requires size < 0x1_0000_0000
    ensures PageCnt(size) == 0 <==> 0x1_0000_0000 - 12 - 4095 <= size <= 0x1_0000_0000 - 12
  {
  }

  lemma TooBig(size: nat)
    requires DescFor(0, size) == DESCS
    ensures size > 1024
  {
    assert BlockSize(6) < size;
  }

  lemma SoundLists(h: Heap)
    requires Sound(h)
    ensures |h.free| == DESCS
  {
  }

  lemma BigKeeps(h: Heap, size: nat, p: nat)
    requires Inv(h) && size > 1024 && PageCnt(size) > 0 && Fresh(h.arenas, p, PageCnt(size))
    ensures var b := 4096 * p + 12; var r := h.(arenas := h.arenas[p := Big(PageCnt(size))], live := h.live[b := size]);
      Inv(r) && b !in h.live
  {
    hide BlockAt, BlockSize, BlocksPerArena, AtBlock, FreeIndexes, PageCnt, Settled, LiveOk;
    var b := 4096 * p + 12;
    var r := h.(arenas := h.arenas[p := Big(PageCnt(size))], live := h.live[b := size]);
    NotThereBig(h, p, PageCnt(size));
    forall q | q in r.arenas ensures ArenaOk(r, q, r.arenas[q]) {
      if q != p {
        assert ArenaOk(h, q, h.arenas[q]);
      }
    }
    BigApart(h, p, PageCnt(size));
    BigLive(h, size, p);
    BigSettled(h, size, p);
    forall e: nat | e < DESCS ensures ListOk(r.arenas, r.free[e], e) {
      assert ListOk(h.arenas, h.free[e], e);
    }
  }

  lemma NotThereBig(h: Heap, p: nat, cnt: nat)
    requires Sound(h) && Fresh(h.arenas, p, cnt)
    ensures p !in h.arenas && forall b | b in h.live :: b / 4096 != p
  {
    hide Settled, ArenaOk, Apart, AtBlock, BlockAt, BlockSize, BlocksPerArena;
    if p in h.arenas {
      HasPages(h, p);
    }
    forall b | b in h.live ensures b / 4096 in h.arenas {
      assert LiveOk(h.arenas, b, h.live[b]);
    }
  }

  lemma BigApart(h: Heap, p: nat, cnt: nat)
    requires Sound(h) && Fresh(h.arenas, p, cnt) && p !in h.arenas
    ensures Apart(h.arenas[p := Big(cnt)])
  {
    hide Settled, ArenaOk, AtBlock, LiveOk, ListOk;
    var arenas := h.arenas[p := Big(cnt)];
    forall q, r | q in arenas && r in arenas && q < r ensures q + Pages(arenas[q]) <= r {
      if r == p {
        HasPages(h, q);
      } else if q == p {
        HasPages(h, r);
      }
    }
  }

  lemma BigLive(h: Heap, size: nat, p: nat)
    requires Sound(h) && size > 1024 && PageCnt(size) > 0 && p !in h.arenas
    requires forall b | b in h.live :: b / 4096 != p
    ensures var arenas, live := h.arenas[p := Big(PageCnt(size))], h.live[4096 * p + 12 := size];
      forall b | b in live :: LiveOk(arenas, b, live[b])
  {
    hide BlockAt, BlockSize, BlocksPerArena, AtBlock, ArenaOk, Settled, ListOk, Apart;
    var arenas, live := h.arenas[p := Big(PageCnt(size))], h.live[4096 * p + 12 := size];
    forall b | b in live ensures LiveOk(arenas, b, live[b]) {
      if b != 4096 * p + 12 {
        assert LiveOk(h.arenas, b, h.live[b]);
      } else {
        PagesHold(size);
      }
    }
  }

  lemma PagesHold(size: nat)
    requires PageCnt(size) > 0
    ensures size + 12 <= 0x1_0000_0000 ==> size + 12 <= 4096 * PageCnt(size)
  {
  }

  lemma BigSettled(h: Heap, size: nat, p: nat)
    requires Sound(h) && p !in h.arenas && PageCnt(size) > 0
    ensures Settled(h.(arenas := h.arenas[p := Big(PageCnt(size))], live := h.live[4096 * p + 12 := size]))
  {
    hide BlockAt, BlockSize, BlocksPerArena, AtBlock, ArenaOk, ListOk, Apart, LiveOk, PageCnt;
    var r := h.(arenas := h.arenas[p := Big(PageCnt(size))], live := h.live[4096 * p + 12 := size]);
    forall q: nat, d: nat, i: nat | IsSmall(r.arenas, q, d) && i < BlocksPerArena(d)
      ensures BlockAt(q, d, i) in r.free[d] <==> BlockAt(q, d, i) !in r.live
    {
      assert IsSmall(h.arenas, q, d);
      BlockIsAt(q, d, i);
    }
  }

  // ---- free ----

  /** Taking the first `n` blocks of an arena off a list. */
  function DropBlocks(list: seq<nat>, p: nat, d: nat, n: nat): seq<nat>
    requires d < DESCS
  {
    if n == 0 then list else Without(DropBlocks(list, p, d, n - 1), BlockAt(p, d, n - 1))
  }

  /** Pushing a block on its list. */
  function Give(h: Heap, b: nat, d: nat): Heap
    requires |h.free| == DESCS && d < DESCS && b / 4096 in h.arenas && h.arenas[b / 4096].Small?
  {
    h.(free := h.free[d := [b] + h.free[d]],
       arenas := h.arenas[b / 4096 := Small(d, h.arenas[b / 4096].freeCnt + 1)],
       live := h.live - {b})
  }

  /** Giving an arena back to the page allocator. */
  function DropArena(h: Heap, p: nat, d: nat): Heap
    requires |h.free| == DESCS && d < DESCS
  {
    h.(free := h.free[d := DropBlocks(h.free[d], p, d, BlocksPerArena(d))], arenas := h.arenas - {p})
  }

  /** free */
  function FreeCall(h: Heap, b: nat): Heap
    requires |h.free| == DESCS && b / 4096 in h.arenas
    requires h.arenas[b / 4096].Small? ==> h.arenas[b / 4096].d < DESCS
  {
    var p := b / 4096;
    match h.arenas[p]
    case Big(pages) => h.(arenas := h.arenas - {p}, live := h.live - {b})
    case Small(d, freeCnt) =>
      var r := Give(h, b, d);
      if freeCnt + 1 >= BlocksPerArena(d) then DropArena(r, p, d) else r
  }

  lemma LiveArena(h: Heap, b: nat)
    requires Sound(h) && b in h.live
    ensures b / 4096 in h.arenas
    ensures match h.arenas[b / 4096]
      case Small(d, freeCnt) =>
        d < DESCS && AtBlock(b, d) && h.live[b] <= BlockSize(d) && b !in h.free[d]
        && freeCnt == |FreeIndexes(h.free[d], b / 4096, d)|
      case Big(pages) => b == 4096 * (b / 4096) + 12
  {
    hide BlockSize, BlocksPerArena, FreeIndexes, Apart, ListOk, IndexOf, BlockAt;
    assert LiveOk(h.arenas, b, h.live[b]);
    var p := b / 4096;
    assert ArenaOk(h, p, h.arenas[p]);
    if h.arenas[p].Small? {
      var d := h.arenas[p].d;
      assert IsSmall(h.arenas, p, d);
      assert b == BlockAt(p, d, IndexOf(b, d));
    }
  }

  lemma PushIndexes(list: seq<nat>, b: nat, d: nat, q: nat)
    requires d < DESCS && AtBlock(b, d) && b !in list
    ensures FreeIndexes([b] + list, q, d) == FreeIndexes(list, q, d) + (if q == b / 4096 then {IndexOf(b, d)} else {})
    ensures IndexOf(b, d) !in FreeIndexes(list, b / 4096, d)
  {
    hide BlockAt, BlockSize, BlocksPerArena, IndexOf;
    forall i: nat | i < BlocksPerArena(d) && BlockAt(q, d, i) == b ensures q == b / 4096 && i == IndexOf(b, d) {
      BlockInjective(q, b / 4096, d, i, IndexOf(b, d));
    }
    assert forall i: nat | i < BlocksPerArena(d) && BlockAt(q, d, i) in [b] + list ::
      BlockAt(q, d, i) == b || BlockAt(q, d, i) in list;
  }

  lemma GiveKeeps(h: Heap, b: nat, d: nat)
    requires Sound(h) && b in h.live && IsSmall(h.arenas, b / 4096, d)
    ensures var r := Give(h, b, d);
      && Sound(r) && r.live == h.live - {b}
      && r.arenas == h.arenas[b / 4096 := Small(d, h.arenas[b / 4096].freeCnt + 1)]
  {
    hide BlockAt, BlockSize, BlocksPerArena, Settled, AtBlock, LiveOk, ArenaOk, FreeIndexes, IndexOf, ListOk, Apart;
    GiveArenas(h, b, d);
    GiveLists(h, b, d);
    GiveSettled(h, b, d);
    GiveLive(h, b, d);
  }

  lemma GiveArenas(h: Heap, b: nat, d: nat)
    requires Sound(h) && b in h.live && IsSmall(h.arenas, b / 4096, d)
    ensures var r := Give(h, b, d); (forall q | q in r.arenas :: ArenaOk(r, q, r.arenas[q])) && Apart(r.arenas)
  {
    hide BlockAt, BlockSize, BlocksPerArena, Settled, AtBlock, LiveOk, FreeIndexes, IndexOf, ListOk;
    var r := Give(h, b, d);
    LiveArena(h, b);
    forall q | q in r.arenas ensures ArenaOk(r, q, r.arenas[q]) {
      assert ArenaOk(h, q, h.arenas[q]);
      PushIndexes(h.free[d], b, d, q);
      if r.arenas[q].Big? {
        assert 4096 * q + 12 != b;
      }
    }
    forall p, q | p in r.arenas && q in r.arenas && p < q ensures p + Pages(r.arenas[p]) <= q {
      assert Pages(r.arenas[p]) == Pages(h.arenas[p]);
    }
  }

  lemma GiveLists(h: Heap, b: nat, d: nat)
    requires Sound(h) && b in h.live && IsSmall(h.arenas, b / 4096, d)
    ensures var r := Give(h, b, d); forall e: nat | e < DESCS :: ListOk(r.arenas, r.free[e], e)
  {
    hide BlockAt, BlockSize, BlocksPerArena, Settled, AtBlock, LiveOk, FreeIndexes, IndexOf, ArenaOk, Apart;
    var r := Give(h, b, d);
    LiveArena(h, b);
    forall e: nat | e < DESCS ensures ListOk(r.arenas, r.free[e], e) {
      assert ListOk(h.arenas, h.free[e], e);
    }
  }

  lemma GiveSettled(h: Heap, b: nat, d: nat)
    requires Sound(h) && b in h.live && IsSmall(h.arenas, b / 4096, d)
    ensures Settled(Give(h, b, d))
  {
    hide BlockAt, BlockSize, BlocksPerArena, AtBlock, LiveOk, FreeIndexes, IndexOf, ArenaOk, Apart, ListOk;
    var r := Give(h, b, d);
    LiveArena(h, b);
    forall p: nat, e: nat, i: nat | IsSmall(r.arenas, p, e) && i < BlocksPerArena(e)
      ensures BlockAt(p, e, i) in r.free[e] <==> BlockAt(p, e, i) !in r.live
    {
      assert IsSmall(h.arenas, p, e);
      if e != d {
        BlockIsAt(p, e, i);
      }
    }
  }

  lemma GiveLive(h: Heap, b: nat, d: nat)
    requires Sound(h) && b in h.live && IsSmall(h.arenas, b / 4096, d)
    ensures var r := Give(h, b, d); forall c | c in r.live :: LiveOk(r.arenas, c, r.live[c])
  {
    hide BlockAt, BlockSize, BlocksPerArena, AtBlock, FreeIndexes, IndexOf, ArenaOk, Apart, ListOk, Settled;
    var r := Give(h, b, d);
    forall c | c in r.live ensures LiveOk(r.arenas, c, r.live[c]) {
      assert LiveOk(h.arenas, c, h.live[c]);
    }
  }

  lemma {:induction false} DroppedBlocks(list: seq<nat>, p: nat, d: nat, n: nat)
    requires d < DESCS && n <= BlocksPerArena(d) && Distinct(list)
    ensures var r := DropBlocks(list, p, d, n);
      Distinct(r) && forall b :: b in r <==> b in list && !(exists i: nat :: i < n && b == BlockAt(p, d, i))
  {
    hide BlockAt, BlocksPerArena;
    if n > 0 {
      DroppedBlocks(list, p, d, n - 1);
      WithoutElements(DropBlocks(list, p, d, n - 1), BlockAt(p, d, n - 1));
    }
  }

  /** Dropping an arena takes its own blocks off the list and no others. */
  lemma DroppedHere(h: Heap, p: nat, d: nat)
    requires Sound(h) && IsSmall(h.arenas, p, d)
    ensures var list := DropArena(h, p, d).free[d];
      Distinct(list) && forall b :: b in list <==> b in h.free[d] && b / 4096 != p
  {
    hide BlockAt, BlockSize, BlocksPerArena, LiveOk, FreeIndexes, IndexOf, ArenaOk, Apart, Settled;
    assert ListOk(h.arenas, h.free[d], d);
    var list := DropArena(h, p, d).free[d];
    DroppedBlocks(h.free[d], p, d, BlocksPerArena(d));
    forall b | b in h.free[d] ensures b in list <==> b / 4096 != p {
      if b / 4096 == p {
        assert b == BlockAt(p, d, IndexOf(b, d));
      } else if b !in list {
        var i: nat :| i < BlocksPerArena(d) && b == BlockAt(p, d, i);
        BlockIsAt(p, d, i);
      }
    }
  }

  lemma DropKeeps(h: Heap, p: nat, d: nat)
    requires Sound(h) && IsSmall(h.arenas, p, d) && h.arenas[p].freeCnt >= BlocksPerArena(d)
    ensures var r := DropArena(h, p, d); Sound(r) && r.live == h.live && r.arenas == h.arenas - {p}
    ensures h.arenas[p].freeCnt == BlocksPerArena(d) && forall b | b in h.live :: b / 4096 != p
  {
    hide BlockAt, BlockSize, BlocksPerArena, Settled, AtBlock, LiveOk, ArenaOk, FreeIndexes, IndexOf, ListOk, Apart;
    AllBlocksFree(h, p, d);
    DropArenas(h, p, d);
    DropSettled(h, p, d);
    DropLists(h, p, d);
    DropLive(h, p, d);
  }

  lemma AllBlocksFree(h: Heap, p: nat, d: nat)
    requires Sound(h) && IsSmall(h.arenas, p, d) && h.arenas[p].freeCnt >= BlocksPerArena(d)
    ensures h.arenas[p].freeCnt == BlocksPerArena(d) && forall b | b in h.live :: b / 4096 != p
  {
    hide BlockAt, BlockSize, BlocksPerArena, FreeIndexes, IndexOf, ListOk, Apart;
    assert ArenaOk(h, p, h.arenas[p]);
    IndexesBounded(h.free[d], p, d);
    assert forall i: nat | i < BlocksPerArena(d) :: BlockAt(p, d, i) !in h.live;
    forall b | b in h.live ensures b / 4096 != p {
      assert LiveOk(h.arenas, b, h.live[b]);
    }
  }

  lemma DropArenas(h: Heap, p: nat, d: nat)
    requires Sound(h) && IsSmall(h.arenas, p, d)
    ensures var r := DropArena(h, p, d); (forall q | q in r.arenas :: ArenaOk(r, q, r.arenas[q])) && Apart(r.arenas)
  {
    hide BlockAt, BlockSize, BlocksPerArena, Settled, AtBlock, LiveOk, IndexOf, ListOk;
    var r := DropArena(h, p, d);
    DroppedHere(h, p, d);
    forall q | q in r.arenas ensures ArenaOk(r, q, r.arenas[q]) {
      assert ArenaOk(h, q, h.arenas[q]);
      if r.arenas[q].Small? && r.arenas[q].d == d {
        DropIndexes(h, p, d, q);
      }
    }
  }

  lemma DropIndexes(h: Heap, p: nat, d: nat, q: nat)
    requires Sound(h) && IsSmall(h.arenas, p, d) && q != p
    ensures FreeIndexes(DropArena(h, p, d).free[d], q, d) == FreeIndexes(h.free[d], q, d)
  {
    hide BlockAt, BlockSize, BlocksPerArena, Settled, AtBlock, LiveOk, IndexOf, ListOk, ArenaOk, Apart;
    DroppedHere(h, p, d);
    forall i: nat | i < BlocksPerArena(d) ensures BlockAt(q, d, i) / 4096 == q {
      BlockIsAt(q, d, i);
    }
  }

  lemma DropSettled(h: Heap, p: nat, d: nat)
    requires Sound(h) && IsSmall(h.arenas, p, d)
    ensures Settled(DropArena(h, p, d))
  {
    hide BlockAt, BlockSize, BlocksPerArena, AtBlock, LiveOk, IndexOf, ListOk, ArenaOk, Apart, FreeIndexes;
    var r := DropArena(h, p, d);
    DroppedHere(h, p, d);
    forall q: nat, e: nat, i: nat | IsSmall(r.arenas, q, e) && i < BlocksPerArena(e)
      ensures BlockAt(q, e, i) in r.free[e] <==> BlockAt(q, e, i) !in r.live
    {
      assert IsSmall(h.arenas, q, e);
      BlockIsAt(q, e, i);
    }
  }

  lemma DropLists(h: Heap, p: nat, d: nat)
    requires Sound(h) && IsSmall(h.arenas, p, d)
    ensures var r := DropArena(h, p, d); forall e: nat | e < DESCS :: ListOk(r.arenas, r.free[e], e)
  {
    hide BlockAt, BlockSize, BlocksPerArena, AtBlock, LiveOk, IndexOf, ArenaOk, Apart, FreeIndexes, Settled;
    var r := DropArena(h, p, d);
    DroppedHere(h, p, d);
    forall e: nat | e < DESCS ensures ListOk(r.arenas, r.free[e], e) {
      assert ListOk(h.arenas, h.free[e], e);
    }
  }

  lemma DropLive(h: Heap, p: nat, d: nat)
    requires Sound(h) && IsSmall(h.arenas, p, d) && forall b | b in h.live :: b / 4096 != p
    ensures var r := DropArena(h, p, d); forall c | c in r.live :: LiveOk(r.arenas, c, r.live[c])
  {
    hide BlockAt, BlockSize, BlocksPerArena, AtBlock, FreeIndexes, IndexOf, ArenaOk, Apart, ListOk, Settled;
    var r := DropArena(h, p, d);
    forall c | c in r.live ensures LiveOk(r.arenas, c, r.live[c]) {
      assert LiveOk(h.arenas, c, h.live[c]);
    }
  }

  /** free keeps the books: the block is no longer in use, and every other is; an arena whose
      last block it was is given back. */
  lemma FreeKeeps(h: Heap, b: nat)
    requires Inv(h) && b in h.live
    ensures b / 4096 in h.arenas && (h.arenas[b / 4096].Small? ==> h.arenas[b / 4096].d < DESCS)
    ensures var r := FreeCall(h, b); Inv(r) && r.live == h.live - {b}
  {
    hide BlockAt, BlockSize, BlocksPerArena, Sound, Settled, FreeIndexes, AtBlock;
    LiveArena(h, b);
    SoundLists(h);
    var p := b / 4096;
    match h.arenas[p] {
      case Small(d, freeCnt) =>
        GiveKeeps(h, b, d);
        if freeCnt + 1 >= BlocksPerArena(d) {
          DropKeeps(Give(h, b, d), p, d);
        }
      case Big(pages) => FreeBig(h, b);
    }
  }

  lemma FreeBig(h: Heap, b: nat)
    requires Inv(h) && b in h.live && b / 4096 in h.arenas && h.arenas[b / 4096].Big?
    ensures Inv(h.(arenas := h.arenas - {b / 4096}, live := h.live - {b}))
  {
    hide BlockAt, BlockSize, BlocksPerArena, AtBlock, FreeIndexes, Settled, LiveOk, ListOk, ArenaOk;
    LiveArena(h, b);
    FreeBigArenas(h, b, b / 4096);
    FreeBigLive(h, b, b / 4096);
    FreeBigLists(h, b);
    FreeBigSettled(h, b);
  }

  lemma FreeBigArenas(h: Heap, b: nat, p: nat)
    requires Sound(h) && b in h.live && p in h.arenas && h.arenas[p].Big? && b == 4096 * p + 12
    ensures var r := h.(arenas := h.arenas - {p}, live := h.live - {b});
      forall q | q in r.arenas :: ArenaOk(r, q, r.arenas[q])
  {
    hide BlockAt, BlockSize, BlocksPerArena, AtBlock, FreeIndexes, Settled, ListOk, Apart, LiveOk;
    var r := h.(arenas := h.arenas - {p}, live := h.live - {b});
    forall q | q in r.arenas ensures ArenaOk(r, q, r.arenas[q]) {
      assert ArenaOk(h, q, h.arenas[q]);
    }
  }

  lemma FreeBigLive(h: Heap, b: nat, p: nat)
    requires Sound(h) && b in h.live && p in h.arenas && h.arenas[p].Big? && b == 4096 * p + 12
    ensures forall c | c in h.live && c != b :: LiveOk(h.arenas - {p}, c, h.live[c])
  {
    hide BlockAt, BlockSize, BlocksPerArena, AtBlock, FreeIndexes, Settled, ListOk, Apart, ArenaOk;
    forall c | c in h.live && c != b ensures LiveOk(h.arenas - {p}, c, h.live[c]) {
      assert LiveOk(h.arenas, c, h.live[c]);
      assert c / 4096 != p;
    }
  }

  lemma FreeBigLists(h: Heap, b: nat)
    requires Sound(h) && b in h.live && b / 4096 in h.arenas && h.arenas[b / 4096].Big?
    ensures forall e: nat | e < DESCS :: ListOk(h.arenas - {b / 4096}, h.free[e], e)
  {
    hide BlockAt, BlockSize, BlocksPerArena, AtBlock, FreeIndexes, Settled, LiveOk, ArenaOk, Apart;
    forall e: nat | e < DESCS ensures ListOk(h.arenas - {b / 4096}, h.free[e], e) {
      assert ListOk(h.arenas, h.free[e], e);
    }
  }

  lemma FreeBigSettled(h: Heap, b: nat)
    requires Sound(h) && b in h.live && b / 4096 in h.arenas && h.arenas[b / 4096].Big?
    ensures Settled(h.(arenas := h.arenas - {b / 4096}, live := h.live - {b}))
  {
    hide BlockAt, BlockSize, BlocksPerArena, AtBlock, FreeIndexes, ArenaOk, LiveOk, ListOk, Apart;
    var r := h.(arenas := h.arenas - {b / 4096}, live := h.live - {b});
    forall q: nat, e: nat, i: nat | IsSmall(r.arenas, q, e) && i < BlocksPerArena(e)
      ensures BlockAt(q, e, i) in r.free[e] <==> BlockAt(q, e, i) !in r.live
    {
      assert IsSmall(h.arenas, q, e);
      BlockIsAt(q, e, i);
    }
  }
}
