/** The two pools of pages (threads/palloc.c), uninterrupted: their layout in memory, and the calls
    that take and give back pages. Palloc is about interruptions. Pages go by their numbers. */
module PageAllocator {
  import opened Bytes
  import opened Options
  import opened Bitmap

  const PGSIZE: nat := 4096

  type Page = p: seq<Byte> | |p| == PGSIZE witness seq(PGSIZE, i => 0)

  const CLEAR: Page := seq(PGSIZE, i => 0)
  const POISON: Page := seq(PGSIZE, i => 0xcc)

  // ---- layout ----

  /** bitmap_buf_size: struct bitmap is 8 bytes. */
  function BufSize(bitCnt: nat): nat { 8 + 4 * ElemCnt(bitCnt) }

  function RoundUp(n: nat): nat { (n + 4095) / 4096 }

  /** init_pool: where the pool's own pages start and how many there are, behind its bitmap; or a
      panic. */
  datatype Place = Place(base: nat, pages: nat)

  function InitPool(base: nat, pageCnt: nat): Option<Place> {
    var bm := RoundUp(BufSize(pageCnt));
    if bm > pageCnt then None else Some(Place(base + bm, pageCnt - bm))
  }

  /** palloc_init, for RAM of `ram` pages: the kernel's pool and the user's. */
  function Layout(ram: nat, userLimit: nat): Option<(Place, Place)>
    requires ram >= 256
  {
    var free := ram - 256;
    var user := if free / 2 > userLimit then userLimit else free / 2;
    var k, u := InitPool(256, free - user), InitPool(256 + (free - user), user);
    if k.None? || u.None? then None else Some((k.value, u.value))
  }

  /** Each bitmap fits between where its pool's memory starts and its pool's first page; the pools
      lie one behind the other between 1 MB and the end of RAM, and together with the bitmaps they
      are all of it. */
  lemma LayoutFits(ram: nat, userLimit: nat)
    requires ram >= 256 && Layout(ram, userLimit).Some?
    ensures var (k, u) := Layout(ram, userLimit).value; var free := ram - 256;
      var user := if free / 2 > userLimit then userLimit else free / 2;
      && 256 * PGSIZE + BufSize(k.pages) <= PGSIZE * k.base
      && PGSIZE * (k.base + k.pages) + BufSize(u.pages) <= PGSIZE * u.base
      && k.base + k.pages == 256 + (free - user) && u.base + u.pages == ram
      && u.pages <= userLimit
  {
    var free := ram - 256;
    var user := if free / 2 > userLimit then userLimit else free / 2;
    PoolFits(256, free - user);
    PoolFits(256 + (free - user), user);
  }

  lemma PoolFits(base: nat, pageCnt: nat)
    ensures InitPool(base, pageCnt).Some? ==>
      var p := InitPool(base, pageCnt).value;
      PGSIZE * base + BufSize(p.pages) <= PGSIZE * p.base && p.base + p.pages == base + pageCnt && p.pages <= pageCnt
  {
    if InitPool(base, pageCnt).Some? {
      var p := InitPool(base, pageCnt).value;
      assert (p.pages + 31) / 32 <= (pageCnt + 31) / 32;
    }
  }

  // ---- pools ----

  class Pool {
    const usedMap: BitMap
    const base: nat

    constructor (place: Place, memory: seq<bv32>)
      requires |memory| == ElemCnt(place.pages)
      ensures base == place.base && usedMap.bitCnt == place.pages && fresh(usedMap) && fresh(usedMap.bits)
      ensures usedMap.Valid() && usedMap.View() == seq(place.pages, i => false)
    {
      usedMap := new BitMap.Create(place.pages, memory);
      base := place.base;
    }

    method Take(cnt: nat) returns (run: Option<nat>)
      requires usedMap.Valid()
      modifies usedMap.bits
      ensures Taken(old(usedMap.View()), usedMap.View(), run, cnt)
      ensures run.Some? ==> run.value + cnt <= usedMap.bitCnt
    {
      ScanFindsLowest(usedMap.View(), 0, cnt, false);
      run := usedMap.ScanAndFlip(0, cnt, false);
    }

    /** page_from_pool */
    predicate Has(page: nat) {
      base <= page < base + usedMap.bitCnt
    }
  }

  /** A free run of pages taken, and what is in them, if they are to be cleared. */
  ghost predicate Taken(before: seq<bool>, after: seq<bool>, run: Option<nat>, cnt: nat) {
    run == Scan(before, 0, cnt, false) && after == if run.Some? then Mark(before, run.value, cnt, true) else before
  }

  class Allocator {
    const kernel: Pool
    const user: Pool
    const memory: array<Page>

    ghost predicate Valid() {
      && kernel.usedMap.Valid() && user.usedMap.Valid() && kernel.usedMap.bits != user.usedMap.bits
      && memory as object != kernel.usedMap.bits && memory as object != user.usedMap.bits
      && kernel.base + kernel.usedMap.bitCnt <= user.base
      && user.base + user.usedMap.bitCnt <= memory.Length
    }

    /** palloc_init, when it does not panic */
    constructor (ram: nat, userLimit: nat, noise: seq<bv32>, noise': seq<bv32>)
      requires ram >= 256 && Layout(ram, userLimit).Some?
      requires |noise| == ElemCnt(Layout(ram, userLimit).value.0.pages)
      requires |noise'| == ElemCnt(Layout(ram, userLimit).value.1.pages)
      ensures Valid() && fresh(kernel.usedMap.bits) && fresh(user.usedMap.bits) && fresh(memory) && memory.Length == ram
      ensures kernel.usedMap.View() == seq(kernel.usedMap.bitCnt, i => false)
      ensures user.usedMap.View() == seq(user.usedMap.bitCnt, i => false)
    {
      LayoutFits(ram, userLimit);
      var (k, u) := Layout(ram, userLimit).value;
      kernel := new Pool(k, noise);
      user := new Pool(u, noise');
      memory := new Page[ram](i => CLEAR);
    }

    /** palloc_get_multiple without PAL_ASSERT: the first run of free pages in the pool that is long
        enough is taken, and cleared if that is asked for; no other page changes. */
    method GetMultiple(fromUser: bool, zero: bool, cnt: nat) returns (pages: Option<nat>)
      requires Valid()
      modifies kernel.usedMap.bits, user.usedMap.bits, memory
      ensures cnt == 0 ==> pages == None && kernel.usedMap.View() == old(kernel.usedMap.View())
                           && user.usedMap.View() == old(user.usedMap.View()) && memory[..] == old(memory[..])
      ensures cnt > 0 ==>
        var pool, other := if fromUser then user else kernel, if fromUser then kernel else user;
        && (pages.Some? ==> pool.Has(pages.value) && pages.value + cnt <= pool.base + pool.usedMap.bitCnt)
        && Taken(old(pool.usedMap.View()), pool.usedMap.View(),
                 if pages.Some? then Some(pages.value - pool.base) else None, cnt)
        && other.usedMap.View() == old(other.usedMap.View())
        && memory[..] == Filled(old(memory[..]), pages, if zero then cnt else 0, CLEAR)
    {
      hide BitMap.View, Taken, Filled;
      NothingFilled(memory[..], None, CLEAR);
      if cnt == 0 {
        return None;
      }
      var pool := if fromUser then user else kernel;
      var run := pool.Take(cnt);
      pages := if run.Some? then Some(pool.base + run.value) else None;
      if pages.Some? {
        NothingFilled(memory[..], pages, CLEAR);
        if zero {
          Fill(pages.value, cnt, CLEAR);
        }
      }
    }

    /** memset */
    method Fill(start: nat, cnt: nat, page: Page)
      requires start + cnt <= memory.Length
      modifies memory
      ensures memory[..] == Filled(old(memory[..]), Some(start), cnt, page)
    {
      forall k | start <= k < start + cnt {
        memory[k] := page;
      }
    }

    /** palloc_free_multiple of pages that were taken from one pool: they are free again, and
        overwritten; no other page changes. */
    method FreeMultiple(pages: nat, cnt: nat)
      requires Valid() && (kernel.Has(pages) || user.Has(pages))
      requires var pool := if kernel.Has(pages) then kernel else user;
        AllAre(pool.usedMap.View(), pages - pool.base, cnt, true)
      modifies kernel.usedMap.bits, user.usedMap.bits, memory
      ensures var pool, other := if kernel.Has(pages) then kernel else user, if kernel.Has(pages) then user else kernel;
        && pool.usedMap.View() == Mark(old(pool.usedMap.View()), pages - pool.base, cnt, false)
        && other.usedMap.View() == old(other.usedMap.View())
        && memory[..] == Filled(old(memory[..]), Some(pages), cnt, POISON)
    {
      hide BitMap.View, Filled;
      var pool := if kernel.Has(pages) then kernel else user;
      ViewLength(pool.usedMap);
      if cnt == 0 {
        NothingFilled(memory[..], Some(pages), POISON);
        NothingMarked(pool.usedMap.View(), pages - pool.base);
        return;
      }
      var pageIdx: nat := pages - pool.base;
      Fill(pages, cnt, POISON);
      pool.usedMap.SetMultiple(pageIdx, cnt, false);
    }
  }

  function Filled(m: seq<Page>, start: Option<nat>, cnt: nat, page: Page): (r: seq<Page>)
    ensures |r| == |m|
  {
    seq(|m|, k requires 0 <= k < |m| => if start.Some? && start.value <= k < start.value + cnt then page else m[k])
  }

  lemma NothingFilled(m: seq<Page>, start: Option<nat>, page: Page)
    ensures Filled(m, start, 0, page) == m && forall cnt: nat :: Filled(m, None, cnt, page) == m
  {
  }

  lemma ViewLength(b: BitMap)
    requires b.Valid()
    ensures |b.View()| == b.bitCnt
  {
  }

  lemma NothingMarked(m: seq<bool>, start: nat)
    ensures Mark(m, start, 0, false) == m
  {
  }

  /** Giving back what a call took leaves the pool as it was before the call. */
  lemma FreeUndoesGet(m: seq<bool>, cnt: nat)
    requires Scan(m, 0, cnt, false).Some?
    ensures var run := Scan(m, 0, cnt, false).value; var r := Mark(m, run, cnt, true);
      AllAre(r, run, cnt, true) && Mark(r, run, cnt, false) == m
  {
    ScanFindsLowest(m, 0, cnt, false);
  }
}
