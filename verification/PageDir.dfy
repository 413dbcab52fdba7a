/** Two-level page tables (userprog/pagedir.c, threads/pte.h) as a map from user page numbers to
    page table entries, and load_segment (userprog/process.c) on top. A page directory or table is
    a page of 1024 words; a frame is named by its number. The entry format is that of section
    3.7.6 of the IA-32 manual, volume 3A. */
module PageDir {
  import opened Bytes
  import opened Nonlinear
  import opened Options
  import opened Sequences

  /** pd_no (PHYS_BASE): the first directory entry of the kernel's half. */
  const KERNEL_HALF: nat := 768

  /** Page numbers below PHYS_BASE. */
  const USER_PAGES: nat := 768 * 1024

  type Table = t: seq<nat> | |t| == 1024 witness seq(1024, i => 0)

  const ZEROS: Table := seq(1024, i => 0)

  /** PTE_P */
  predicate Present(w: nat) { w % 2 == 1 }

  /** The frame in PTE_ADDR. */
  function FrameOf(w: nat): nat { w / 4096 }

  /** pde_create: present, writable, user */
  function PdeCreate(frame: nat): nat { frame * 4096 + 7 }

  /** pte_create_user */
  function PteCreateUser(frame: nat, writable: bool): nat {
    frame * 4096 + 5 + if writable then 2 else 0
  }

  lemma EntryBits(frame: nat, writable: bool)
    ensures Present(PdeCreate(frame)) && FrameOf(PdeCreate(frame)) == frame
    ensures var w := PteCreateUser(frame, writable);
      Present(w) && FrameOf(w) == frame && (w / 2 % 2 == 1 <==> writable) && w / 4 % 2 == 1
  {
    FlagBits(frame, 7);
    FlagBits(frame, if writable then 7 else 5);
  }

  lemma FlagBits(frame: nat, flags: nat)
    requires flags == 5 || flags == 7
    ensures var w := frame * 4096 + flags;
      w % 2 == 1 && w / 4096 == frame && w / 2 % 2 == flags / 2 % 2 && w / 4 % 2 == 1
  {
    var w := frame * 4096 + flags;
    DivUnique(w, 4096, frame);
    Halves(w, 2048 * frame + flags / 2, 1);
    Halves(2048 * frame + flags / 2, 1024 * frame + 1, flags / 2 % 2);
    DivUnique(w, 4, 1024 * frame + 1);
    Halves(1024 * frame + 1, 512 * frame, 1);
  }

  lemma Halves(w: nat, half: nat, bit: nat)
    requires w == 2 * half + bit && bit < 2
    ensures w / 2 == half && w % 2 == bit
  {
  }

  /** The word for a user page, 0 if there is no table for it. */
  function EntryAt(dir: Table, tables: map<nat, Table>, n: nat): nat
    requires n < USER_PAGES
  {
    if dir[n / 1024] == 0 then 0
    else if FrameOf(dir[n / 1024]) in tables then tables[FrameOf(dir[n / 1024])][n % 1024] else 0
  }

  /** Each entry of the user half is 0 or points to a table of its own. */
  ghost predicate DirOk(dir: Table, tables: map<nat, Table>) {
    && (forall i | 0 <= i < KERNEL_HALF && dir[i] != 0 :: Present(dir[i]) && FrameOf(dir[i]) in tables)
    && (forall i, j | 0 <= i < KERNEL_HALF && 0 <= j < 1024 && i != j && dir[i] != 0 && dir[j] != 0 ::
          FrameOf(dir[i]) != FrameOf(dir[j]))
  }

  /** Nothing of the kernel's half has changed: neither its entries nor the tables they point to. */
  ghost predicate KernelSame(dir: Table, tables: map<nat, Table>, dir': Table, tables': map<nat, Table>) {
    && dir'[KERNEL_HALF..] == dir[KERNEL_HALF..]
    && forall i | KERNEL_HALF <= i < 1024 && dir[i] != 0 && FrameOf(dir[i]) in tables ::
         FrameOf(dir[i]) in tables' && tables'[FrameOf(dir[i])] == tables[FrameOf(dir[i])]
  }

  /** A page directory, the tables in memory, and the frame the directory itself is in. */
  class PageDirectory {
    var dir: Table
    var tables: map<nat, Table>
    const frame: nat

    ghost predicate Valid()
      reads this
    {
      DirOk(dir, tables) && frame !in tables && (forall i | 0 <= i < 1024 && dir[i] != 0 :: FrameOf(dir[i]) != frame)
    }

    ghost function Entry(n: nat): nat
      requires n < USER_PAGES
      reads this
    {
      EntryAt(dir, tables, n)
    }

    /** pagedir_create: the kernel's mappings and no others. */
    constructor Create(initDir: Table, tables: map<nat, Table>, frame: nat)
      requires (forall i | 0 <= i < KERNEL_HALF :: initDir[i] == 0)
      requires frame !in tables && forall i | 0 <= i < 1024 && initDir[i] != 0 :: FrameOf(initDir[i]) != frame
      ensures Valid() && this.frame == frame && dir == initDir && this.tables == tables
      ensures forall n: nat | n < USER_PAGES :: EntryAt(dir, tables, n) == 0
      ensures Apart(dir, tables, frame)
    {
      ZeroAbsent();
      this.frame := frame;
      dir := initDir;
      this.tables := tables;
    }

    /** lookup_page: where the word for a page is, if there is a table for it; with `create` a new
        table, in `free`, may be put in. */
    method LookupPage(n: nat, create: bool, free: Option<nat>) returns (at: Option<(nat, nat)>)
      requires Valid() && n < USER_PAGES
      requires free.Some? ==> NewFrame(free.value)
      modifies this
      ensures Valid() && KernelSame(old(dir), old(tables), dir, tables)
      ensures forall m: nat | m < USER_PAGES :: EntryAt(dir, tables, m) == EntryAt(old(dir), old(tables), m)
      ensures at.Some? ==> at.value == (FrameOf(dir[n / 1024]), n % 1024) && dir[n / 1024] != 0 && at.value.0 in tables
      ensures at.None? ==> dir == old(dir) && tables == old(tables) && dir[n / 1024] == 0
      ensures at.None? && create ==> free.None?
      ensures !create || old(dir[n / 1024]) != 0 ==> dir == old(dir) && tables == old(tables)
      ensures at.Some? && old(dir[n / 1024]) == 0 ==>
        create && free.Some? && dir == old(dir)[n / 1024 := PdeCreate(free.value)]
        && tables == old(tables)[free.value := ZEROS]
    {
      hide Present, FrameOf, PdeCreate;
      var i := n / 1024;
      if dir[i] == 0 {
        if !create {
          return None;
        }
        if free == None {
          return None;
        }
        EntryBits(free.value, true);
        TableAdded(dir, tables, i, free.value);
        tables := tables[free.value := ZEROS];
        dir := dir[i := PdeCreate(free.value)];
      }
      return Some((FrameOf(dir[i]), n % 1024));
    }

    /** What the page allocator gives: no table, nor pointed to by the directory. */
    ghost predicate NewFrame(f: nat)
      reads this
    {
      f !in tables && f != frame && PdeCreate(f) != 0 && forall i | 0 <= i < 1024 && dir[i] != 0 :: FrameOf(dir[i]) != f
    }

    /** pagedir_set_page */
    method SetPage(n: nat, kpage: nat, writable: bool, free: Option<nat>) returns (ok: bool)
      requires Valid() && n < USER_PAGES && !Present(Entry(n))
      requires free.Some? ==> NewFrame(free.value)
      modifies this
      ensures Valid() && KernelSame(old(dir), old(tables), dir, tables)
      ensures forall m: nat | m < USER_PAGES ::
        EntryAt(dir, tables, m)
        == if ok && m == n then PteCreateUser(kpage, writable) else EntryAt(old(dir), old(tables), m)
      ensures !ok ==> dir == old(dir) && tables == old(tables) && free.None? && dir[n / 1024] == 0
      ensures ok ==> dir[n / 1024] != 0 && FrameOf(dir[n / 1024]) in tables
      ensures ok && old(dir[n / 1024]) != 0 ==> dir == old(dir) && tables.Keys == old(tables).Keys
      ensures ok && old(dir[n / 1024]) == 0 ==>
        free.Some? && dir == old(dir)[n / 1024 := PdeCreate(free.value)]
        && tables.Keys == old(tables).Keys + {free.value}
      ensures (old(Apart(dir, tables, frame) && IsFresh(kpage) && (free.Some? ==> IsFresh(free.value)))
               && free != Some(kpage)) ==> Apart(dir, tables, frame)
      ensures forall f |
        Fresh(old(dir), old(tables), frame, f) && f != kpage && (old(dir[n / 1024]) == 0 ==> free != Some(f)) ::
        Fresh(dir, tables, frame, f)
    {
      hide Present, FrameOf, PdeCreate, PteCreateUser;
      ghost var dir0, tables0 := dir, tables;
      var at := LookupPage(n, true, free);
      ok := at.Some?;
      if ok {
        WriteEntry(n, at.value, PteCreateUser(kpage, writable));
        EntryBits(kpage, writable);
        if old(dir[n / 1024]) == 0 {
          EntryBits(free.value, true);
        }
        MappedApart(dir0, tables0, dir, tables, frame, n, PteCreateUser(kpage, writable), free);
      }
    }

    ghost predicate IsFresh(f: nat)
      reads this
    {
      Fresh(dir, tables, frame, f)
    }

    /** The store through the pointer lookup_page returned. */
    method WriteEntry(n: nat, at: (nat, nat), w: nat)
      requires Valid() && n < USER_PAGES && dir[n / 1024] != 0
      requires at == (FrameOf(dir[n / 1024]), n % 1024) && at.0 in tables
      modifies `tables
      ensures Valid() && KernelSame(old(dir), old(tables), dir, tables) && tables.Keys == old(tables).Keys
      ensures forall m: nat | m < USER_PAGES ::
        EntryAt(dir, tables, m) == if m == n then w else EntryAt(old(dir), old(tables), m)
    {
      hide Present, FrameOf;
      EntryWritten(dir, tables, n, w);
      tables := tables[at.0 := tables[at.0][at.1 := w]];
    }

    /** pagedir_get_page: the frame, if the page is present. */
    method GetPage(n: nat) returns (kpage: Option<nat>)
      requires Valid() && n < USER_PAGES
      modifies this
      ensures dir == old(dir) && tables == old(tables)
      ensures kpage == if Present(Entry(n)) then Some(FrameOf(Entry(n))) else None
    {
      var at := LookupPage(n, false, None);
      if at.Some? && Present(tables[at.value.0][at.value.1]) {
        return Some(FrameOf(tables[at.value.0][at.value.1]));
      }
      return None;
    }

    /** pagedir_clear_page: not present, with all other bits kept. */
    method ClearPage(n: nat)
      requires Valid() && n < USER_PAGES
      modifies this
      ensures Valid() && KernelSame(old(dir), old(tables), dir, tables)
      ensures forall m: nat | m < USER_PAGES ::
        var w := EntryAt(old(dir), old(tables), m);
        EntryAt(dir, tables, m) == if m == n && Present(w) then w - 1 else w
      ensures old(Apart(dir, tables, frame)) ==> Apart(dir, tables, frame)
      ensures forall f | Fresh(old(dir), old(tables), frame, f) :: Fresh(dir, tables, frame, f)
    {
      hide Present, FrameOf;
      ghost var dir0, tables0 := dir, tables;
      ZeroAbsent();
      var at := LookupPage(n, false, None);
      if at.Some? && Present(tables[at.value.0][at.value.1]) {
        var w := tables[at.value.0][at.value.1];
        Cleared(w);
        WriteEntry(n, at.value, w - 1);
        MappedApart(dir0, tables0, dir, tables, frame, n, w - 1, None);
      }
    }

    /** pagedir_destroy: the frames it gives back, in order. */
    method Destroy() returns (freed: seq<nat>)
      requires Valid()
      ensures freed == FreedTables(dir[..KERNEL_HALF], tables) + [frame]
      ensures Apart(dir, tables, frame) ==> Distinct(freed)
    {
      hide Present, FrameOf, FreedPages, Distinct, Apart;
      freed := [];
      for i := 0 to KERNEL_HALF
        invariant freed == FreedTables(dir[..i], tables)
      {
        TablesStep(dir, tables, i);
        if Present(dir[i]) {
          ZeroAbsent();
          var pt := FrameOf(dir[i]);
          var pages := FreeTable(tables[pt]);
          freed := freed + (pages + [pt]);
        }
      }
      freed := freed + [frame];
      if Apart(dir, tables, frame) {
        FreedOnce(dir, tables, frame);
      }
    }

    static method FreeTable(t: Table) returns (freed: seq<nat>)
      ensures freed == FreedPages(t)
    {
      hide Present, FrameOf;
      freed := [];
      for j := 0 to 1024
        invariant freed == FreedPages(t[..j])
      {
        assert t[..j + 1][..j] == t[..j];
        if Present(t[j]) {
          freed := freed + [FrameOf(t[j])];
        }
      }
      assert t[..1024] == t;
    }
  }

  lemma ZeroAbsent()
    ensures !Present(0)
  {
  }

  lemma Cleared(w: nat)
    requires Present(w)
    ensures w > 0 && !Present(w - 1)
  {
  }

  // ---- no frame used twice ----

  /** Frame `f` is neither the directory nor a table of the user half. */
  ghost predicate NoTable(dir: Table, frame: nat, f: nat) {
    f != frame && forall i: nat | i < KERNEL_HALF && dir[i] != 0 :: FrameOf(dir[i]) != f
  }

  /** No two user pages are in one frame, nor is a page in the frame of a table or the directory. */
  ghost predicate Apart(dir: Table, tables: map<nat, Table>, frame: nat) {
    && (forall m: nat, n: nat | m < n < USER_PAGES && Present(EntryAt(dir, tables, m))
                        && Present(EntryAt(dir, tables, n)) ::
          FrameOf(EntryAt(dir, tables, m)) != FrameOf(EntryAt(dir, tables, n)))
    && (forall n: nat | n < USER_PAGES && Present(EntryAt(dir, tables, n)) ::
          NoTable(dir, frame, FrameOf(EntryAt(dir, tables, n))))
  }

  /** What the page allocator gives: a frame that nothing of the directory uses. */
  ghost predicate Fresh(dir: Table, tables: map<nat, Table>, frame: nat, f: nat) {
    && f !in tables && f != frame && (forall i | 0 <= i < 1024 && dir[i] != 0 :: FrameOf(dir[i]) != f)
    && forall n: nat | n < USER_PAGES && Present(EntryAt(dir, tables, n)) :: FrameOf(EntryAt(dir, tables, n)) != f
  }

  /** One word written, and perhaps a table put in: fresh frames keep all apart, and only they are
      used up. */
  lemma MappedApart(dir: Table, tables: map<nat, Table>, dir': Table, tables': map<nat, Table>, frame: nat, n: nat,
                    w: nat, free: Option<nat>)
    requires n < USER_PAGES
    requires forall m: nat | m < USER_PAGES ::
      EntryAt(dir', tables', m) == if m == n then w else EntryAt(dir, tables, m)
    requires if dir[n / 1024] != 0 then dir' == dir && tables'.Keys == tables.Keys
             else free.Some? && tables'.Keys == tables.Keys + {free.value}
                  && dir'[n / 1024] != 0 && FrameOf(dir'[n / 1024]) == free.value
                  && dir' == dir[n / 1024 := dir'[n / 1024]]
    ensures (Apart(dir, tables, frame) && (Present(w) ==> Fresh(dir, tables, frame, FrameOf(w)))
             && (free.Some? ==> Fresh(dir, tables, frame, free.value) && !(Present(w) && FrameOf(w) == free.value)))
            ==> Apart(dir', tables', frame)
    ensures forall f | Fresh(dir, tables, frame, f) && !(Present(w) && FrameOf(w) == f)
                       && (dir[n / 1024] == 0 ==> free != Some(f)) ::
              Fresh(dir', tables', frame, f)
  {
    hide Present, FrameOf, EntryAt;
  }

  /** The frames of the pages present in a table. */
  function FreedPages(t: seq<nat>): seq<nat> {
    if t == [] then []
    else
      var last := |t| - 1;
      FreedPages(t[..last]) + if Present(t[last]) then [FrameOf(t[last])] else []
  }

  /** What pagedir_destroy gives back for one directory entry. */
  function FreedTable(w: nat, tables: map<nat, Table>): seq<nat> {
    if Present(w) && FrameOf(w) in tables then FreedPages(tables[FrameOf(w)]) + [FrameOf(w)] else []
  }

  function FreedTables(d: seq<nat>, tables: map<nat, Table>): seq<nat> {
    if d == [] then [] else FreedTables(d[..|d| - 1], tables) + FreedTable(d[|d| - 1], tables)
  }

  lemma TablesStep(d: seq<nat>, tables: map<nat, Table>, i: nat)
    requires i < |d|
    ensures FreedTables(d[..i + 1], tables) == FreedTables(d[..i], tables) + FreedTable(d[i], tables)
  {
    assert d[..i + 1][..i] == d[..i];
  }

  lemma TableAdded(dir: Table, tables: map<nat, Table>, i: nat, f: nat)
    requires DirOk(dir, tables) && i < KERNEL_HALF && dir[i] == 0 && f !in tables
    requires forall j | 0 <= j < 1024 && dir[j] != 0 :: FrameOf(dir[j]) != f
    ensures var dir', tables' := dir[i := PdeCreate(f)], tables[f := ZEROS];
      && DirOk(dir', tables') && KernelSame(dir, tables, dir', tables')
      && forall m: nat | m < USER_PAGES :: EntryAt(dir', tables', m) == EntryAt(dir, tables, m)
  {
    EntryBits(f, true);
    hide Present, FrameOf;
  }

  lemma EntryWritten(dir: Table, tables: map<nat, Table>, n: nat, w: nat)
    requires DirOk(dir, tables) && n < USER_PAGES && dir[n / 1024] != 0 && FrameOf(dir[n / 1024]) in tables
    ensures var pt := FrameOf(dir[n / 1024]); var tables' := tables[pt := tables[pt][n % 1024 := w]];
      && DirOk(dir, tables') && KernelSame(dir, tables, dir, tables')
      && forall m: nat | m < USER_PAGES :: EntryAt(dir, tables', m) == if m == n then w else EntryAt(dir, tables, m)
  {
    hide Present, FrameOf;
    var pt := FrameOf(dir[n / 1024]);
    var tables' := tables[pt := tables[pt][n % 1024 := w]];
    forall m: nat | m < USER_PAGES
      ensures EntryAt(dir, tables', m) == if m == n then w else EntryAt(dir, tables, m)
    {
      if m / 1024 == n / 1024 {
        SamePage(m, n);
      }
    }
  }

  lemma SamePage(m: nat, n: nat)
    requires m / 1024 == n / 1024
    ensures m % 1024 == n % 1024 <==> m == n
  {
  }

  // ---- each frame given back once ----

  ghost predicate FramesDiffer(t: seq<nat>) {
    forall k, l | 0 <= k < l < |t| && Present(t[k]) && Present(t[l]) :: FrameOf(t[k]) != FrameOf(t[l])
  }

  predicate HasFrame(t: seq<nat>, f: nat) {
    exists k :: 0 <= k < |t| && Present(t[k]) && FrameOf(t[k]) == f
  }

  /** The frames of the pages of a table: which, and each once if no two entries share one. */
  lemma {:induction false} FreedPagesAre(t: seq<nat>)
    ensures forall f :: f in FreedPages(t) <==> HasFrame(t, f)
    ensures FramesDiffer(t) ==> Distinct(FreedPages(t))
  {
    hide Present, FrameOf;
    if t != [] {
      var last := |t| - 1;
      var init := t[..last];
      FreedPagesAre(init);
      assert forall k | 0 <= k < last :: t[k] == init[k];
      assert FramesDiffer(t) ==> FramesDiffer(init);
      if FramesDiffer(t) && Present(t[last]) {
        var pages, x := FreedPages(init), FrameOf(t[last]);
        assert !HasFrame(init, x);
        forall a, b | 0 <= a < |pages| && 0 <= b < 1 ensures pages[a] != [x][b] {
          assert pages[a] in pages;
        }
        DistinctConcat(pages, [x]);
      }
    }
  }

  /** A frame that pagedir_destroy gives back for a directory entry: the table, or a page that is
      present in it. */
  predicate FreedAt(w: nat, tables: map<nat, Table>, f: nat) {
    Present(w) && FrameOf(w) in tables && (f == FrameOf(w) || HasFrame(tables[FrameOf(w)], f))
  }

  /** No frame is used twice: not by two pages, nor by a page and a table, nor by two tables. */
  ghost predicate FramesApart(d: seq<nat>, tables: map<nat, Table>) {
    && (forall i, j, f: nat | 0 <= i < |d| && 0 <= j < |d| && FreedAt(d[i], tables, f) &&
              FreedAt(d[j], tables, f) :: i == j)
    && (forall i | 0 <= i < |d| && Present(d[i]) && FrameOf(d[i]) in tables ::
          FramesDiffer(tables[FrameOf(d[i])]) && !HasFrame(tables[FrameOf(d[i])], FrameOf(d[i])))
  }

  lemma FreedTableIs(w: nat, tables: map<nat, Table>)
    ensures forall f :: f in FreedTable(w, tables) <==> FreedAt(w, tables, f)
    ensures (Present(w) && FrameOf(w) in tables
             && FramesDiffer(tables[FrameOf(w)]) && !HasFrame(tables[FrameOf(w)], FrameOf(w)))
            ==> Distinct(FreedTable(w, tables))
  {
    hide Present, FrameOf, FreedPages, FramesDiffer, HasFrame;
    if Present(w) && FrameOf(w) in tables {
      var pt := FrameOf(w);
      var pages := FreedPages(tables[pt]);
      FreedPagesAre(tables[pt]);
      if FramesDiffer(tables[pt]) && !HasFrame(tables[pt], pt) {
        forall a, b | 0 <= a < |pages| && 0 <= b < 1 ensures pages[a] != [pt][b] {
          assert pages[a] in pages;
        }
        DistinctConcat(pages, [pt]);
      }
    }
  }

  lemma {:induction false} FreedTablesAre(d: seq<nat>, tables: map<nat, Table>)
    requires FramesApart(d, tables)
    ensures forall f :: f in FreedTables(d, tables) <==> exists k :: 0 <= k < |d| && FreedAt(d[k], tables, f)
    ensures Distinct(FreedTables(d, tables))
  {
    hide Present, FrameOf, FreedTable, FreedAt, FramesDiffer, HasFrame;
    if d != [] {
      var last := |d| - 1;
      var init := d[..last];
      assert forall k | 0 <= k < last :: d[k] == init[k];
      FreedTablesAre(init, tables);
      FreedTableIs(d[last], tables);
      var before, here := FreedTables(init, tables), FreedTable(d[last], tables);
      NothingIfAbsent(d[last], tables);
      forall a, b | 0 <= a < |before| && 0 <= b < |here| ensures before[a] != here[b] {
        assert before[a] in before && here[b] in here;
      }
      DistinctConcat(before, here);
    }
  }

  lemma NothingIfAbsent(w: nat, tables: map<nat, Table>)
    ensures !(Present(w) && FrameOf(w) in tables) ==> FreedTable(w, tables) == []
  {
  }

  /** pagedir_destroy gives back each page that is present, each table of the user half, and the
      directory, each exactly once, if no frame was shared. */
  lemma FreedOnce(dir: Table, tables: map<nat, Table>, frame: nat)
    requires DirOk(dir, tables) && frame !in tables && Apart(dir, tables, frame)
    ensures var freed := FreedTables(dir[..KERNEL_HALF], tables) + [frame];
      && Distinct(freed)
      && (forall i: nat | i < KERNEL_HALF && dir[i] != 0 :: FrameOf(dir[i]) in freed)
      && (forall n: nat | n < USER_PAGES && Present(EntryAt(dir, tables, n)) ::
            FrameOf(EntryAt(dir, tables, n)) in freed)
      && (forall f | f in freed :: f == frame || exists k: nat :: k < KERNEL_HALF && FreedAt(dir[k], tables, f))
  {
    hide Present, FrameOf, FreedTables, HasFrame, FramesApart, Apart, EntryAt;
    ApartFrames(dir, tables, frame);
    var d := dir[..KERNEL_HALF];
    var all := FreedTables(d, tables);
    FreedTablesAre(d, tables);
    forall a, b | 0 <= a < |all| && 0 <= b < 1 ensures all[a] != [frame][b] {
      assert all[a] in all;
    }
    DistinctConcat(all, [frame]);
    forall i: nat | i < KERNEL_HALF && dir[i] != 0 ensures FrameOf(dir[i]) in all {
      assert FreedAt(d[i], tables, FrameOf(dir[i]));
    }
    forall n: nat | n < USER_PAGES && Present(EntryAt(dir, tables, n)) ensures FrameOf(EntryAt(dir, tables, n)) in all {
      ZeroAbsent();
      EntryIsFreed(dir, tables, n);
      assert d[n / 1024] == dir[n / 1024];
    }
  }

  /** Entry by entry, as pagedir_destroy goes through them, no frame is used twice. */
  lemma ApartFrames(dir: Table, tables: map<nat, Table>, frame: nat)
    requires DirOk(dir, tables) && frame !in tables && Apart(dir, tables, frame)
    ensures FramesApart(dir[..KERNEL_HALF], tables)
    ensures forall i: nat | i < KERNEL_HALF :: !FreedAt(dir[i], tables, frame)
  {
    hide Present, FrameOf, FreedAt, EntryAt, FramesDiffer, HasFrame;
    var d := dir[..KERNEL_HALF];
    forall i: nat, j: nat, f: nat | i < |d| && j < |d| && FreedAt(d[i], tables, f) && FreedAt(d[j], tables, f)
      ensures i == j {
      var m := FreedIs(dir, tables, i, f);
      var n := FreedIs(dir, tables, j, f);
    }
    forall i: nat | i < |d| && Present(d[i]) && FrameOf(d[i]) in tables
      ensures FramesDiffer(tables[FrameOf(d[i])]) && !HasFrame(tables[FrameOf(d[i])], FrameOf(d[i]))
    {
      TableApart(dir, tables, frame, i);
    }
    forall i: nat | i < KERNEL_HALF ensures !FreedAt(dir[i], tables, frame) {
      if FreedAt(dir[i], tables, frame) {
        var n := FreedIs(dir, tables, i, frame);
      }
    }
  }

  lemma WordAt(dir: Table, tables: map<nat, Table>, i: nat, k: nat)
    requires i < KERNEL_HALF && k < 1024 && dir[i] != 0 && FrameOf(dir[i]) in tables
    ensures 1024 * i + k < USER_PAGES && (1024 * i + k) / 1024 == i
    ensures EntryAt(dir, tables, 1024 * i + k) == tables[FrameOf(dir[i])][k]
  {
    assert (1024 * i + k) / 1024 == i && (1024 * i + k) % 1024 == k;
  }

  lemma TableApart(dir: Table, tables: map<nat, Table>, frame: nat, i: nat)
    requires Apart(dir, tables, frame) && i < KERNEL_HALF && Present(dir[i]) && FrameOf(dir[i]) in tables
    ensures FramesDiffer(tables[FrameOf(dir[i])]) && !HasFrame(tables[FrameOf(dir[i])], FrameOf(dir[i]))
  {
    ZeroAbsent();
    hide Present, FrameOf, EntryAt;
    forall k: nat | k < 1024
      ensures 1024 * i + k < USER_PAGES && EntryAt(dir, tables, 1024 * i + k) == tables[FrameOf(dir[i])][k]
    {
      WordAt(dir, tables, i, k);
    }
    var t := tables[FrameOf(dir[i])];
    forall k, l | 0 <= k < l < |t| && Present(t[k]) && Present(t[l]) ensures FrameOf(t[k]) != FrameOf(t[l]) {
      assert EntryAt(dir, tables, 1024 * i + k) == t[k] && EntryAt(dir, tables, 1024 * i + l) == t[l];
    }
  }

  /** A frame given back for a directory entry is the table's or a page's. */
  lemma FreedIs(dir: Table, tables: map<nat, Table>, i: nat, f: nat) returns (page: Option<nat>)
    requires i < KERNEL_HALF && FreedAt(dir[i], tables, f)
    ensures page.None? ==> dir[i] != 0 && FrameOf(dir[i]) in tables && f == FrameOf(dir[i])
    ensures page.Some? ==> var n := page.value;
      n < USER_PAGES && n / 1024 == i && Present(EntryAt(dir, tables, n)) && FrameOf(EntryAt(dir, tables, n)) == f
  {
    ZeroAbsent();
    hide Present, FrameOf, EntryAt;
    if f == FrameOf(dir[i]) {
      page := None;
    } else {
      var t := tables[FrameOf(dir[i])];
      var k :| 0 <= k < |t| && Present(t[k]) && FrameOf(t[k]) == f;
      WordAt(dir, tables, i, k);
      page := Some(1024 * i + k);
    }
  }

  lemma EntryIsFreed(dir: Table, tables: map<nat, Table>, n: nat)
    requires DirOk(dir, tables) && n < USER_PAGES && Present(EntryAt(dir, tables, n))
    ensures FreedAt(dir[n / 1024], tables, FrameOf(EntryAt(dir, tables, n)))
  {
    var t := tables[FrameOf(dir[n / 1024])];
    assert t[n % 1024] == EntryAt(dir, tables, n);
  }

  // ---- load_segment ----

  type PageBytes = p: seq<Byte> | |p| == 4096 witness seq(4096, i => 0)

  /** What a process sees: its page directory, the tables, and the bytes in the frames. */
  datatype Space = Space(dir: Table, tables: map<nat, Table>, frame: nat, ram: map<nat, PageBytes>)

  /** What load_segment is to load, and the frames of the page allocator's two pools, in the order
      in which it gives them. */
  datatype Segment = Segment(file: seq<Byte>, ofs: nat, read: nat, upage: nat, writable: bool,
                             user: seq<nat>, kernel: seq<nat>)

  /** Byte `i` of a segment: a byte of the file, or after those a zero. */
  function SegmentByte(g: Segment, i: nat): Byte {
    if i < g.read && g.ofs + i < |g.file| then g.file[g.ofs + i] else 0
  }

  /** Page `k` of a segment. */
  function SegmentPage(g: Segment, k: nat): PageBytes {
    var page: seq<Byte> := seq(4096, j requires 0 <= j < 4096 => SegmentByte(g, 4096 * k + j));
    page
  }

  /** The byte that a process finds at address `a`. */
  ghost predicate ByteIs(s: Space, a: nat, b: Byte) {
    a / 4096 < USER_PAGES
    && var w := EntryAt(s.dir, s.tables, a / 4096);
       Present(w) && FrameOf(w) in s.ram && s.ram[FrameOf(w)][a % 4096] == b
  }

  /** The first `c` pages of a segment are mapped to the first frames of `user`, and hold what they should. */
  ghost predicate Mapped(s: Space, g: Segment, c: nat) {
    c <= |g.user| && forall j: nat | j < c ::
      && g.upage + j < USER_PAGES && EntryAt(s.dir, s.tables, g.upage + j) == PteCreateUser(g.user[j], g.writable)
      && g.user[j] in s.ram && s.ram[g.user[j]] == SegmentPage(g, j)
  }

  /** No other page is mapped otherwise, those `c` were not mapped before, and no other frame has
      other bytes. */
  ghost predicate Elsewhere(before: Space, s: Space, g: Segment, c: nat) {
    && c <= |g.user|
    && (forall m: nat | m < USER_PAGES && !(g.upage <= m < g.upage + c) ::
          EntryAt(s.dir, s.tables, m) == EntryAt(before.dir, before.tables, m))
    && (forall m: nat | m < USER_PAGES && g.upage <= m < g.upage + c :: !Present(EntryAt(before.dir, before.tables, m)))
    && forall f | f !in g.user[..c] :: (f in s.ram <==> f in before.ram) && (f in s.ram ==> s.ram[f] == before.ram[f])
  }

  /** `user[c..]` and `kernel[t..]` are still free. */
  ghost predicate StillFree(s: Space, g: Segment, c: nat, t: nat) {
    && c <= |g.user| && (forall j | c <= j < |g.user| :: Fresh(s.dir, s.tables, s.frame, g.user[j]))
    && t <= |g.kernel| && (forall j | t <= j < |g.kernel| :: Fresh(s.dir, s.tables, s.frame, g.kernel[j]))
  }

  /** A segment's first `c` pages are in place, with `t` new tables, and nothing else has changed. */
  ghost predicate Loading(before: Space, s: Space, g: Segment, c: nat, t: nat) {
    && Mapped(s, g, c) && Elsewhere(before, s, g, c) && StillFree(s, g, c, t)
    && KernelSame(before.dir, before.tables, s.dir, s.tables)
    && (Apart(before.dir, before.tables, before.frame) ==> Apart(s.dir, s.tables, s.frame))
  }

  ghost function SpaceOf(pd: PageDirectory, ram: map<nat, PageBytes>): Space
    reads pd
  {
    Space(pd.dir, pd.tables, pd.frame, ram)
  }

  /** What install_page does to the entries and to the frames in use. */
  ghost predicate Installed(s: Space, s': Space, n: nat, w: nat, kpage: nat, newTable: bool, free: Option<nat>) {
    && s'.frame == s.frame && s'.ram == s.ram && KernelSame(s.dir, s.tables, s'.dir, s'.tables)
    && (forall m: nat | m < USER_PAGES ::
          EntryAt(s'.dir, s'.tables, m) == if m == n then w else EntryAt(s.dir, s.tables, m))
    && (Apart(s.dir, s.tables, s.frame) && free != Some(kpage) ==> Apart(s'.dir, s'.tables, s'.frame))
    && forall f | Fresh(s.dir, s.tables, s.frame, f) && f != kpage && (newTable ==> free != Some(f)) ::
         Fresh(s'.dir, s'.tables, s'.frame, f)
  }

  method InstallPage(pd: PageDirectory, n: nat, kpage: nat, writable: bool, free: Option<nat>,
                       ghost ram: map<nat, PageBytes>)
    returns (ok: bool)
    requires pd.Valid() && n < USER_PAGES && pd.IsFresh(kpage) && (free.Some? ==> pd.IsFresh(free.value))
    modifies pd
    ensures pd.Valid()
    ensures ok <==> !Present(old(pd.Entry(n))) && (old(pd.dir[n / 1024]) != 0 || free.Some?)
    ensures if ok then
              Installed(old(SpaceOf(pd, ram)), SpaceOf(pd, ram), n, PteCreateUser(kpage, writable), kpage,
                        old(pd.dir[n / 1024]) == 0, free)
            else SpaceOf(pd, ram) == old(SpaceOf(pd, ram))
  {
    hide Present, FrameOf, EntryAt, DirOk, Apart, PteCreateUser, PdeCreate;
    var there := pd.GetPage(n);
    if there.Some? {
      return false;
    }
    IsNew(pd, free);
    ok := pd.SetPage(n, kpage, writable, free);
  }

  lemma IsNew(pd: PageDirectory, free: Option<nat>)
    requires free.Some? ==> pd.IsFresh(free.value)
    ensures free.Some? ==> pd.NewFrame(free.value)
  {
  }

  /** load_segment. `readable(k)` says whether page number k of the segment can be read. `c` pages are
      mapped before it ends, and `t` tables put in. */
  method LoadSegment(pd: PageDirectory, g: Segment, zeroBytes: nat, readable: nat -> bool, ram: map<nat, PageBytes>)
    returns (ok: bool, c: nat, t: nat, ram': map<nat, PageBytes>)
    requires pd.Valid() && (g.read + zeroBytes) % 4096 == 0 && g.ofs % 4096 == 0
    requires g.upage + (g.read + zeroBytes) / 4096 <= USER_PAGES
    requires Distinct(g.user + g.kernel) && StillFree(SpaceOf(pd, ram), g, 0, 0)
    modifies pd
    ensures pd.Valid() && Loading(old(SpaceOf(pd, ram)), SpaceOf(pd, ram'), g, c, t)
    ensures c <= (g.read + zeroBytes) / 4096 && (ok <==> c == (g.read + zeroBytes) / 4096)
    ensures ok ==> g.read == 0 || g.ofs + g.read <= |g.file|
    ensures ok ==> forall i: nat | i < g.read + zeroBytes ::
      ByteIs(SpaceOf(pd, ram'), 4096 * g.upage + i, SegmentByte(g, i))
    ensures !ok ==>
      || c == |g.user| || (4096 * c < g.read && !(readable(c) && g.ofs + Min(4096 * (c + 1), g.read) <= |g.file|))
      || Present(old(pd.Entry(g.upage + c))) || (t == |g.kernel| && pd.dir[(g.upage + c) / 1024] == 0)
  {
    hide Loading, Present, FrameOf, EntryAt, DirOk, Fresh, Apart, PteCreateUser, PdeCreate, Distinct, SegmentPage,
      KernelSame,
      ByteIs, SegmentByte, Installed, PageDirectory.Valid, PageDirectory.NewFrame, PageDirectory.IsFresh;
    var total := (g.read + zeroBytes) / 4096;
    var read, zero, pos := g.read, zeroBytes, g.ofs;
    ghost var before := SpaceOf(pd, ram);
    c, t, ram' := 0, 0, ram;
    NothingLoaded(before, g);
    while read > 0 || zero > 0
      invariant c <= total && read + zero == 4096 * (total - c)
      invariant read == (if 4096 * c <= g.read then g.read - 4096 * c else 0)
      invariant pos == g.ofs + (g.read - read) && (g.read - read > 0 ==> pos <= |g.file|)
      invariant pd.Valid() && Loading(before, SpaceOf(pd, ram'), g, c, t)
      decreases total - c
    {
      var pageRead := if read < 4096 then read else 4096;
      var pageZero := 4096 - pageRead;
      ghost var s := SpaceOf(pd, ram');
      Bounds(before, s, g, c, t);
      if c == |g.user| {
        return false, c, t, ram';
      }
      if pageRead > 0 && (!readable(c) || pos + pageRead > |g.file|) {
        return false, c, t, ram';
      }
      var kpage: PageBytes := (if pageRead > 0 then g.file[pos..pos + pageRead] else []) + seq(pageZero, i => 0);
      PageBytesAre(g, c, pageRead, kpage);
      var free := if t < |g.kernel| then Some(g.kernel[t]) else None;
      var newTable := pd.dir[(g.upage + c) / 1024] == 0;
      FramesFresh(before, pd, s, g, c, t, free);
      var installed := InstallPage(pd, g.upage + c, g.user[c], g.writable, free, ram');
      if !installed {
        return false, c, t, ram';
      }
      PageAdded(before, s, SpaceOf(pd, ram'), g, c, t, newTable, free);
      ram' := ram'[g.user[c] := kpage];
      if newTable {
        t := t + 1;
      }
      read, zero, pos, c := read - pageRead, zero - pageZero, pos + pageRead, c + 1;
    }
    MappedBytes(before, SpaceOf(pd, ram'), g, total, t);
    ok := true;
  }

  lemma NothingLoaded(s: Space, g: Segment)
    requires StillFree(s, g, 0, 0)
    ensures Loading(s, s, g, 0, 0)
  {
  }

  lemma Bounds(before: Space, s: Space, g: Segment, c: nat, t: nat)
    requires Loading(before, s, g, c, t)
    ensures c <= |g.user| && t <= |g.kernel|
    ensures g.upage + c < USER_PAGES ==>
      EntryAt(s.dir, s.tables, g.upage + c) == EntryAt(before.dir, before.tables, g.upage + c)
  {
    hide EntryAt, Present;
  }

  lemma FramesFresh(before: Space, pd: PageDirectory, s: Space, g: Segment, c: nat, t: nat, free: Option<nat>)
    requires Loading(before, s, g, c, t) && c < |g.user| && s == SpaceOf(pd, s.ram)
    requires free == if t < |g.kernel| then Some(g.kernel[t]) else None
    ensures pd.IsFresh(g.user[c]) && (free.Some? ==> pd.IsFresh(free.value))
  {
  }

  /** One more page of a segment. */
  lemma PageAdded(before: Space, s: Space, s': Space, g: Segment, c: nat, t: nat, newTable: bool, free: Option<nat>)
    requires Loading(before, s, g, c, t) && Distinct(g.user + g.kernel) && c < |g.user| && g.upage + c < USER_PAGES
    requires !Present(EntryAt(before.dir, before.tables, g.upage + c))
    requires free == (if t < |g.kernel| then Some(g.kernel[t]) else None) && (newTable ==> free.Some?)
    requires Installed(s, s', g.upage + c, PteCreateUser(g.user[c], g.writable), g.user[c], newTable, free)
    ensures Loading(before, s'.(ram := s.ram[g.user[c] := SegmentPage(g, c)]), g, c + 1, if newTable then t + 1 else t)
  {
    hide Present, FrameOf, EntryAt, Fresh, Apart, PteCreateUser, SegmentPage, KernelSame;
    InPool(g.user, g.kernel);
    KernelStill(before.dir, before.tables, s.dir, s.tables, s'.dir, s'.tables);
    assert g.user[..c + 1] == g.user[..c] + [g.user[c]];
  }

  lemma InPool(user: seq<nat>, kernel: seq<nat>)
    requires Distinct(user + kernel)
    ensures forall i, j | 0 <= i < j < |user| :: user[i] != user[j]
    ensures forall i, j | 0 <= i < j < |kernel| :: kernel[i] != kernel[j]
    ensures forall i, j | 0 <= i < |user| && 0 <= j < |kernel| :: user[i] != kernel[j]
  {
    var all := user + kernel;
    assert forall i | 0 <= i < |user| :: all[i] == user[i];
    assert forall j | 0 <= j < |kernel| :: all[|user| + j] == kernel[j];
  }

  lemma KernelStill(dir: Table, tables: map<nat, Table>, dir': Table, tables': map<nat, Table>, dir'': Table,
                    tables'': map<nat, Table>)
    requires KernelSame(dir, tables, dir', tables') && KernelSame(dir', tables', dir'', tables'')
    ensures KernelSame(dir, tables, dir'', tables'')
  {
    hide FrameOf;
    assert forall i | KERNEL_HALF <= i < 1024 :: dir'[i] == dir'[KERNEL_HALF..][i - KERNEL_HALF];
    assert forall i | KERNEL_HALF <= i < 1024 :: dir[i] == dir[KERNEL_HALF..][i - KERNEL_HALF];
  }

  /** A page's worth of file bytes, then zeros. */
  lemma PageBytesAre(g: Segment, k: nat, pageRead: nat, kpage: PageBytes)
    requires pageRead <= 4096
    requires (pageRead > 0 ==> 4096 * k + pageRead <= g.read && g.ofs + 4096 * k + pageRead <= |g.file|)
    requires pageRead < 4096 ==> g.read <= 4096 * k + pageRead
    requires var at := g.ofs + 4096 * k;
      kpage == (if pageRead > 0 then g.file[at..at + pageRead] else []) + seq(4096 - pageRead, i => 0)
    ensures kpage == SegmentPage(g, k)
  {
    forall j: nat | j < 4096 ensures kpage[j] == SegmentPage(g, k)[j] {
      assert kpage[j] == SegmentByte(g, 4096 * k + j);
    }
  }

  lemma MappedBytes(before: Space, s: Space, g: Segment, c: nat, t: nat)
    requires Loading(before, s, g, c, t)
    ensures forall i: nat | i < 4096 * c :: ByteIs(s, 4096 * g.upage + i, SegmentByte(g, i))
  {
    hide EntryAt, SegmentByte, Elsewhere, StillFree, KernelSame, Apart;
    forall i: nat | i < 4096 * c ensures ByteIs(s, 4096 * g.upage + i, SegmentByte(g, i)) {
      var k := i / 4096;
      assert (4096 * g.upage + i) / 4096 == g.upage + k && (4096 * g.upage + i) % 4096 == i % 4096;
      assert i == 4096 * k + i % 4096;
      EntryBits(g.user[k], g.writable);
    }
  }
}
