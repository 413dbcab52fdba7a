/** The root directory's slots as a map from names to inode sectors (filesys/directory.c), for as
    long as no read of an entry fails for want of memory. */
module Directory {
  import opened Bytes
  import opened Options
  import opened DiskFormat
  import opened OpenInodes
  import opened FileSystem
  import opened FileSystemDevice
  import opened FileSystemRuns
  import opened FileSystemFormat
  import opened FileSystemTheorems
  import FileSystemLeaks
  import opened InodeIO
  import opened Bitmap

  /** The inode sector a name stands for. */
  function Find(dir: seq<Entry>, name: seq<Byte>): Option<Sec> {
    var i := Lookup(dir, name, |dir|);
    if i.Some? then Some(dir[i.value].sector) else None
  }

  ghost predicate UniqueNames(dir: seq<Entry>) {
    forall i, j | 0 <= i < j < |dir| && dir[i].inUse && dir[j].inUse :: dir[i].name != dir[j].name
  }

  lemma {:induction false} LookupMeaning(dir: seq<Entry>, name: seq<Byte>, n: nat)
    ensures var r := Lookup(dir, name, n);
      if r.Some? then r.value < n && r.value < |dir| && dir[r.value].inUse && dir[r.value].name == name
      else forall i | 0 <= i < n && i < |dir| :: !(dir[i].inUse && dir[i].name == name)
  {
    if n > 0 && dir != [] {
      LookupMeaning(dir[1..], name, n - 1);
      assert forall i | 0 < i < |dir| :: dir[i] == dir[1..][i - 1];
    }
  }

  lemma {:induction false} FreeSlotMeaning(dir: seq<Entry>, n: nat)
    ensures var r := FreeSlot(dir, n);
      && (forall i | 0 <= i < r :: i < |dir| && dir[i].inUse)
      && (r < |dir| && n >= |dir| ==> !dir[r].inUse)
  {
    if n > 0 && dir != [] && dir[0].inUse {
      FreeSlotMeaning(dir[1..], n - 1);
      assert forall i | 0 < i < |dir| :: dir[i] == dir[1..][i - 1];
    }
  }

  /** With unique names, any slot with the name is the one found. */
  lemma FindIs(dir: seq<Entry>, name: seq<Byte>, i: nat)
    requires UniqueNames(dir) && i < |dir| && dir[i].inUse && dir[i].name == name
    ensures Lookup(dir, name, |dir|) == Some(i) && Find(dir, name) == Some(dir[i].sector)
  {
    LookupMeaning(dir, name, |dir|);
  }

  lemma FindNone(dir: seq<Entry>, name: seq<Byte>)
    requires forall i | 0 <= i < |dir| && dir[i].inUse :: dir[i].name != name
    ensures Find(dir, name) == None
  {
    LookupMeaning(dir, name, |dir|);
  }

  /** dir_add enters one name and touches no other; it fails exactly when the name is empty or too
      long, is there already, or there is no free slot (or the slot cannot be written). */
  lemma AddEntersOneName(fs: Fs, name: seq<Byte>, sector: Sec, l: Luck, other: seq<Byte>)
    requires UniqueNames(fs.dir) && l.look >= |fs.dir| && l.slots >= |fs.dir|
    ensures var (r, ok) := DirAdd(fs, name, sector, l);
      && (ok <==> 0 < |name| <= NAME_MAX && Find(fs.dir, name) == None && l.entry
                  && exists i :: 0 <= i < |fs.dir| && !fs.dir[i].inUse)
      && UniqueNames(r.dir) && r.lost == fs.lost
      && (ok ==> Find(r.dir, name) == Some(sector))
      && (other != name || !ok ==> Find(r.dir, other) == Find(fs.dir, other))
  {
    var (r, ok) := DirAdd(fs, name, sector, l);
    LookupMeaning(fs.dir, name, l.look);
    LookupMeaning(fs.dir, name, |fs.dir|);
    FreeSlotMeaning(fs.dir, l.slots);
    if ok {
      var slot := FreeSlot(fs.dir, l.slots);
      FindIs(r.dir, name, slot);
      OtherNames(fs.dir, r.dir, slot, other);
    }
  }

  /** A change of one slot that neither had nor gets the name leaves the name alone. */
  lemma OtherNames(dir: seq<Entry>, dir': seq<Entry>, slot: nat, other: seq<Byte>)
    requires UniqueNames(dir) && UniqueNames(dir') && |dir| == |dir'| && slot < |dir|
    requires forall i | 0 <= i < |dir| && i != slot :: dir'[i] == dir[i]
    ensures !(dir[slot].inUse && dir[slot].name == other) && !(dir'[slot].inUse && dir'[slot].name == other)
            ==> Find(dir', other) == Find(dir, other)
  {
    if !(dir[slot].inUse && dir[slot].name == other) && !(dir'[slot].inUse && dir'[slot].name == other) {
      LookupMeaning(dir, other, |dir|);
      if Lookup(dir, other, |dir|).Some? {
        FindIs(dir', other, Lookup(dir, other, |dir|).value);
      } else {
        FindNone(dir', other);
      }
    }
  }

  /** Erasing an entry takes away its name and no other. */
  lemma EraseDropsOneName(fs: Fs, i: nat, other: seq<Byte>)
    requires UniqueNames(fs.dir) && i < |fs.dir| && fs.dir[i].inUse
    ensures var r := Erase(fs, i);
      && UniqueNames(r.dir) && Find(r.dir, fs.dir[i].name) == None
      && (other != fs.dir[i].name ==> Find(r.dir, other) == Find(fs.dir, other))
  {
    var r := Erase(fs, i);
    FindNone(r.dir, fs.dir[i].name);
    OtherNames(fs.dir, r.dir, i, other);
  }

  // ---- reads that fail ----

  lemma {:induction false} SlotIsCut(dir: seq<Entry>, n: nat)
    ensures var r := FreeSlot(dir, n);
      && (r < |dir| && dir[r].inUse <==> n < |dir| && forall i | 0 <= i <= n :: dir[i].inUse)
      && (r < |dir| && dir[r].inUse ==> r == n)
  {
    if n > 0 && dir != [] && dir[0].inUse {
      SlotIsCut(dir[1..], n - 1);
      assert forall i | 0 < i < |dir| :: dir[i] == dir[1..][i - 1];
    }
  }

  /** dir_add writes over an entry in use, and its inode is lost, exactly when the name is a good
      one that was not found, the entry can be written, and the search for a free slot was cut
      short at an entry in use, all those before it being in use too. */
  lemma LostExactly(fs: Fs, name: seq<Byte>, sector: Sec, l: Luck)
    requires DirOk(fs.dir, fs.lost)
    ensures DirAdd(fs, name, sector, l).0.lost != fs.lost
            <==> 0 < |name| <= NAME_MAX && Lookup(fs.dir, name, l.look).None? && l.entry
                 && l.slots < |fs.dir| && forall i | 0 <= i <= l.slots :: fs.dir[i].inUse
  {
    hide Overwritten, EntryBytes;
    SlotIsCut(fs.dir, l.slots);
  }

  /** A directory with an entry in use in its first slot: if the first read of the search for a free
      slot fails, dir_add of a new name writes over that entry. */
  lemma LostWitness(fs: Fs, name: seq<Byte>, sector: Sec)
    requires DirOk(fs.dir, fs.lost) && fs.dir[0].inUse && 0 < |name| <= NAME_MAX
    requires forall i | 0 <= i < |fs.dir| && fs.dir[i].inUse :: fs.dir[i].name != name
    ensures var (r, ok) := DirAdd(fs, name, sector, FileSystemLeaks.LUCKY.(slots := 0));
      ok && fs.dir[0].sector in r.lost && fs.dir[0].sector !in fs.lost
  {
    hide Overwritten, EntryBytes;
    LookupMeaning(fs.dir, name, ENTRIES);
    SlotIsCut(fs.dir, 0);
  }

  /** Names that were unique stay so except when a name is entered that is there already, in another
      slot, behind the place where the reading for the lookup was cut short. */
  lemma NamesBreakExactly(fs: Fs, name: seq<Byte>, sector: Sec, l: Luck)
    requires UniqueNames(fs.dir)
    ensures var slot := FreeSlot(fs.dir, l.slots);
      !UniqueNames(DirAdd(fs, name, sector, l).0.dir)
      <==> 0 < |name| <= NAME_MAX && l.entry && slot < |fs.dir|
           && exists i :: l.look <= i < |fs.dir| && i != slot && fs.dir[i].inUse && fs.dir[i].name == name
  {
    hide Overwritten, EntryBytes;
    var r, slot := DirAdd(fs, name, sector, l).0.dir, FreeSlot(fs.dir, l.slots);
    LookupMeaning(fs.dir, name, l.look);
    if i :| l.look <= i < |fs.dir| && i != slot && fs.dir[i].inUse && fs.dir[i].name == name {
      CutShort(fs.dir, name, l.look, i);
      if DirAdd(fs, name, sector, l).1 {
        assert r[i] == fs.dir[i] && r[slot].name == name && r[slot].inUse;
        NotUnique(r, i, slot);
      }
    }
  }

  lemma NotUnique(dir: seq<Entry>, i: nat, j: nat)
    requires i < |dir| && j < |dir| && i != j && dir[i].inUse && dir[j].inUse && dir[i].name == dir[j].name
    ensures !UniqueNames(dir)
  {
    var a, b := if i < j then i else j, if i < j then j else i;
    assert dir[a].name == dir[b].name;
  }

  lemma CutShort(dir: seq<Entry>, name: seq<Byte>, n: nat, i: nat)
    requires UniqueNames(dir) && n <= i < |dir| && dir[i].inUse && dir[i].name == name
    ensures Lookup(dir, name, n).None?
  {
    LookupMeaning(dir, name, n);
  }

  /** A directory in which "a" is in use: if the first read for the lookup fails, dir_add of "a"
      gives a second entry of that name. */
  lemma NamesWitness(fs: Fs, sector: Sec)
    requires fs.dir == [Entry(true, [97], 2)] + seq(ENTRIES - 1, i => UNUSED)
    ensures var l := FileSystemLeaks.LUCKY.(look := 0);
      UniqueNames(fs.dir) && !UniqueNames(DirAdd(fs, [97], sector, l).0.dir)
  {
    var l := FileSystemLeaks.LUCKY.(look := 0);
    assert fs.dir[0] == Entry(true, [97], 2) && forall i | 0 < i < ENTRIES :: fs.dir[i] == UNUSED;
    FreeSlotMeaning(fs.dir, ENTRIES);
    NamesBreakExactly(fs, [97], sector, l);
  }

  // ---- runs ----

  /** No reading of entries is cut short. */
  predicate Reads(e: Event) {
    match e
    case EvCreate(name, size, d, l) => l.look >= ENTRIES && l.slots >= ENTRIES
    case _ => true
  }

  lemma DirAfterCreate(fs: Fs, name: seq<Byte>, size: nat, d: nat, l: Luck)
    ensures var r := Create(fs, name, size, d, l).0;
      r.dir == fs.dir || exists f: Fs, s: Sec :: f.dir == fs.dir && r.dir == DirAdd(f, name, s, l).0.dir
  {
    hide OpenInode, CloseInode, Allocate, CreateInode, DirAdd, Release;
    DirAfterRoot(fs, d, l);
    var f1 := OpenRoot(fs, d, l).0;
    if OpenRoot(fs, d, l).1 {
      DirAfterCreateIn(f1, name, size, l);
      DirAfterClose(CreateIn(f1, name, size, l).0, d, l.maps.0, l.maps.1);
    }
  }

  lemma DirAfterCreateIn(fs: Fs, name: seq<Byte>, size: nat, l: Luck)
    ensures var r := CreateIn(fs, name, size, l).0;
      r.dir == fs.dir || exists f: Fs, s: Sec :: f.dir == fs.dir && r.dir == DirAdd(f, name, s, l).0.dir
  {
    hide Allocate, DirAdd, WriteMap, ZeroRun, PutSector, InodeSector, ZeroBytes, Release;
    FileSystemLeaks.AllocateIs(fs, 1, l.maps.0);
    var (f1, sector) := Allocate(fs, 1, l.maps.0);
    if sector.Some? {
      FileSystemLeaks.AllocateIs(f1, Sectors(size), l.maps.1);
      var (f2, made) := CreateInode(f1, sector.value, size, l.diskInodeMem, l.maps.1);
      var f3 := if made then DirAdd(f2, name, sector.value, l).0 else f2;
      DirAfterRelease(f3, sector.value, 1, l.maps.2);
      assert f2.dir == fs.dir;
    }
  }

  lemma DirAfterRelease(fs: Fs, start: Sec, cnt: nat, w: MapWrite)
    ensures Release(fs, start, cnt, w).dir == fs.dir
  {
    hide WriteMap;
    WriteMapTouches(fs.(freeMap := Mark(fs.freeMap, start, cnt, false)), w);
  }

  lemma DirAfterClose(fs: Fs, h: nat, w: MapWrite, w': MapWrite)
    ensures CloseInode(fs, h, w, w').dir == fs.dir
  {
    hide Release, Opens;
    if IsOpen(fs, h) {
      var s := fs.handles[h].sector;
      var closed := fs.(handles := fs.handles - {h}, open := DropInode(fs.open, s));
      DirAfterRelease(closed, s, 1, w);
      var i := Opens(fs.open)[s];
      DirAfterRelease(Release(closed, s, 1, w), i.data.start, Sectors(i.data.length), w');
    }
  }

  lemma DirAfterOpen(fs: Fs, s: Sec, h: nat, mem: bool)
    ensures OpenInode(fs, s, h, mem).0.dir == fs.dir
  {
  }

  lemma DirAfterRoot(fs: Fs, d: nat, l: Luck)
    ensures OpenRoot(fs, d, l).0.dir == fs.dir
  {
    hide OpenInode, CloseInode;
    DirAfterOpen(fs, ROOT_DIR_SECTOR, d, l.rootMem);
    DirAfterClose(OpenInode(fs, ROOT_DIR_SECTOR, d, l.rootMem).0, d, l.maps.0, l.maps.1);
  }

  lemma DirAfterRemove(fs: Fs, name: seq<Byte>, d: nat, h: nat, l: Luck)
    ensures var r := Remove(fs, name, d, h, l).0;
      r.dir == fs.dir
      || exists i: nat :: i < |fs.dir| && fs.dir[i].inUse && r.dir == fs.dir[i := fs.dir[i].(inUse := false)]
  {
    hide OpenInode, CloseInode, OpenRoot, Erase;
    DirAfterRoot(fs, d, l);
    var (f1, ok) := OpenRoot(fs, d, l);
    var i := Lookup(f1.dir, name, l.look);
    if ok && i.Some? {
      var s := f1.dir[i.value].sector;
      DirAfterOpen(f1, s, h, l.inodeMem);
      var f2 := OpenInode(f1, s, h, l.inodeMem).0;
      ErasedIs(f2, i.value);
      DirAfterClose(f2, h, l.maps.0, l.maps.1);
      DirAfterClose(Erase(f2, i.value), h, l.maps.0, l.maps.1);
      DirAfterClose(DirRemove(f1, name, h, l).0, d, l.maps.0, l.maps.1);
    } else if ok {
      DirAfterClose(f1, d, l.maps.0, l.maps.1);
    }
  }

  /** Every event in which no reading of entries is cut short keeps names unique. */
  lemma NamesKept(fs: Fs, e: Event)
    requires Ready(fs) && Enabled(fs, e) && Reads(e) && UniqueNames(fs.dir)
    ensures UniqueNames(Apply(fs, e).dir)
  {
    hide Sound, Create, Open, Remove, Close, Reopen, DenyWrite, AllowWrite, WriteFile, ReadFile, Seek, DirAdd;
    match e {
      case EvCreate(name, size, d, l) => {
        DirAfterCreate(fs, name, size, d, l);
        CreateNames(fs, name, size, d, l);
      }
      case EvOpen(name, d, h, l) => OpenSound(fs, name, d, h, l);
      case EvRemove(name, d, h, l) => {
        DirAfterRemove(fs, name, d, h, l);
        RemoveNames(fs.dir, Remove(fs, name, d, h, l).0.dir);
      }
      case EvClose(h, l) => CloseSound(fs, h, l);
      case EvReopen(h, g, l) => ReopenSound(fs, h, g, l);
      case EvDenyWrite(h) => DenySound(fs, h, true);
      case EvAllowWrite(h) => DenySound(fs, h, false);
      case EvWrite(h, data, bounce) => WriteFileSound(fs, h, data, bounce);
      case EvRead(h, size, bounce) => DirAfterSeek(fs, h, size, bounce);
      case EvSeek(h, pos) => DirAfterSeek(fs, h, pos, true);
      case EvBoot => {}
    }
  }

  lemma DirAfterSeek(fs: Fs, h: nat, n: nat, bounce: bool)
    ensures Seek(fs, h, n).dir == fs.dir && ReadFile(fs, h, n, bounce).0.dir == fs.dir
  {
  }

  lemma CreateNames(fs: Fs, name: seq<Byte>, size: nat, d: nat, l: Luck)
    requires Ready(fs) && UniqueNames(fs.dir) && l.look >= ENTRIES && l.slots >= ENTRIES
    requires var r := Create(fs, name, size, d, l).0;
      r.dir == fs.dir || exists f: Fs, s: Sec :: f.dir == fs.dir && r.dir == DirAdd(f, name, s, l).0.dir
    ensures UniqueNames(Create(fs, name, size, d, l).0.dir)
  {
    hide Create, DirAdd, Consistent, Owned, OpensOk;
    var r := Create(fs, name, size, d, l).0;
    if r.dir != fs.dir {
      var f: Fs, s: Sec :| f.dir == fs.dir && r.dir == DirAdd(f, name, s, l).0.dir;
      NamesBreakExactly(f, name, s, l);
    }
  }

  lemma RemoveNames(dir: seq<Entry>, dir': seq<Entry>)
    requires UniqueNames(dir)
    requires dir' == dir || exists i: nat :: i < |dir| && dir[i].inUse && dir' == dir[i := dir[i].(inUse := false)]
    ensures UniqueNames(dir')
  {
  }

  lemma {:induction false} NamesRun(fs: Fs, es: seq<Event>)
    requires Ready(fs) && Allowed(fs, es) && UniqueNames(fs.dir) && forall k | 0 <= k < |es| :: Reads(es[k])
    ensures UniqueNames(Run(fs, es).dir)
    decreases |es|
  {
    hide Ready, Enabled, Apply, UniqueNames, Reads;
    if es != [] {
      ApplyReady(fs, es[0]);
      NamesKept(fs, es[0]);
      assert forall k | 0 <= k < |es[1..]| :: es[1..][k] == es[k + 1];
      NamesRun(Apply(fs, es[0]), es[1..]);
    }
  }

  /** In every run in which no reading of entries is cut short, no two entries in use have a name. */
  lemma NamesAreUnique(device: seq<Sector>, es: seq<Event>, fs: Fs)
    requires Reached(device, es, fs) && forall k | 0 <= k < |es| :: Reads(es[k])
    ensures UniqueNames(fs.dir)
  {
    hide Format, Run, Allowed, Sound, Live, Reads;
    FormatSound(device);
    FormatNames(device);
    NamesRun(Format(device).value, es);
  }

  lemma FormatNames(device: seq<Sector>)
    requires |device| >= 2 && Format(device).Some?
    ensures UniqueNames(Format(device).value.dir)
  {
    hide DirFormatted, MapFormatted;
  }

  // ---- dir_readdir ----

  /** The names in use from slot `pos` on. */
  function Listing(dir: seq<Entry>, pos: nat): seq<seq<Byte>>
    decreases |dir| - pos
  {
    if pos >= |dir| then []
    else (if dir[pos].inUse then [dir[pos].name] else []) + Listing(dir, pos + 1)
  }

  /** dir_readdir from slot `pos` on, when `n` more entries can be read: the name it gives, and the
      slot it is at then. */
  function NextName(dir: seq<Entry>, pos: nat, n: nat): (Option<seq<Byte>>, nat)
    decreases |dir| - pos
  {
    if pos >= |dir| || n == 0 then (None, pos)
    else if dir[pos].inUse then (Some(dir[pos].name), pos + 1)
    else NextName(dir, pos + 1, n - 1)
  }

  /** It gives the next name of the listing; without one there are no more, or reading stopped. */
  lemma {:induction false} NextMeaning(dir: seq<Entry>, pos: nat, n: nat)
    requires pos <= |dir|
    ensures var (name, at) := NextName(dir, pos, n);
      && pos <= at <= |dir| && (name.Some? ==> pos < at)
      && Listing(dir, pos) == (if name.Some? then [name.value] else []) + Listing(dir, at)
      && (name.None? ==> at == |dir| || at == pos + n) && (at == |dir| ==> Listing(dir, at) == [])
    decreases |dir| - pos
  {
    if pos < |dir| && n > 0 && !dir[pos].inUse {
      NextMeaning(dir, pos + 1, n - 1);
    }
  }

  /** Reading a directory to its end gives each name that can be found, once. */
  lemma {:induction false} ListingHas(dir: seq<Entry>, pos: nat, name: seq<Byte>)
    requires pos <= |dir|
    ensures name in Listing(dir, pos) <==> exists i :: pos <= i < |dir| && dir[i].inUse && dir[i].name == name
    decreases |dir| - pos
  {
    if pos < |dir| {
      ListingHas(dir, pos + 1, name);
    }
  }

  lemma {:induction false} ListingOnce(dir: seq<Entry>, pos: nat)
    requires UniqueNames(dir) && pos <= |dir|
    ensures forall a, b | 0 <= a < b < |Listing(dir, pos)| :: Listing(dir, pos)[a] != Listing(dir, pos)[b]
    decreases |dir| - pos
  {
    if pos < |dir| {
      ListingOnce(dir, pos + 1);
      ListingHas(dir, pos + 1, dir[pos].name);
    }
  }

  lemma ListingIsDirectory(dir: seq<Entry>, name: seq<Byte>)
    requires UniqueNames(dir)
    ensures name in Listing(dir, 0) <==> Find(dir, name).Some?
  {
    ListingHas(dir, 0, name);
    LookupMeaning(dir, name, |dir|);
  }
}
