/** Sectors that stay marked although nothing can reach them: exactly which events of a run leave
    such sectors behind. */
module FileSystemOrphans {
  import opened Bytes
  import opened Options
  import opened Bitmap
  import opened InodeIO
  import opened DiskFormat
  import opened OpenInodes
  import opened FileSystem
  import opened FileSystemDevice
  import opened FileSystemRuns
  import opened FileSystemFormat
  import opened FileSystemTheorems
  import opened FileSystemLeaks
  import Directory

  /** Sector `k` is marked, and no inode in the directory or open uses it. */
  ghost predicate Orphan(fs: Fs, k: Sec) {
    k < |fs.freeMap| && fs.freeMap[k] && forall s | s in Owners(fs) :: !Uses(fs.table, s, k)
  }

  ghost predicate NoOrphans(fs: Fs) {
    forall k :: !Orphan(fs, k)
  }

  /** What the books say about it. */
  predicate Settled(fs: Fs) {
    fs.loose == {} && fs.lost <= Opens(fs.open).Keys
  }

  lemma OrphansAre(fs: Fs)
    requires Inv(fs)
    ensures NoOrphans(fs) <==> Settled(fs)
  {
    hide OpensOk, MapsOk, Opens, Owners, Live, Uses;
    if k :| k in fs.loose {
      Unowned(fs, k);
      assert Orphan(fs, k);
    } else if s :| s in fs.lost && s !in Opens(fs.open) {
      LostMarked(fs, s);
      Unowned(fs, s);
      assert Orphan(fs, s);
    } else {
      forall k ensures !Orphan(fs, k) {
        if Orphan(fs, k) {
          Unowned(fs, k);
          assert false;
        }
      }
    }
  }

  lemma LostMarked(fs: Fs, s: Sec)
    requires Inv(fs) && s in fs.lost
    ensures Uses(fs.table, s, s) && s < |fs.freeMap| && fs.freeMap[s]
  {
    hide OpensOk, MapsOk, DirOk, Opens;
  }

  // ---- which events ----

  /** The search for a free slot is cut short at an entry in use, whose inode is not open. */
  predicate WritesOver(fs: Fs, l: Luck) {
    && l.slots < |fs.dir| && (forall i | 0 <= i <= l.slots :: fs.dir[i].inUse)
    && fs.dir[l.slots].sector !in Opens(fs.open)
  }

  /** Whether filesys_create unsettles the books once the root directory is open. */
  predicate Unsettles(fs: Fs, name: seq<Byte>, size: nat, l: Luck) {
    InodeMadeFor(fs, size, l) && if NoEntry(fs, name, l) then size > 0 else WritesOver(fs, l)
  }

  /** Whether an event leaves behind marked sectors that nothing can reach:
      filesys_create when the inode is made and its name cannot be entered, if the file has data,
      or when its name is written over that of a file that is not open; the last close of a file
      whose entry was written over; and a restart while a removed file is open, or such a file
      exists, or the map on disk has bits that the one in memory no longer has. */
  ghost predicate Orphans(fs: Fs, e: Event) {
    match e
    case EvCreate(name, size, d, l) =>
      l.rootMem && l.dirMem && Unsettles(fs, name, size, l)
    case EvClose(h, l) =>
      h in fs.handles && fs.handles[h].sector in fs.lost && On(fs.handles, fs.handles[h].sector) == {h}
    case EvBoot =>
      || fs.lost != {} || (exists s :: s in Opens(fs.open) && Opens(fs.open)[s].removed)
      || exists k :: 0 <= k < |fs.freeMap| && k < |fs.diskMap| && fs.diskMap[k] && !fs.freeMap[k]
    case _ => false
  }

  /** Outside `but`, the same inodes are open. */
  ghost predicate OpenSame(fs: Fs, r: Fs, but: set<Sec>) {
    forall t | t !in but :: t in Opens(r.open) <==> t in Opens(fs.open)
  }

  lemma OpenedBut(fs: Fs, s: Sec, h: nat, mem: bool)
    requires Sound(fs)
    ensures OpenSame(fs, OpenInode(fs, s, h, mem).0, {s})
  {
    hide Opens, Owned, DirOk, MapsOk, Consistent, InodeOk, DistinctSectors, SetInode;
    OpensKeys(fs.open);
    if mem || s in Opens(fs.open) {
      OpenedIs(fs, s, h, mem);
    }
  }

  lemma ClosedBut(fs: Fs, h: nat, w: MapWrite, w': MapWrite)
    requires Sound(fs) && h in fs.handles && !fs.handles[h].denyWrite
    ensures OpenSame(fs, CloseInode(fs, h, w, w'), {fs.handles[h].sector})
  {
    hide Opens, Sound, CloseInode;
    HandleOpen(fs, h);
    CloseInodeSound(fs, h, w, w');
  }

  lemma RootBut(fs: Fs, d: nat, l: Luck)
    requires Sound(fs) && d !in fs.handles
    ensures OpenSame(fs, OpenRoot(fs, d, l).0, {ROOT_DIR_SECTOR})
  {
    hide Opens, Sound, CloseInode, OpenInode, CanOpen;
    FileSystemCanOpen(fs);
    OpenedBut(fs, ROOT_DIR_SECTOR, d, l.rootMem);
    OpenInodeSound(fs, ROOT_DIR_SECTOR, d, l.rootMem);
    var (f1, ok) := OpenInode(fs, ROOT_DIR_SECTOR, d, l.rootMem);
    if ok && !l.dirMem {
      ClosedBut(f1, d, l.maps.0, l.maps.1);
    }
  }

  lemma FileSystemCanOpen(fs: Fs)
    ensures CanOpen(fs, ROOT_DIR_SECTOR)
  {
  }

  lemma ButThrough(a: Fs, b: Fs, c: Fs, but: set<Sec>)
    requires OpenSame(a, b, but) && OpenSame(b, c, but)
    ensures OpenSame(a, c, but)
  {
    hide Opens;
  }

  lemma ButMore(a: Fs, b: Fs, but: set<Sec>, more: set<Sec>)
    requires OpenSame(a, b, but) && but <= more
    ensures OpenSame(a, b, more)
  {
    hide Opens;
  }

  /** Opening and closing inodes that are not lost settles nothing and unsettles nothing. */
  lemma StillSettled(fs: Fs, r: Fs, but: set<Sec>)
    requires OpenSame(fs, r, but) && r.loose == fs.loose && r.lost == fs.lost && but !! fs.lost
    ensures Settled(r) <==> Settled(fs)
  {
    hide Opens;
    assert forall s | s in fs.lost :: s in Opens(r.open) <==> s in Opens(fs.open);
  }

  lemma NotLost(fs: Fs, s: Sec)
    requires Inv(fs) && (s <= ROOT_DIR_SECTOR || s in DirSectors(fs.dir))
    ensures s !in fs.lost
  {
    hide Owned, OpensOk, MapsOk;
    if s in fs.lost {
      NotInDir(fs.dir, fs.lost, s);
    }
  }

  // ---- filesys_create ----

  /** The inode whose entry filesys_create writes over. */
  function WrittenOver(fs: Fs, name: seq<Byte>, size: nat, l: Luck): set<Sec> {
    var slot := FreeSlot(fs.dir, l.slots);
    if InodeMadeFor(fs, size, l) && !NoEntry(fs, name, l) && slot < |fs.dir| && fs.dir[slot].inUse
    then {fs.dir[slot].sector}
    else {}
  }

  lemma CreateLost(fs: Fs, name: seq<Byte>, size: nat, l: Luck)
    ensures CreateIn(fs, name, size, l).0.lost == fs.lost + WrittenOver(fs, name, size, l)
  {
    hide Scan, Allocate, DirAdd, NoEntry, ZeroRun, PutSector, InodeSector, ZeroBytes, Release;
    AllocateIs(fs, 1, l.maps.0);
    AllocateBooks(fs, 1, l.maps.0);
    var (f1, sector) := Allocate(fs, 1, l.maps.0);
    if sector.Some? {
      AllocateIs(f1, Sectors(size), l.maps.1);
      AllocateBooks(f1, Sectors(size), l.maps.1);
      var (f2, made) := CreateInode(f1, sector.value, size, l.diskInodeMem, l.maps.1);
      var f3 := if made then DirAdd(f2, name, sector.value, l).0 else f2;
      AddFails(f2, name, sector.value, l);
      AddLost(f2, name, sector.value, l);
      SameNames(fs, f2, name, l);
      ReleaseBooks(f3, sector.value, 1, l.maps.2);
    }
  }

  lemma AddLost(fs: Fs, name: seq<Byte>, s: Sec, l: Luck)
    ensures var slot := FreeSlot(fs.dir, l.slots); var (r, ok) := DirAdd(fs, name, s, l);
      && (ok ==> slot < |fs.dir|)
      && r.lost == fs.lost + if ok && slot < |fs.dir| && fs.dir[slot].inUse then {fs.dir[slot].sector} else {}
  {
    hide Overwritten, EntryBytes;
    Directory.FreeSlotMeaning(fs.dir, l.slots);
  }

  lemma AllocateBooks(fs: Fs, cnt: nat, w: MapWrite)
    ensures Allocate(fs, cnt, w).0.lost == fs.lost
  {
    hide Scan, WriteMap;
    if Scan(fs.freeMap, 0, cnt, false).Some? {
      WriteMapTouches(fs.(freeMap := Mark(fs.freeMap, Scan(fs.freeMap, 0, cnt, false).value, cnt, true)), w);
    }
  }

  lemma ReleaseBooks(fs: Fs, start: Sec, cnt: nat, w: MapWrite)
    ensures Release(fs, start, cnt, w).lost == fs.lost
  {
    hide WriteMap;
    WriteMapTouches(fs.(freeMap := Mark(fs.freeMap, start, cnt, false)), w);
  }

  lemma OverIs(fs: Fs, name: seq<Byte>, size: nat, l: Luck)
    ensures WrittenOver(fs, name, size, l) <= Opens(fs.open).Keys
            <==> !(InodeMadeFor(fs, size, l) && !NoEntry(fs, name, l) && WritesOver(fs, l))
  {
    hide InodeMadeFor, NoEntry, Opens;
    Directory.SlotIsCut(fs.dir, l.slots);
  }

  lemma MoreBooks(fs: Fs, r: Fs, leak: set<Sec>, over: set<Sec>)
    requires r.open == fs.open && r.loose == fs.loose + leak && r.lost == fs.lost + over
    ensures Settled(r) <==> Settled(fs) && leak == {} && over <= Opens(fs.open).Keys
  {
    hide Opens;
  }

  lemma SameOver(fs: Fs, r: Fs, l: Luck)
    requires Inv(fs) && r.dir == fs.dir && OpenSame(fs, r, {ROOT_DIR_SECTOR})
    ensures WritesOver(r, l) == WritesOver(fs, l)
  {
    hide Opens, Owned, OpensOk, MapsOk;
  }

  lemma CreateInSettles(fs: Fs, handles: map<nat, Handle>, name: seq<Byte>, size: nat, d: nat, l: Luck)
    requires Sound(fs) && size < 0x8000_0000 && NoNulls(name)
    requires d !in handles && fs.handles == handles[d := Handle(ROOT_DIR_SECTOR, false, 0)]
    ensures var r := CloseInode(CreateIn(fs, name, size, l).0, d, l.maps.0, l.maps.1);
      Settled(r) <==> Settled(fs) && !Unsettles(fs, name, size, l)
  {
    hide Sound, CreateIn, CloseInode, Opens, InodeMadeFor, NoEntry, WritesOver, Leak, WrittenOver, Live, Settled,
      OpenSame;
    CreateInSound(fs, name, size, l);
    LeakExactly(fs, name, size, l);
    CreateLost(fs, name, size, l);
    OverIs(fs, name, size, l);
    var r := CreateIn(fs, name, size, l).0;
    MoreBooks(fs, r, Leak(fs, name, size, l), WrittenOver(fs, name, size, l));
    CloseRoot(handles, r, d, l.maps.0, l.maps.1);
    ClosedBut(r, d, l.maps.0, l.maps.1);
    InvOf(r);
    NotLost(r, ROOT_DIR_SECTOR);
    StillSettled(r, CloseInode(r, d, l.maps.0, l.maps.1), {ROOT_DIR_SECTOR});
  }

  lemma SameUnsettles(fs: Fs, r: Fs, name: seq<Byte>, size: nat, l: Luck)
    requires Inv(fs) && r.dir == fs.dir && r.freeMap == fs.freeMap && OpenSame(fs, r, {ROOT_DIR_SECTOR})
    ensures Unsettles(r, name, size, l) == Unsettles(fs, name, size, l)
  {
    hide Opens, InodeMadeFor, NoEntry, WritesOver, OpenSame, Inv;
    SameOver(fs, r, l);
    SameNames(fs, r, name, l);
    SameRoom(fs, r, size, l);
  }

  lemma CreateSettles(fs: Fs, name: seq<Byte>, size: nat, d: nat, l: Luck)
    requires Ready(fs) && Enabled(fs, EvCreate(name, size, d, l))
    ensures Settled(Create(fs, name, size, d, l).0) <==> Settled(fs) && !Orphans(fs, EvCreate(name, size, d, l))
  {
    hide Sound, OpenRoot, CreateIn, CloseInode, Opens, Unsettles, Settled, OpenSame;
    RootIsClosed(fs);
    InvOf(fs);
    OpenRootSound(fs, d, l);
    RootBut(fs, d, l);
    NotLost(fs, ROOT_DIR_SECTOR);
    var (f1, ok) := OpenRoot(fs, d, l);
    StillSettled(fs, f1, {ROOT_DIR_SECTOR});
    if ok {
      CreateInSettles(f1, fs.handles, name, size, d, l);
      SameUnsettles(fs, f1, name, size, l);
    }
  }

  // ---- the other events ----


  /** The inodes that an entry, or the file system itself, keeps from being lost. */
  function Kept(dir: seq<Entry>): set<Sec> {
    {ROOT_DIR_SECTOR} + DirSectors(dir)
  }

  lemma KeptStays(fs: Fs, r: Fs)
    requires Inv(fs) && OpenSame(fs, r, Kept(fs.dir)) && r.loose == fs.loose && r.lost == fs.lost
    ensures Settled(r) <==> Settled(fs)
  {
    hide Inv, OpenSame, Opens, DirSectors;
    forall s | s in Kept(fs.dir) ensures s !in fs.lost {
      NotLost(fs, s);
    }
    StillSettled(fs, r, Kept(fs.dir));
  }

  lemma EntryKept(dir: seq<Entry>, i: nat)
    requires i < |dir| && dir[i].inUse
    ensures {dir[i].sector} <= Kept(dir)
  {
  }

  lemma LookupBut(fs: Fs, name: seq<Byte>, h: nat, l: Luck)
    requires Sound(fs) && h !in fs.handles
    ensures var (r, found) := DirLookup(fs, name, h, l);
      OpenSame(fs, r, Kept(fs.dir)) && (found ==> h in r.handles && r.handles[h].sector in Kept(fs.dir))
  {
    hide Sound, OpenInode, Opens, Kept, OpenSame, Lookup;
    Directory.LookupMeaning(fs.dir, name, l.look);
    var i := Lookup(fs.dir, name, l.look);
    if i.Some? {
      var s := fs.dir[i.value].sector;
      EntryKept(fs.dir, i.value);
      Openable(fs, i.value);
      OpenedBut(fs, s, h, l.inodeMem);
      OpenInodeSound(fs, s, h, l.inodeMem);
      ButMore(fs, OpenInode(fs, s, h, l.inodeMem).0, {s}, Kept(fs.dir));
    } else {
      NothingBut(fs, Kept(fs.dir));
    }
  }

  lemma NothingBut(fs: Fs, but: set<Sec>)
    ensures OpenSame(fs, fs, but)
  {
  }

  lemma CloseKept(fs: Fs, h: nat, w: MapWrite, w': MapWrite, dir: seq<Entry>)
    requires Sound(fs) && h in fs.handles && !fs.handles[h].denyWrite && fs.handles[h].sector in Kept(dir)
    ensures OpenSame(fs, CloseInode(fs, h, w, w'), Kept(dir))
  {
    hide Sound, CloseInode, Opens, Kept, OpenSame;
    ClosedBut(fs, h, w, w');
    ButMore(fs, CloseInode(fs, h, w, w'), {fs.handles[h].sector}, Kept(dir));
  }

  lemma RootKept(fs: Fs, d: nat, l: Luck)
    requires Sound(fs) && d !in fs.handles
    ensures OpenSame(fs, OpenRoot(fs, d, l).0, Kept(fs.dir)) && ROOT_DIR_SECTOR in Kept(fs.dir)
  {
    hide Sound, OpenRoot, OpenSame;
    RootBut(fs, d, l);
    ButMore(fs, OpenRoot(fs, d, l).0, {ROOT_DIR_SECTOR}, Kept(fs.dir));
  }

  lemma OpenSettles(fs: Fs, name: seq<Byte>, d: nat, h: nat, l: Luck)
    requires Sound(fs) && d !in fs.handles && h !in fs.handles && d != h
    ensures Settled(Open(fs, name, d, h, l).0) <==> Settled(fs)
  {
    hide Sound, OpenRoot, DirLookup, CloseInode, Opens, Live, Settled, OpenSame, Kept;
    OpenSound(fs, name, d, h, l);
    InvOf(fs);
    OpenRootSound(fs, d, l);
    RootKept(fs, d, l);
    var (f1, ok) := OpenRoot(fs, d, l);
    var r := Open(fs, name, d, h, l).0;
    if ok {
      LookupBut(f1, name, h, l);
      DirLookupSound(f1, name, h, l);
      var (f2, found) := DirLookup(f1, name, h, l);
      CloseKept(f2, d, l.maps.0, l.maps.1, fs.dir);
      HandleOpen(f2, d);
      CloseInodeSound(f2, d, l.maps.0, l.maps.1);
      var f3 := CloseInode(f2, d, l.maps.0, l.maps.1);
      if found && !l.fileMem {
        CloseKept(f3, h, l.maps.0, l.maps.1, fs.dir);
      } else {
        NothingBut(f3, Kept(fs.dir));
      }
      ButThrough(fs, f1, f2, Kept(fs.dir));
      ButThrough(fs, f2, f3, Kept(fs.dir));
      ButThrough(fs, f3, r, Kept(fs.dir));
    }
    KeptStays(fs, r);
  }

  lemma RemoveInKept(fs: Fs, name: seq<Byte>, h: nat, l: Luck)
    requires Sound(fs) && h !in fs.handles
    ensures OpenSame(fs, DirRemove(fs, name, h, l).0, Kept(fs.dir))
  {
    hide Sound, OpenInode, CloseInode, Erase, Opens, Kept, OpenSame, Lookup, Live;
    Directory.LookupMeaning(fs.dir, name, l.look);
    var i := Lookup(fs.dir, name, l.look);
    NothingBut(fs, Kept(fs.dir));
    if i.Some? {
      var s := fs.dir[i.value].sector;
      EntryKept(fs.dir, i.value);
      Openable(fs, i.value);
      OpenedBut(fs, s, h, l.inodeMem);
      OpenInodeSound(fs, s, h, l.inodeMem);
      var (f1, ok) := OpenInode(fs, s, h, l.inodeMem);
      if ok {
        ButMore(fs, f1, {s}, Kept(fs.dir));
        var f2 := if l.entry then Erase(f1, i.value) else f1;
        if l.entry {
          EraseSound(f1, i.value);
        }
        SameBut(f1, f2, Kept(fs.dir));
        CloseKept(f2, h, l.maps.0, l.maps.1, fs.dir);
        ButThrough(fs, f1, f2, Kept(fs.dir));
        ButThrough(fs, f2, CloseInode(f2, h, l.maps.0, l.maps.1), Kept(fs.dir));
      }
    }
  }

  lemma SameBut(fs: Fs, r: Fs, but: set<Sec>)
    requires Opens(r.open).Keys == Opens(fs.open).Keys
    ensures OpenSame(fs, r, but)
  {
    hide Opens;
    assert forall t :: t in Opens(r.open) <==> t in Opens(r.open).Keys;
  }

  lemma RemoveSettles(fs: Fs, name: seq<Byte>, d: nat, h: nat, l: Luck)
    requires Sound(fs) && d !in fs.handles && h !in fs.handles && d != h
    ensures Settled(Remove(fs, name, d, h, l).0) <==> Settled(fs)
  {
    hide Sound, OpenRoot, DirRemove, CloseInode, Opens, Live, Settled, OpenSame, Kept;
    RemoveSound(fs, name, d, h, l);
    InvOf(fs);
    OpenRootSound(fs, d, l);
    RootKept(fs, d, l);
    var (f1, ok) := OpenRoot(fs, d, l);
    var r := Remove(fs, name, d, h, l).0;
    if ok {
      DirRemoveSound(f1, name, h, l);
      RemoveInKept(f1, name, h, l);
      var f2 := DirRemove(f1, name, h, l).0;
      CloseKept(f2, d, l.maps.0, l.maps.1, fs.dir);
      ButThrough(fs, f1, f2, Kept(fs.dir));
      ButThrough(fs, f2, r, Kept(fs.dir));
    }
    KeptStays(fs, r);
  }

  lemma ReopenSettles(fs: Fs, h: nat, g: nat, l: Luck)
    requires Sound(fs) && h in fs.handles && g !in fs.handles
    ensures Settled(Reopen(fs, h, g, l).0) <==> Settled(fs)
  {
    hide Sound, OpenInode, CloseInode, Opens, On, Live, CanOpen;
    ReopenSound(fs, h, g, l);
    HandleOpen(fs, h);
    CanReopen(fs, h);
    var s := fs.handles[h].sector;
    OpenInodeSound(fs, s, g, true);
    OpenedBut(fs, s, g, true);
    var f1 := OpenInode(fs, s, g, true).0;
    TwoOn(f1.handles, h, g, s);
    if !l.fileMem {
      CloseInodeSound(f1, g, l.maps.0, l.maps.1);
    }
    assert forall t :: t in Opens(Reopen(fs, h, g, l).0.open) <==> t in Opens(fs.open);
  }

  lemma TwoOn(handles: map<nat, Handle>, h: nat, g: nat, s: Sec)
    requires h in handles && g in handles && h != g && handles[h].sector == s
    ensures On(handles, s) != {g}
  {
    assert h in On(handles, s);
  }

  lemma CloseSettles(fs: Fs, h: nat, l: Luck)
    requires Ready(fs) && IsFile(fs, h)
    ensures Settled(Close(fs, h, l)) <==> Settled(fs) && !Orphans(fs, EvClose(h, l))
  {
    hide Sound, AllowWrite, CloseInode, Opens, On, Live;
    InvOf(fs);
    HandleOpen(fs, h);
    CloseSound(fs, h, l);
    DenySound(fs, h, false);
    AllowSame(fs, h);
    var f, r, s := AllowWrite(fs, h), Close(fs, h, l), fs.handles[h].sector;
    CloseInodeSound(f, h, l.maps.0, l.maps.1);
    assert forall t | t != s :: t in Opens(r.open) <==> t in Opens(fs.open).Keys;
    assert s in Opens(r.open) <==> On(fs.handles, s) != {h};
  }

  lemma BootSettles(fs: Fs)
    requires Ready(fs)
    ensures Settled(Boot(fs)) <==> Settled(fs) && !Orphans(fs, EvBoot)
  {
    hide Inv, Consistent, Opens;
    BootList(OnDisk(fs.table, FREE_MAP_SECTOR));
    BootSound(fs);
    var r := Boot(fs);
    InvOf(r);
    MapsFit(fs);
    NotLost(r, FREE_MAP_SECTOR);
    assert r.lost <= {FREE_MAP_SECTOR} <==> r.lost == {};
    assert r.lost == {} <==> fs.lost == {} && forall s | s in Opens(fs.open) :: !Opens(fs.open)[s].removed by {
      assert forall s | s in Opens(fs.open) && Opens(fs.open)[s].removed :: s in r.lost;
    }
    assert forall k: Sec | k < |fs.diskMap| && k < |fs.freeMap| && fs.diskMap[k] && !fs.freeMap[k] :: k in r.loose;
  }

  lemma MapsFit(fs: Fs)
    requires Inv(fs)
    ensures |fs.freeMap| == |fs.diskMap|
  {
    hide Owned, OpensOk, DirOk;
  }

  lemma EventSettles(fs: Fs, e: Event)
    requires Ready(fs) && Enabled(fs, e)
    ensures Settled(Apply(fs, e)) <==> Settled(fs) && !Orphans(fs, e)
  {
    hide Sound, Create, Open, Remove, Close, Reopen, DenyWrite, AllowWrite, WriteFile, ReadFile, Seek, Boot, Opens, On,
      Live;
    match e {
      case EvCreate(name, size, d, l) => CreateSettles(fs, name, size, d, l);
      case EvOpen(name, d, h, l) => OpenSettles(fs, name, d, h, l);
      case EvRemove(name, d, h, l) => RemoveSettles(fs, name, d, h, l);
      case EvClose(h, l) => CloseSettles(fs, h, l);
      case EvReopen(h, g, l) => ReopenSettles(fs, h, g, l);
      case EvDenyWrite(h) => DenySound(fs, h, true);
      case EvAllowWrite(h) => DenySound(fs, h, false);
      case EvWrite(h, data, bounce) => WriteFileSound(fs, h, data, bounce);
      case EvRead(h, size, bounce) => SeekSame(fs, h, size, bounce);
      case EvSeek(h, pos) => SeekSame(fs, h, pos, true);
      case EvBoot => BootSettles(fs);
    }
  }

  lemma SeekSame(fs: Fs, h: nat, n: nat, bounce: bool)
    ensures Settled(Seek(fs, h, n)) == Settled(fs) && Settled(ReadFile(fs, h, n, bounce).0) == Settled(fs)
  {
    hide Opens;
  }

  /** Once a marked sector cannot be reached it stays so, and an event leaves one behind exactly in
      the cases of `Orphans`. */
  lemma OrphansExactly(fs: Fs, e: Event)
    requires Ready(fs) && Enabled(fs, e)
    ensures NoOrphans(Apply(fs, e)) <==> NoOrphans(fs) && !Orphans(fs, e)
  {
    hide Sound, Apply, Orphans, Enabled, NoOrphans, Settled;
    ApplyReady(fs, e);
    InvOf(fs);
    InvOf(Apply(fs, e));
    OrphansAre(fs);
    OrphansAre(Apply(fs, e));
    EventSettles(fs, e);
  }

  // ---- runs ----

  /** No event of a run leaves anything behind. */
  ghost predicate Tidy(fs: Fs, es: seq<Event>)
    decreases |es|
  {
    es == [] || (!Orphans(fs, es[0]) && Tidy(Apply(fs, es[0]), es[1..]))
  }

  lemma {:induction false} TidyMeaning(fs: Fs, es: seq<Event>)
    ensures Tidy(fs, es) <==> forall n | 0 <= n < |es| :: !Orphans(Run(fs, es[..n]), es[n])
    decreases |es|
  {
    hide Apply, Orphans;
    if es != [] {
      var r, rest := Apply(fs, es[0]), es[1..];
      TidyMeaning(r, rest);
      forall n | 0 <= n < |rest| ensures Run(fs, es[..n + 1]) == Run(r, rest[..n]) && es[n + 1] == rest[n] {
        assert es[..n + 1][1..] == rest[..n];
      }
      assert Run(fs, es[..0]) == fs;
      if forall n | 0 <= n < |es| :: !Orphans(Run(fs, es[..n]), es[n]) {
        forall n | 0 <= n < |rest| ensures !Orphans(Run(r, rest[..n]), rest[n]) {
          assert !Orphans(Run(fs, es[..n + 1]), es[n + 1]);
        }
      } else {
        var n :| 0 <= n < |es| && Orphans(Run(fs, es[..n]), es[n]);
        if n > 0 {
          assert Orphans(Run(r, rest[..n - 1]), rest[n - 1]);
        }
      }
    }
  }

  lemma {:induction false} RunTidy(fs: Fs, es: seq<Event>)
    requires Ready(fs) && Allowed(fs, es)
    ensures NoOrphans(Run(fs, es)) <==> NoOrphans(fs) && Tidy(fs, es)
    decreases |es|
  {
    hide Ready, Enabled, Apply, Orphans, NoOrphans;
    if es != [] {
      ApplyReady(fs, es[0]);
      OrphansExactly(fs, es[0]);
      RunTidy(Apply(fs, es[0]), es[1..]);
    }
  }

  /** In a run from a format on, every marked sector can be reached at the end if and only if no
      event on the way was one of `Orphans`. */
  lemma OrphansInRuns(device: seq<Sector>, es: seq<Event>, fs: Fs)
    requires Reached(device, es, fs)
    ensures NoOrphans(fs)
            <==> forall n | 0 <= n < |es| :: !Orphans(Run(Format(device).value, es[..n]), es[n])
  {
    hide Format, Run, Allowed, Sound, Live, NoOrphans, Orphans, Tidy, Settled;
    FormatSound(device);
    FormatSettled(device);
    InvOf(Format(device).value);
    OrphansAre(Format(device).value);
    RunTidy(Format(device).value, es);
    TidyMeaning(Format(device).value, es);
  }

  lemma FormatSettled(device: seq<Sector>)
    requires 2 <= |device| && Format(device).Some?
    ensures Settled(Format(device).value)
  {
    hide DirFormatted, MapFormatted;
  }

  // ---- inputs ----

  /** With two free sectors, a call in which nothing fails leaves one behind: for a file of 512
      bytes whose name is empty, or is there already. */
  lemma LeakLeaves(fs: Fs, name: seq<Byte>, d: nat, j: nat, k: nat)
    requires Ready(fs) && Enabled(fs, EvCreate(name, 512, d, LUCKY))
    requires j < k < |fs.freeMap| && !fs.freeMap[j] && !fs.freeMap[k]
    requires name == [] || exists i :: 0 <= i < ENTRIES && fs.dir[i].inUse && fs.dir[i].name == name
    ensures !NoOrphans(Create(fs, name, 512, d, LUCKY).0)
  {
    hide Sound, NoOrphans, Create, InodeMadeFor, NoEntry, WritesOver, Opens;
    var e := EvCreate(name, 512, d, LUCKY);
    DirSize(fs);
    LeakWitness(fs, name, j, k);
    LeakExactly(fs, name, 512, LUCKY);
    OrphansExactly(fs, e);
  }

  lemma DirSize(fs: Fs)
    requires Ready(fs)
    ensures |fs.dir| == ENTRIES
  {
    hide Owned, OpensOk, MapsOk, Consistent;
  }

  /** With one free sector, a file of which an entry is in the first slot and that is not open, a
      call whose first read for a free slot fails leaves that file's sectors behind. */
  lemma OverwriteLeaves(fs: Fs, name: seq<Byte>, d: nat, k: nat)
    requires var l := LUCKY.(slots := 0); Ready(fs) && Enabled(fs, EvCreate(name, 0, d, l))
    requires k < |fs.freeMap| && !fs.freeMap[k] && 0 < |name| <= NAME_MAX && |fs.dir| == ENTRIES
    requires fs.dir[0].inUse && fs.dir[0].sector !in Opens(fs.open)
    requires forall i | 0 <= i < ENTRIES && fs.dir[i].inUse :: fs.dir[i].name != name
    ensures !NoOrphans(Create(fs, name, 0, d, LUCKY.(slots := 0)).0)
  {
    hide Sound, NoOrphans, Create, Opens, Scan;
    var l := LUCKY.(slots := 0);
    ScanFindsLowest(fs.freeMap, 0, 1, false);
    assert AllAre(fs.freeMap, k, 1, false);
    ScanFindsLowest(Mark(fs.freeMap, Scan(fs.freeMap, 0, 1, false).value, 1, true), 0, 0, false);
    assert AllAre(Mark(fs.freeMap, Scan(fs.freeMap, 0, 1, false).value, 1, true), 0, 0, false);
    Directory.LookupMeaning(fs.dir, name, ENTRIES);
    Directory.SlotIsCut(fs.dir, 0);
    assert WritesOver(fs, l);
    OrphansExactly(fs, EvCreate(name, 0, d, l));
  }
}
