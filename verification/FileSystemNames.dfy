/** What the calls of filesys/filesys.c do to names: which file filesys_open opens, which name
    filesys_create enters and filesys_remove takes away, and when each of them succeeds. */
module FileSystemNames {
  import opened Bytes
  import opened Options
  import opened Bitmap
  import opened InodeIO
  import opened DiskFormat
  import opened OpenInodes
  import opened FileSystem
  import opened FileSystemDevice
  import opened FileSystemRuns
  import opened FileSystemTheorems
  import opened FileSystemLeaks
  import opened FileSystemOrphans
  import opened Directory

  /** dir_open_root gets what it needs. */
  predicate RootOpens(fs: Fs, l: Luck) {
    (l.rootMem || ROOT_DIR_SECTOR in Opens(fs.open)) && l.dirMem
  }

  /** inode_open of `s` gets what it needs. */
  predicate InodeOpens(fs: Fs, s: Sec, l: Luck) {
    l.inodeMem || s in Opens(fs.open)
  }

  // ---- filesys_open ----

  /** Which inode is opened: the one of the first entry with the name. */
  lemma OpenIsLookup(fs: Fs, name: seq<Byte>, d: nat, h: nat, l: Luck)
    requires Sound(fs) && d !in fs.handles && h !in fs.handles && d != h
    ensures var (r, ok) := Open(fs, name, d, h, l); var i := Lookup(fs.dir, name, l.look);
      && r.dir == fs.dir
      && (ok <==> RootOpens(fs, l) && i.Some? && InodeOpens(fs, fs.dir[i.value].sector, l) && l.fileMem)
      && (ok ==> r.handles == fs.handles[h := Handle(fs.dir[i.value].sector, false, 0)])
      && (!ok ==> r.handles == fs.handles)
  {
    hide Sound, OpenRoot, OpenInode, CloseInode, Opens, Live, Lookup, OpenSame;
    OpenSound(fs, name, d, h, l);
    OpenRootSound(fs, d, l);
    RootBut(fs, d, l);
    var (f1, ok) := OpenRoot(fs, d, l);
    var i := Lookup(fs.dir, name, l.look);
    LookupMeaning(fs.dir, name, l.look);
    if ok && i.Some? {
      var s := fs.dir[i.value].sector;
      EntrySector(fs, i.value);
      Openable(f1, i.value);
      SameFor(fs, f1, s);
      OpenInodeSound(f1, s, h, l.inodeMem);
      var (f2, found) := OpenInode(f1, s, h, l.inodeMem);
      HandleOpen(f2, d);
      CloseInodeSound(f2, d, l.maps.0, l.maps.1);
      HandlesAfter(fs.handles, d, h, f2.handles, found);
    } else if ok {
      HandleOpen(f1, d);
      CloseInodeSound(f1, d, l.maps.0, l.maps.1);
    }
  }

  lemma SameFor(fs: Fs, r: Fs, s: Sec)
    requires OpenSame(fs, r, {ROOT_DIR_SECTOR}) && s > ROOT_DIR_SECTOR
    ensures s in Opens(r.open) <==> s in Opens(fs.open)
  {
    hide Opens;
  }

  /** filesys_open opens the file that the name stands for, and succeeds exactly if there is one and
      memory for all it needs. */
  lemma OpenFinds(fs: Fs, name: seq<Byte>, d: nat, h: nat, l: Luck)
    requires Sound(fs) && d !in fs.handles && h !in fs.handles && d != h && l.look >= ENTRIES
    ensures var (r, ok) := Open(fs, name, d, h, l); var found := Find(fs.dir, name);
      && r.dir == fs.dir
      && (ok <==> RootOpens(fs, l) && found.Some? && InodeOpens(fs, found.value, l) && l.fileMem)
      && (ok ==> r.handles == fs.handles[h := Handle(found.value, false, 0)])
      && (!ok ==> r.handles == fs.handles)
  {
    hide Sound, Open, Opens, Lookup;
    OpenIsLookup(fs, name, d, h, l);
    EntriesAre(fs);
    WholeLookup(fs.dir, name, l.look);
  }

  lemma EntriesAre(fs: Fs)
    requires Sound(fs)
    ensures |fs.dir| == ENTRIES
  {
    hide Owned, OpensOk, MapsOk, Consistent;
  }

  lemma {:induction false} WholeLookup(dir: seq<Entry>, name: seq<Byte>, n: nat)
    requires n >= |dir|
    ensures Lookup(dir, name, n) == Lookup(dir, name, |dir|)
  {
    if dir != [] {
      WholeLookup(dir[1..], name, n - 1);
    }
  }

  // ---- filesys_create ----

  /** What the new file is: an inode that was not live, of the size asked for, all zeros. */
  ghost predicate NewFile(fs: Fs, r: Fs, s: Sec, size: nat) {
    && s !in Live(fs) && s > ROOT_DIR_SECTOR && s in r.table && r.table[s].length == size
    && s in r.bytes && r.bytes[s] == ZeroBytes(size)
  }

  lemma CreateInEnters(fs: Fs, name: seq<Byte>, size: nat, l: Luck) returns (f: Fs, s: Sec)
    requires Sound(fs) && size < 0x8000_0000 && NoNulls(name)
    ensures f.dir == fs.dir
    ensures var (r, ok) := CreateIn(fs, name, size, l);
      && (ok <==> InodeMadeFor(fs, size, l) && DirAdd(f, name, s, l).1)
      && r.dir == (if ok then DirAdd(f, name, s, l).0.dir else fs.dir)
      && (ok ==> NewFile(fs, r, s, size))
  {
    hide Sound, Scan, Allocate, DirAdd, ZeroRun, PutSector, InodeSector, ZeroBytes, Release, Live, Opens;
    AllocateSound(fs, 1, l.maps.0);
    AllocateIs(fs, 1, l.maps.0);
    AllocateLive(fs, l.maps.0);
    var (f1, sector) := Allocate(fs, 1, l.maps.0);
    f, s := fs, 0;
    if sector.Some? {
      s := sector.value;
      assert Range(s, 1) == {s};
      LooseNotLive(f1, s);
      AllocateIs(f1, Sectors(size), l.maps.1);
      CreateInodeSound(f1, s, size, l.diskInodeMem, l.maps.1);
      var (f2, made) := CreateInode(f1, s, size, l.diskInodeMem, l.maps.1);
      f := f2;
      DirAddTable(f2, name, s, l);
      DirAfterRelease(f2, s, 1, l.maps.2);
      if !made {
        AddFails(fs, name, s, l);
      }
    }
  }

  lemma DirAddTable(fs: Fs, name: seq<Byte>, s: Sec, l: Luck)
    ensures var (r, ok) := DirAdd(fs, name, s, l); r.table == fs.table && r.bytes == fs.bytes && (!ok ==> r == fs)
  {
    hide Overwritten, EntryBytes, Residue, Range, Lookup, FreeSlot;
  }

  /** An entry can be written in the directory, and the name is not there. */
  predicate CanEnter(dir: seq<Entry>, name: seq<Byte>, l: Luck) {
    && 0 < |name| <= NAME_MAX && Find(dir, name) == None && l.entry
    && exists i :: 0 <= i < |dir| && !dir[i].inUse
  }

  /** filesys_create enters the name, for a new file of the size asked for, and touches no other; it
      succeeds exactly if the name can be entered and there is room and memory for the file. */
  lemma CreateEnters(fs: Fs, name: seq<Byte>, size: nat, d: nat, l: Luck, other: seq<Byte>)
    requires Sound(fs) && d !in fs.handles && size < 0x8000_0000 && NoNulls(name) && UniqueNames(fs.dir)
    requires l.look >= ENTRIES && l.slots >= ENTRIES
    ensures var (r, ok) := Create(fs, name, size, d, l);
      && (ok <==> RootOpens(fs, l) && InodeMadeFor(fs, size, l) && CanEnter(fs.dir, name, l))
      && UniqueNames(r.dir) && (!ok ==> r.dir == fs.dir)
      && (ok ==> Find(r.dir, name).Some? && NewFile(fs, r, Find(r.dir, name).value, size))
      && (other != name || !ok ==> Find(r.dir, other) == Find(fs.dir, other))
  {
    hide Sound, OpenRoot, CreateIn, CloseInode, Opens, Live, DirAdd, InodeMadeFor, CanEnter, UniqueNames, Find, NewFile;
    OpenRootSound(fs, d, l);
    var (f1, ok) := OpenRoot(fs, d, l);
    if ok {
      EntriesAre(fs);
      var f, s := CreateInEnters(f1, name, size, l);
      SameRoom(fs, f1, size, l);
      NameEntered(f, name, s, l, other);
      CreateInSound(f1, name, size, l);
      var r := CreateIn(f1, name, size, l).0;
      ClosedSame(fs.handles, r, d, l.maps.0, l.maps.1);
      NewStays(fs, f1, r, CloseInode(r, d, l.maps.0, l.maps.1), s, size);
    }
  }

  lemma NameEntered(fs: Fs, name: seq<Byte>, s: Sec, l: Luck, other: seq<Byte>)
    requires UniqueNames(fs.dir) && l.look >= |fs.dir| && l.slots >= |fs.dir|
    ensures var (r, ok) := DirAdd(fs, name, s, l);
      && (ok <==> CanEnter(fs.dir, name, l)) && UniqueNames(r.dir) && (ok ==> Find(r.dir, name) == Some(s))
      && (other != name || !ok ==> Find(r.dir, other) == Find(fs.dir, other))
  {
    hide DirAdd, UniqueNames, Find;
    AddEntersOneName(fs, name, s, l, other);
  }

  lemma ClosedSame(handles: map<nat, Handle>, fs: Fs, d: nat, w: MapWrite, w': MapWrite)
    requires Sound(fs) && d !in handles && fs.handles == handles[d := Handle(ROOT_DIR_SECTOR, false, 0)]
    ensures var r := CloseInode(fs, d, w, w'); r.dir == fs.dir && r.table == fs.table && r.bytes == fs.bytes
  {
    hide Sound, CloseInode, Opens;
    HandleOpen(fs, d);
    CloseInodeSound(fs, d, w, w');
  }

  lemma NewStays(fs: Fs, f: Fs, r: Fs, closed: Fs, s: Sec, size: nat)
    requires Live(f) == Live(fs) && closed.table == r.table && closed.bytes == r.bytes
    ensures NewFile(f, r, s, size) ==> NewFile(fs, closed, s, size)
  {
    hide Live;
  }

  // ---- filesys_remove ----

  /** Which entry is erased: the first with the name. */
  lemma RemoveIsLookup(fs: Fs, name: seq<Byte>, d: nat, h: nat, l: Luck)
    requires Sound(fs) && d !in fs.handles && h !in fs.handles && d != h
    ensures var (r, ok) := Remove(fs, name, d, h, l); var i := Lookup(fs.dir, name, l.look);
      && (i.Some? ==> i.value < |fs.dir|)
      && (ok <==> RootOpens(fs, l) && i.Some? && InodeOpens(fs, fs.dir[i.value].sector, l) && l.entry)
      && r.dir == (if ok then fs.dir[i.value := fs.dir[i.value].(inUse := false)] else fs.dir)
  {
    hide Sound, OpenRoot, OpenInode, CloseInode, Opens, Live, Lookup, OpenSame, Erase;
    OpenRootSound(fs, d, l);
    RootBut(fs, d, l);
    var (f1, ok) := OpenRoot(fs, d, l);
    var i := Lookup(fs.dir, name, l.look);
    LookupMeaning(fs.dir, name, l.look);
    if ok && i.Some? {
      var s := fs.dir[i.value].sector;
      EntrySector(fs, i.value);
      Openable(f1, i.value);
      SameFor(fs, f1, s);
      OpenInodeSound(f1, s, h, l.inodeMem);
      var f2 := OpenInode(f1, s, h, l.inodeMem).0;
      ErasedIs(f2, i.value);
      DirAfterClose(f2, h, l.maps.0, l.maps.1);
      DirAfterClose(Erase(f2, i.value), h, l.maps.0, l.maps.1);
      DirAfterClose(DirRemove(f1, name, h, l).0, d, l.maps.0, l.maps.1);
    } else if ok {
      DirAfterClose(f1, d, l.maps.0, l.maps.1);
    }
  }

  /** filesys_remove takes the name away and touches no other; it succeeds exactly if there is a file
      of that name, its entry can be written, and there is memory to open it. */
  lemma RemoveErases(fs: Fs, name: seq<Byte>, d: nat, h: nat, l: Luck, other: seq<Byte>)
    requires Sound(fs) && d !in fs.handles && h !in fs.handles && d != h && UniqueNames(fs.dir) && l.look >= ENTRIES
    ensures var (r, ok) := Remove(fs, name, d, h, l); var found := Find(fs.dir, name);
      && (ok <==> RootOpens(fs, l) && found.Some? && InodeOpens(fs, found.value, l) && l.entry)
      && UniqueNames(r.dir) && (!ok ==> r.dir == fs.dir) && (ok ==> Find(r.dir, name) == None)
      && (other != name || !ok ==> Find(r.dir, other) == Find(fs.dir, other))
  {
    hide Sound, Remove, Opens, Lookup, Erase;
    RemoveIsLookup(fs, name, d, h, l);
    EntriesAre(fs);
    WholeLookup(fs.dir, name, l.look);
    LookupMeaning(fs.dir, name, |fs.dir|);
    var i := Lookup(fs.dir, name, |fs.dir|);
    if i.Some? {
      EraseDropsOneName(fs, i.value, other);
      ErasedIs(fs, i.value);
    }
  }

  /** filesys_remove of a file that nobody has open gives back its sectors, all of them and no others,
      and the file is gone; one that is open stays, marked as removed, and no sector is given back. */
  lemma RemoveReleases(fs: Fs, name: seq<Byte>, d: nat, h: nat, l: Luck, k: Sec)
    requires Sound(fs) && d !in fs.handles && h !in fs.handles && d != h && k < |fs.freeMap|
    requires Remove(fs, name, d, h, l).1
    ensures var r := Remove(fs, name, d, h, l).0; var i := Lookup(fs.dir, name, l.look);
      && i.Some? && i.value < |fs.dir| && |r.freeMap| == |fs.freeMap|
      && var s := fs.dir[i.value].sector;
         if s in Opens(fs.open) then r.freeMap[k] == fs.freeMap[k] && s in Opens(r.open) && Opens(r.open)[s].removed
         else (r.freeMap[k] <==> fs.freeMap[k] && !Uses(fs.table, s, k)) && s !in Opens(r.open)
  {
    hide Sound, OpenRoot, OpenInode, CloseInode, Opens, Live, Lookup, OpenSame, Erase, On, Uses;
    OpenRootSound(fs, d, l);
    RootBut(fs, d, l);
    var f1 := OpenRoot(fs, d, l).0;
    LookupMeaning(fs.dir, name, l.look);
    var i := Lookup(fs.dir, name, l.look).value;
    var s := fs.dir[i].sector;
    EntrySector(fs, i);
    Openable(f1, i);
    SameFor(fs, f1, s);
    OpenInodeSound(f1, s, h, l.inodeMem);
    var f2 := OpenInode(f1, s, h, l.inodeMem).0;
    EraseSound(f2, i);
    var f3 := Erase(f2, i);
    CloseInodeSound(f3, h, l.maps.0, l.maps.1);
    OpenersAre(f1, h, s, f3.handles);
    var f4 := CloseInode(f3, h, l.maps.0, l.maps.1);
    RemovedStays(f3, h, l.maps.0, l.maps.1, s);
    assert f4.handles == f1.handles by {
      assert f1.handles[h := Handle(s, false, 0)] - {h} == f1.handles;
    }
    HandleOpen(f4, d);
    CloseInodeSound(f4, d, l.maps.0, l.maps.1);
    RootNotRemoved(f4);
    if s in Opens(f4.open) {
      RemovedStays(f4, d, l.maps.0, l.maps.1, s);
    }
  }

  lemma OpenersAre(fs: Fs, h: nat, s: Sec, after: map<nat, Handle>)
    requires Sound(fs) && h !in fs.handles && after == fs.handles[h := Handle(s, false, 0)]
    ensures On(after, s) == {h} <==> s !in Opens(fs.open)
  {
    hide Opens, Owned, DirOk, MapsOk, Consistent;
    if s in Opens(fs.open) {
      assert InodeOk(fs, s, Opens(fs.open)[s]);
      var g :| g in On(fs.handles, s);
      assert g in On(after, s) && g != h;
    } else {
      NotOpen(fs, s);
      assert forall g | g in On(after, s) && g != h :: g in On(fs.handles, s);
      assert h in On(after, s);
    }
  }

  lemma RemovedStays(fs: Fs, h: nat, w: MapWrite, w': MapWrite, s: Sec)
    requires Sound(fs) && IsOpen(fs, h) && s in Opens(fs.open) && Opens(fs.open)[s].removed
    ensures var r := CloseInode(fs, h, w, w'); s in Opens(r.open) ==> Opens(r.open)[s].removed
  {
    hide Owned, DirOk, MapsOk, Consistent, Opens, SetInode, DropInode, Release, DistinctSectors, On, Denying;
    var t := fs.handles[h].sector;
    var i := Opens(fs.open)[t];
    OpensKeys(fs.open);
    assert InodeOk(fs, t, i);
    SetInodeIs(fs.open, i.(openCnt := i.openCnt - 1));
    DropInodeIs(fs.open, t);
    ReleaseOpens(fs.(handles := fs.handles - {h}, open := DropInode(fs.open, t)), t, i.data, w, w');
  }

  lemma ReleaseOpens(fs: Fs, t: Sec, x: Extent, w: MapWrite, w': MapWrite)
    ensures Release(Release(fs, t, 1, w), x.start, Sectors(x.length), w').open == fs.open
  {
    hide WriteMap;
    WriteMapTouches(fs.(freeMap := Mark(fs.freeMap, t, 1, false)), w);
    var r := Release(fs, t, 1, w);
    WriteMapTouches(r.(freeMap := Mark(r.freeMap, x.start, Sectors(x.length), false)), w');
  }

  lemma RootNotRemoved(fs: Fs)
    requires Sound(fs) && ROOT_DIR_SECTOR in Opens(fs.open)
    ensures !Opens(fs.open)[ROOT_DIR_SECTOR].removed
  {
    hide Owned, DirOk, MapsOk, Consistent, Opens;
    assert InodeOk(fs, ROOT_DIR_SECTOR, Opens(fs.open)[ROOT_DIR_SECTOR]);
  }

  // ---- room for a file ----

  /** The lowest free sector is left for the inode, and there is a run of free ones for the data
      besides. */
  ghost predicate Room(m: seq<bool>, size: nat) {
    exists j: nat, a: nat :: LowestFree(m, j) && AllAre(m, a, Sectors(size), false) && !(a <= j < a + Sectors(size))
  }

  ghost predicate LowestFree(m: seq<bool>, j: nat) {
    j < |m| && !m[j] && forall i | 0 <= i < j :: m[i]
  }

  /** inode_create succeeds for a new sector exactly if there is room, and memory. */
  lemma RoomIs(fs: Fs, size: nat, l: Luck)
    ensures InodeMadeFor(fs, size, l) <==> l.maps.0.ok && l.diskInodeMem && l.maps.1.ok && Room(fs.freeMap, size)
  {
    hide Scan;
    var m, cnt := fs.freeMap, Sectors(size);
    FirstIsLowest(m);
    var first := Scan(m, 0, 1, false);
    if first.Some? {
      RunBesides(m, first.value, cnt);
    }
  }

  lemma FirstIsLowest(m: seq<bool>)
    ensures var first := Scan(m, 0, 1, false);
      && (first.Some? ==> LowestFree(m, first.value)) && forall j: nat | LowestFree(m, j) :: first == Some(j)
  {
    hide Scan;
    ScanFindsLowest(m, 0, 1, false);
    var first := Scan(m, 0, 1, false);
    forall i: nat | i < |m| && (first.Some? ==> i < first.value) ensures m[i] {
      assert !AllAre(m, i, 1, false);
    }
    if first.Some? {
      assert AllAre(m, first.value, 1, false);
      assert !m[first.value];
    }
    forall j: nat | LowestFree(m, j) ensures first == Some(j) {
      assert first.Some? && first.value <= j;
    }
  }

  lemma RunBesides(m: seq<bool>, j: nat, cnt: nat)
    requires j < |m| && !m[j]
    ensures Scan(Mark(m, j, 1, true), 0, cnt, false).Some?
            <==> exists a: nat :: AllAre(m, a, cnt, false) && !(a <= j < a + cnt)
  {
    hide Scan;
    var taken := Mark(m, j, 1, true);
    ScanFindsLowest(taken, 0, cnt, false);
    var run := Scan(taken, 0, cnt, false);
    if run.Some? {
      assert AllAre(taken, run.value, cnt, false);
      assert AllAre(m, run.value, cnt, false);
    }
    if a: nat :| AllAre(m, a, cnt, false) && !(a <= j < a + cnt) {
      assert AllAre(taken, a, cnt, false);
    }
  }
}
