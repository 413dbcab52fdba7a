/** The operations of filesys/filesys.c and filesys/file.c over whole runs, from the formatting
    of a device on and across reboots. */
module FileSystemRuns {
  import opened Bytes
  import opened Options
  import opened Bitmap
  import opened InodeIO
  import opened DiskFormat
  import opened OpenInodes
  import opened FileSystem
  import opened FileSystemDevice

  // ---- operations ----

  /** dir_open_root, by a new opener `d` */
  function OpenRoot(fs: Fs, d: nat, l: Luck): (Fs, bool) {
    var (f1, ok) := OpenInode(fs, ROOT_DIR_SECTOR, d, l.rootMem);
    if !ok then (fs, false)
    else if !l.dirMem then (CloseInode(f1, d, l.maps.0, l.maps.1), false)
    else (f1, true)
  }

  /** filesys_create, between dir_open_root and dir_close. */
  function CreateIn(fs: Fs, name: seq<Byte>, size: nat, l: Luck): (Fs, bool) {
    var (f1, sector) := Allocate(fs, 1, l.maps.0);
    if sector.None? then (f1, false)
    else
      var (f2, made) := CreateInode(f1, sector.value, size, l.diskInodeMem, l.maps.1);
      var (f3, added) := if made then DirAdd(f2, name, sector.value, l) else (f2, false);
      if added then (f3, true) else (GiveBack(f3, sector.value, l.maps.2), false)
  }

  /** free_map_release of the inode's sector when filesys_create fails. */
  function GiveBack(fs: Fs, s: Sec, w: MapWrite): Fs {
    Release(fs, s, 1, w).(loose := fs.loose - {s})
  }

  function Create(fs: Fs, name: seq<Byte>, size: nat, d: nat, l: Luck): (Fs, bool) {
    var (f1, ok) := OpenRoot(fs, d, l);
    if !ok then (f1, false)
    else
      var (f2, done) := CreateIn(f1, name, size, l);
      (CloseInode(f2, d, l.maps.0, l.maps.1), done)
  }

  /** dir_lookup, opening the inode for `h` */
  function DirLookup(fs: Fs, name: seq<Byte>, h: nat, l: Luck): (Fs, bool) {
    var i := Lookup(fs.dir, name, l.look);
    if i.None? then (fs, false) else OpenInode(fs, fs.dir[i.value].sector, h, l.inodeMem)
  }

  /** filesys_open */
  function Open(fs: Fs, name: seq<Byte>, d: nat, h: nat, l: Luck): (Fs, bool) {
    var (f1, ok) := OpenRoot(fs, d, l);
    if !ok then (f1, false)
    else
      var (f2, found) := DirLookup(f1, name, h, l);
      FileOpen(CloseInode(f2, d, l.maps.0, l.maps.1), h, found, l)
  }

  /** file_open of the inode that `h` opened, or of a null pointer. */
  function FileOpen(fs: Fs, h: nat, found: bool, l: Luck): (Fs, bool) {
    if !found then (fs, false)
    else if !l.fileMem then (CloseInode(fs, h, l.maps.0, l.maps.1), false)
    else (fs, true)
  }

  /** filesys_remove */
  function Remove(fs: Fs, name: seq<Byte>, d: nat, h: nat, l: Luck): (Fs, bool) {
    var (f1, ok) := OpenRoot(fs, d, l);
    if !ok then (f1, false)
    else
      var (f2, done) := DirRemove(f1, name, h, l);
      (CloseInode(f2, d, l.maps.0, l.maps.1), done)
  }

  /** file_close */
  function Close(fs: Fs, h: nat, l: Luck): Fs {
    CloseInode(AllowWrite(fs, h), h, l.maps.0, l.maps.1)
  }

  /** file_reopen */
  function Reopen(fs: Fs, h: nat, g: nat, l: Luck): (Fs, bool) {
    if !IsOpen(fs, h) then (fs, false)
    else FileOpen(OpenInode(fs, fs.handles[h].sector, g, true).0, g, true, l)
  }

  /** The opener that is free_map_file. */
  const FREE_MAP_FILE: nat := 0

  /** filesys_done and filesys_init: the bitmap is read back from the free map file, and nothing
      but it is open. filesys_done writes nothing. */
  function Boot(fs: Fs): Fs {
    Fs(fs.diskMap, fs.diskMap, fs.table, fs.dir,
       [Inode(FREE_MAP_SECTOR, 1, false, 0, OnDisk(fs.table, FREE_MAP_SECTOR))],
       map[FREE_MAP_FILE := Handle(FREE_MAP_SECTOR, false, 0)],
       fs.sectors, fs.bytes,
       fs.loose + (set k: Sec | k < |fs.diskMap| && k < |fs.freeMap| && fs.diskMap[k] && !fs.freeMap[k]),
       fs.lost + (set s | s in Opens(fs.open) && Opens(fs.open)[s].removed))
  }

  // ---- each keeps the invariant ----

  lemma OpenRootSound(fs: Fs, d: nat, l: Luck)
    requires Sound(fs) && d !in fs.handles
    ensures var (r, ok) := OpenRoot(fs, d, l);
      && Sound(r) && r.bytes == fs.bytes && r.loose == fs.loose && r.lost == fs.lost && r.dir == fs.dir
      && r.table == fs.table
      && Live(r) <= Live(fs)
      && (ok ==> r == fs.(open := r.open, handles := fs.handles[d := Handle(ROOT_DIR_SECTOR, false, 0)])
                 && ROOT_DIR_SECTOR in Opens(r.open) && Live(r) == Live(fs))
      && (!ok ==> r.handles == fs.handles)
      && (ok <==> (l.rootMem || ROOT_DIR_SECTOR in Opens(fs.open)) && l.dirMem)
  {
    hide Sound, OpenInode, CloseInode, Opens;
    OpenInodeSound(fs, ROOT_DIR_SECTOR, d, l.rootMem);
    var (f1, ok) := OpenInode(fs, ROOT_DIR_SECTOR, d, l.rootMem);
    if ok && !l.dirMem {
      CloseInodeSound(f1, d, l.maps.0, l.maps.1);
      assert fs.handles[d := Handle(ROOT_DIR_SECTOR, false, 0)] - {d} == fs.handles;
    }
  }

  lemma GiveBackSound(fs: Fs, s: Sec, w: MapWrite)
    requires Sound(fs) && s in fs.loose
    ensures var r := GiveBack(fs, s, w);
      && Sound(r) && r == fs.(freeMap := r.freeMap, diskMap := r.diskMap, sectors := r.sectors, loose := fs.loose - {s})
      && Live(r) == Live(fs) && |r.freeMap| == |fs.freeMap|
      && forall k | 0 <= k < |fs.freeMap| :: r.freeMap[k] == (fs.freeMap[k] && k != s)
  {
    hide DirOk, OpensOk, WriteMap, Dev, Opens, Release, Owned;
    assert Range(s, 1) == {s};
    GiveBackLoose(fs.freeMap, fs.table, Live(fs), fs.loose, s, 1);
    ReleaseMaps(fs, s, 1, w);
    ReleaseDev(fs, s, 1, w, fs.freeMap, Live(fs), fs.loose);
    var r := GiveBack(fs, s, w);
    assert Live(r) == Live(fs);
    SameOpens(fs, r);
  }

  /** The data sectors of a file that could not be given a name. */
  function Leak(fs: Fs, name: seq<Byte>, size: nat, l: Luck): set<Sec> {
    var (f1, sector) := Allocate(fs, 1, l.maps.0);
    if sector.None? then {}
    else
      var (f2, made) := CreateInode(f1, sector.value, size, l.diskInodeMem, l.maps.1);
      if !made || DirAdd(f2, name, sector.value, l).1 then {}
      else Range(OnDisk(f2.table, sector.value).start, Sectors(OnDisk(f2.table, sector.value).length))
  }

  /** What filesys_create does to the books: when it succeeds there is one live inode more, whose
      file is all zeros; when it fails there is none, but `Leak` is left without an owner. */
  lemma CreateInSound(fs: Fs, name: seq<Byte>, size: nat, l: Luck)
    requires Sound(fs) && size < 0x8000_0000 && NoNulls(name)
    ensures var (r, ok) := CreateIn(fs, name, size, l);
      && Sound(r) && r.open == fs.open && r.handles == fs.handles && r.loose == fs.loose + Leak(fs, name, size, l)
      && (ok ==> Leak(fs, name, size, l) == {})
      && (!ok ==> r.dir == fs.dir && r.lost == fs.lost && Live(r) == Live(fs))
      && (forall s | s in Live(fs) :: s in Live(r) && FileSame(fs, r, s))
      && (forall s | s in Live(r) && s !in Live(fs) :: s in r.bytes && r.bytes[s] == ZeroBytes(size))
  {
    hide Sound, Allocate, CreateInode, DirAdd, GiveBack, Opens, Live, ZeroBytes;
    AllocateSound(fs, 1, l.maps.0);
    var (f1, sector) := Allocate(fs, 1, l.maps.0);
    AllocateLive(fs, l.maps.0);
    if sector.Some? {
      var s := sector.value;
      assert Range(s, 1) == {s};
      CreateInodeSound(f1, s, size, l.diskInodeMem, l.maps.1);
      LooseNotLive(f1, s);
      var (f2, made) := CreateInode(f1, s, size, l.diskInodeMem, l.maps.1);
      SameLive(f1, f2);
      if made {
        DirAddSound(f2, name, s, l);
        DirAddBooks(f2, name, s, l);
        if !DirAdd(f2, name, s, l).1 {
          GiveBackSound(f2, s, l.maps.2);
        }
      } else {
        GiveBackSound(f2, s, l.maps.2);
      }
    }
  }

  /** The file at `s` reads the same. */
  predicate FileSame(fs: Fs, r: Fs, s: Sec) {
    (s in r.bytes) == (s in fs.bytes) && (s in fs.bytes ==> r.bytes[s] == fs.bytes[s])
  }

  lemma AllocateLive(fs: Fs, w: MapWrite)
    ensures Live(Allocate(fs, 1, w).0) == Live(fs)
  {
    hide WriteMap, Scan, Opens;
    WriteMapTouches(fs.(freeMap := Mark(fs.freeMap, 0, 0, true)), w);
    if Scan(fs.freeMap, 0, 1, false).Some? {
      WriteMapTouches(fs.(freeMap := Mark(fs.freeMap, Scan(fs.freeMap, 0, 1, false).value, 1, true)), w);
    }
  }

  lemma LooseNotLive(fs: Fs, s: Sec)
    requires Sound(fs) && s in fs.loose
    ensures s !in Live(fs) && s > ROOT_DIR_SECTOR
  {
    hide Consistent;
    NotLive(fs, s);
  }

  lemma SameLive(fs: Fs, r: Fs)
    requires r.dir == fs.dir && r.open == fs.open && r.lost == fs.lost
    ensures Live(r) == Live(fs)
  {
  }

  lemma DirAddBooks(fs: Fs, name: seq<Byte>, s: Sec, l: Luck)
    ensures var (r, ok) := DirAdd(fs, name, s, l); var x := OnDisk(fs.table, s);
      ok ==> r.loose == fs.loose - {s} - Range(x.start, Sectors(x.length))
  {
  }

  lemma CreateSound(fs: Fs, name: seq<Byte>, size: nat, d: nat, l: Luck)
    requires Sound(fs) && d !in fs.handles && size < 0x8000_0000 && NoNulls(name)
    ensures var (r, ok) := Create(fs, name, size, d, l);
      && Sound(r) && r.handles == fs.handles
      && (forall s | s in Live(fs) && s in Live(r) :: FileSame(fs, r, s))
      && (forall s | s in Live(r) && s !in Live(fs) :: s in r.bytes && r.bytes[s] == ZeroBytes(size))
  {
    hide Sound, OpenRoot, CreateIn, CloseInode, Opens, Live, ZeroBytes, FileSame;
    OpenRootSound(fs, d, l);
    var (f1, ok) := OpenRoot(fs, d, l);
    BytesAre(fs, f1);
    if ok {
      CreateInSound(f1, name, size, l);
      var f2 := CreateIn(f1, name, size, l).0;
      CloseRoot(fs.handles, f2, d, l.maps.0, l.maps.1);
      var r := CloseInode(f2, d, l.maps.0, l.maps.1);
      forall s | s in Live(fs) && s in Live(r) ensures FileSame(fs, r, s) {
        assert FileSame(f1, f2, s);
        FileSameThrough(fs, f1, f2, r, s);
      }
    }
  }

  /** dir_close of the root directory */
  lemma CloseRoot(handles: map<nat, Handle>, fs: Fs, d: nat, w: MapWrite, w': MapWrite)
    requires Sound(fs) && d !in handles && fs.handles == handles[d := Handle(ROOT_DIR_SECTOR, false, 0)]
    ensures var r := CloseInode(fs, d, w, w');
      && Sound(r) && r.handles == handles && r.bytes == fs.bytes && r.dir == fs.dir && r.loose == fs.loose
      && r.lost == fs.lost && Live(r) <= Live(fs)
  {
    hide Sound, CloseInode, Opens;
    HandleOpen(fs, d);
    CloseInodeSound(fs, d, w, w');
    assert handles[d := Handle(ROOT_DIR_SECTOR, false, 0)] - {d} == handles;
  }

  lemma BytesAre(fs: Fs, r: Fs)
    requires r.bytes == fs.bytes
    ensures forall s :: FileSame(fs, r, s)
  {
  }

  lemma FileSameThrough(a: Fs, b: Fs, c: Fs, d: Fs, s: Sec)
    requires a.bytes == b.bytes && FileSame(b, c, s) && c.bytes == d.bytes
    ensures FileSame(a, d, s)
  {
  }

  lemma DirLookupSound(fs: Fs, name: seq<Byte>, h: nat, l: Luck)
    requires Sound(fs) && h !in fs.handles
    ensures var (r, found) := DirLookup(fs, name, h, l);
      && Sound(r) && r == fs.(open := r.open, handles := r.handles) && Live(r) == Live(fs)
      && (if found then h in r.handles && r.handles == fs.handles[h := r.handles[h]] && !r.handles[h].denyWrite
                        && r.handles[h].sector > ROOT_DIR_SECTOR
          else r == fs)
  {
    hide Sound, OpenInode, Opens;
    var i := Lookup(fs.dir, name, l.look);
    if i.Some? {
      Openable(fs, i.value);
      EntrySector(fs, i.value);
      OpenInodeSound(fs, fs.dir[i.value].sector, h, l.inodeMem);
    }
  }

  lemma EntrySector(fs: Fs, i: nat)
    requires Sound(fs) && i < |fs.dir| && fs.dir[i].inUse
    ensures fs.dir[i].sector > ROOT_DIR_SECTOR
  {
    hide Owned, OpensOk, Consistent;
  }

  lemma FileOpenSound(fs: Fs, h: nat, found: bool, l: Luck)
    requires Sound(fs) && (found ==> h in fs.handles && !fs.handles[h].denyWrite)
    ensures var (r, ok) := FileOpen(fs, h, found, l);
      && Sound(r) && r.handles == (if found && !ok then fs.handles - {h} else fs.handles)
      && (ok <==> found && l.fileMem)
      && r.bytes == fs.bytes && r.dir == fs.dir && r.loose == fs.loose && r.lost == fs.lost && Live(r) <= Live(fs)
  {
    hide Sound, CloseInode, Opens;
    if found && !l.fileMem {
      HandleOpen(fs, h);
      CloseInodeSound(fs, h, l.maps.0, l.maps.1);
    }
  }

  lemma OpenSound(fs: Fs, name: seq<Byte>, d: nat, h: nat, l: Luck)
    requires Sound(fs) && d !in fs.handles && h !in fs.handles && d != h
    ensures var (r, ok) := Open(fs, name, d, h, l);
      && Sound(r) && r.bytes == fs.bytes && r.dir == fs.dir && r.loose == fs.loose && r.lost == fs.lost
      && Live(r) <= Live(fs)
      && (if ok then h in r.handles && r.handles == fs.handles[h := r.handles[h]]
                        && r.handles[h].sector > ROOT_DIR_SECTOR
          else r.handles == fs.handles)
  {
    hide Sound, OpenRoot, DirLookup, CloseInode, FileOpen, Opens, Live;
    OpenRootSound(fs, d, l);
    var (f1, ok) := OpenRoot(fs, d, l);
    if ok {
      DirLookupSound(f1, name, h, l);
      var (f2, found) := DirLookup(f1, name, h, l);
      HandleOpen(f2, d);
      CloseInodeSound(f2, d, l.maps.0, l.maps.1);
      FileOpenSound(CloseInode(f2, d, l.maps.0, l.maps.1), h, found, l);
      HandlesAfter(fs.handles, d, h, f2.handles, found);
    }
  }

  lemma HandlesAfter(handles: map<nat, Handle>, d: nat, h: nat, after: map<nat, Handle>, found: bool)
    requires d !in handles && h !in handles && d != h
    requires var withRoot := handles[d := Handle(ROOT_DIR_SECTOR, false, 0)];
      if found then h in after && after == withRoot[h := after[h]] else after == withRoot
    ensures if found then after - {d} == handles[h := after[h]] && after - {d} - {h} == handles
                else after - {d} == handles
  {
  }

  lemma HandleOpen(fs: Fs, h: nat)
    requires Sound(fs) && h in fs.handles
    ensures fs.handles[h].sector in Opens(fs.open)
  {
    hide Owned, DirOk, MapsOk, InodeOk, Consistent, Opens;
  }

  lemma RemoveSound(fs: Fs, name: seq<Byte>, d: nat, h: nat, l: Luck)
    requires Sound(fs) && d !in fs.handles && h !in fs.handles && d != h
    ensures var (r, ok) := Remove(fs, name, d, h, l);
      && Sound(r) && r.handles == fs.handles && r.bytes == fs.bytes && r.loose == fs.loose && r.lost == fs.lost
      && Live(r) <= Live(fs)
  {
    hide Sound, OpenRoot, DirRemove, CloseInode, Opens, Live;
    OpenRootSound(fs, d, l);
    var (f1, ok) := OpenRoot(fs, d, l);
    if ok {
      DirRemoveSound(f1, name, h, l);
      HandleOpen(DirRemove(f1, name, h, l).0, d);
      CloseInodeSound(DirRemove(f1, name, h, l).0, d, l.maps.0, l.maps.1);
      assert f1.handles - {d} == fs.handles;
    }
  }

  lemma CloseSound(fs: Fs, h: nat, l: Luck)
    requires Sound(fs) && h in fs.handles
    ensures var r := Close(fs, h, l);
      && Sound(r) && r.handles == fs.handles - {h} && r.bytes == fs.bytes && r.dir == fs.dir && r.loose == fs.loose
      && r.lost == fs.lost && Live(r) <= Live(fs)
  {
    hide Sound, AllowWrite, CloseInode, Opens;
    DenySound(fs, h, false);
    var f := AllowWrite(fs, h);
    SameLiveKeys(fs, f);
    HandleOpen(f, h);
    CloseInodeSound(f, h, l.maps.0, l.maps.1);
    assert f.handles - {h} == fs.handles - {h};
  }

  lemma SameLiveKeys(fs: Fs, r: Fs)
    requires r.dir == fs.dir && Opens(r.open).Keys == Opens(fs.open).Keys && r.lost == fs.lost
    ensures Live(r) == Live(fs)
  {
    hide Opens;
  }

  lemma ReopenSound(fs: Fs, h: nat, g: nat, l: Luck)
    requires Sound(fs) && h in fs.handles && g !in fs.handles
    ensures var (r, ok) := Reopen(fs, h, g, l);
      && Sound(r) && r.bytes == fs.bytes && r.dir == fs.dir && r.loose == fs.loose && r.lost == fs.lost
      && Live(r) <= Live(fs)
      && r.handles == (if ok then fs.handles[g := Handle(fs.handles[h].sector, false, 0)] else fs.handles)
      && (ok <==> l.fileMem)
  {
    hide Sound, OpenInode, FileOpen, Opens, Live;
    HandleOpen(fs, h);
    CanReopen(fs, h);
    OpenInodeSound(fs, fs.handles[h].sector, g, true);
    FileOpenSound(OpenInode(fs, fs.handles[h].sector, g, true).0, g, true, l);
    assert fs.handles[g := Handle(fs.handles[h].sector, false, 0)] - {g} == fs.handles;
  }

  lemma CanReopen(fs: Fs, h: nat)
    requires IsOpen(fs, h)
    ensures CanOpen(fs, fs.handles[h].sector)
  {
    hide Opens;
  }

  lemma BootSound(fs: Fs)
    requires Sound(fs)
    ensures Sound(Boot(fs)) && Live(Boot(fs)) == Live(fs)
  {
    hide OpensOk, MapsOk, Dev, Owned, DirOk, Opens, Live;
    var r := Boot(fs);
    BootLive(fs);
    BootMaps(fs);
    BootOpens(fs);
    BootOwned(fs, Live(fs));
  }

  lemma BootList(x: Extent)
    ensures var open := [Inode(FREE_MAP_SECTOR, 1, false, 0, x)];
      DistinctSectors(open) && Opens(open) == map[FREE_MAP_SECTOR := open[0]]
  {
    var open := [Inode(FREE_MAP_SECTOR, 1, false, 0, x)];
    OpensKeys(open);
    FoundIs(open, 0);
    assert forall s | s in OpenSectors(open) :: s == FREE_MAP_SECTOR;
  }

  lemma BootLive(fs: Fs)
    requires Inv(fs)
    ensures Live(Boot(fs)) == Live(fs) && DirOk(fs.dir, Boot(fs).lost)
  {
    hide Owned, MapsOk, Opens;
    BootList(OnDisk(fs.table, FREE_MAP_SECTOR));
    forall s | s in Opens(fs.open)
      ensures s in Live(Boot(fs)) && (Opens(fs.open)[s].removed ==> s !in DirSectors(fs.dir))
    {
      assert InodeOk(fs, s, Opens(fs.open)[s]);
    }
    forall i | 0 <= i < |fs.dir| && fs.dir[i].inUse ensures fs.dir[i].sector !in Boot(fs).lost {
      assert fs.dir[i].sector in DirSectors(fs.dir);
    }
  }

  lemma BootMaps(fs: Fs)
    requires MapsOk(fs.freeMap, fs.diskMap)
    ensures MapsOk(Boot(fs).freeMap, Boot(fs).diskMap)
  {
  }

  lemma BootOpens(fs: Fs)
    requires Inv(fs)
    ensures OpensOk(Boot(fs))
  {
    hide DirOk, MapsOk, Opens, DistinctSectors;
    var r := Boot(fs);
    BootList(OnDisk(fs.table, FREE_MAP_SECTOR));
    assert FREE_MAP_SECTOR in Live(fs);
    assert On(r.handles, FREE_MAP_SECTOR) == {FREE_MAP_FILE};
    assert Denying(r.handles, FREE_MAP_SECTOR) == {};
  }

  lemma BootOwned(fs: Fs, live: set<Sec>)
    requires Owned(fs.freeMap, fs.table, live, fs.loose) && MapsOk(fs.freeMap, fs.diskMap)
    ensures Owned(fs.diskMap, fs.table, live, Boot(fs).loose)
  {
    hide Opens;
    var loose := Boot(fs).loose;
    forall k: Sec | k < |fs.diskMap| && fs.diskMap[k] && k !in loose
      ensures exists s :: s in live && Uses(fs.table, s, k)
    {
      assert fs.freeMap[k];
    }
  }
}
