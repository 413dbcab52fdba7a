/** Which sector belongs to whom: the free map (filesys/free-map.c), inodes and their openers
    (filesys/inode.c, filesys/file.c), the root directory (filesys/directory.c) and the
    operations of filesys/filesys.c. */
module FileSystem {
  import opened Bytes
  import opened Options
  import opened Bitmap
  import opened InodeIO
  import opened DiskFormat
  import opened OpenInodes

  const FREE_MAP_SECTOR: Sec := 0
  const ROOT_DIR_SECTOR: Sec := 1
  const ENTRIES: nat := 16

  /** An opener of an inode: a struct file, or a struct dir. */
  datatype Handle = Handle(sector: Sec, denyWrite: bool, pos: nat)

  /** `freeMap` is the bitmap in memory, `open` the list open_inodes and `sectors` the device. What
      the device says is also kept decoded: `diskMap` is the bitmap in the free map file, `table`
      what the inode sectors hold, and `dir` the root directory's entries; Consistent ties them to
      the sectors. `bytes` has each file's contents, as one flat array. `loose` and `lost` keep the
      books: sectors that are marked but belong to no inode, and inodes that are neither in the
      directory nor open, yet were never removed. */
  datatype Fs = Fs(
    freeMap: seq<bool>,
    diskMap: seq<bool>,
    table: map<Sec, Extent>,
    dir: seq<Entry>,
    open: seq<Inode>,
    handles: map<nat, Handle>,
    sectors: seq<Sector>,
    bytes: map<Sec, seq<Byte>>,
    loose: set<Sec>,
    lost: set<Sec>)

  /** What block_read of an inode sector gives. */
  function OnDisk(table: map<Sec, Extent>, s: Sec): Extent {
    if s in table then table[s] else Extent(0, 0)
  }

  // ---- the free map ----

  /** What chance decides of a writing of the free map: whether all of it is written, or else how
      many bytes are. */
  datatype MapWrite = MapWrite(ok: bool, upTo: nat)

  function WrittenBytes(w: MapWrite, n: nat): (r: nat)
    ensures r <= n && (w.ok ==> r == n)
  {
    if w.ok || w.upTo > n then n else w.upTo
  }

  /** bitmap_write to the free map file */
  function WriteMap(fs: Fs, w: MapWrite): Fs {
    var image := MapImage(fs.freeMap);
    var n := WrittenBytes(w, |image|);
    var bits := if 8 * n > |fs.freeMap| then |fs.freeMap| else 8 * n;
    if |fs.diskMap| != |fs.freeMap| then fs
    else
      fs.(diskMap := fs.freeMap[..bits] + fs.diskMap[bits..],
          sectors := Overwritten(fs.sectors, 512 * OnDisk(fs.table, FREE_MAP_SECTOR).start, image[..n]))
  }

  predicate InRange(start: nat, cnt: nat, k: Sec) {
    start <= k < start + cnt
  }

  function Range(start: nat, cnt: nat): (r: set<Sec>)
    ensures forall k: Sec :: k in r <==> InRange(start, cnt, k)
  {
    set k: Sec | k < start + cnt && InRange(start, cnt, k)
  }

  /** free_map_allocate: the sectors found are marked, and nobody's yet. */
  function Allocate(fs: Fs, cnt: nat, w: MapWrite): (Fs, Option<Sec>) {
    match Scan(fs.freeMap, 0, cnt, false)
    case None => (fs, None)
    case Some(start) =>
      var written := WriteMap(fs.(freeMap := Mark(fs.freeMap, start, cnt, true)), w);
      if w.ok then (written.(loose := fs.loose + Range(start, cnt)), Some(start))
      else (written.(freeMap := Mark(written.freeMap, start, cnt, false)), None)
  }

  /** free_map_release */
  function Release(fs: Fs, start: Sec, cnt: nat, w: MapWrite): Fs {
    WriteMap(fs.(freeMap := Mark(fs.freeMap, start, cnt, false)), w)
  }

  // ---- who owns what ----

  predicate InRun(x: Extent, k: Sec) {
    x.start <= k < x.start + Sectors(x.length)
  }

  /** Sector `k` is inode `s`'s own, or one of its data sectors. */
  predicate Uses(table: map<Sec, Extent>, s: Sec, k: Sec) {
    k == s || (s in table && InRun(table[s], k))
  }

  function DirSectors(dir: seq<Entry>): set<Sec> {
    set i | 0 <= i < |dir| && dir[i].inUse :: dir[i].sector
  }

  function Live(fs: Fs): set<Sec> {
    {FREE_MAP_SECTOR, ROOT_DIR_SECTOR} + DirSectors(fs.dir) + Opens(fs.open).Keys + fs.lost
  }

  /** The inodes that can be reached: those the file system keeps for itself, and those in the
      directory or open. `lost` has the ones that were in the directory, or removed while open, and
      then were not dropped as they should have been. */
  function Owners(fs: Fs): set<Sec> {
    {FREE_MAP_SECTOR, ROOT_DIR_SECTOR} + DirSectors(fs.dir) + Opens(fs.open).Keys
  }

  /** No sector has two owners, and the ones marked are exactly those that have one or are
      accounted for as loose. */
  ghost predicate Owned(m: seq<bool>, table: map<Sec, Extent>, live: set<Sec>, loose: set<Sec>) {
    && (forall s | s in live :: s in table && s < |m| && table[s].start + Sectors(table[s].length) <= |m|
                                && !InRun(table[s], s))
    && (forall s: Sec, t: Sec, k: Sec | s in live && t in live && Uses(table, s, k) && Uses(table, t, k) :: s == t)
    && (forall s, k | s in live && k in loose :: !Uses(table, s, k))
    && (forall s: Sec, k: Sec | s in live && Uses(table, s, k) :: k < |m| && m[k])
    && (forall k | k in loose :: k < |m| && m[k])
    && (forall k | 0 <= k < |m| && m[k] && k !in loose :: exists s :: s in live && Uses(table, s, k))
  }

  /** What is marked in memory is marked on disk. */
  ghost predicate MapsOk(freeMap: seq<bool>, diskMap: seq<bool>) {
    && |freeMap| == |diskMap|
    && (forall k | 0 <= k < |freeMap| && freeMap[k] :: diskMap[k])
  }

  ghost predicate DirOk(dir: seq<Entry>, lost: set<Sec>) {
    && |dir| == ENTRIES
    && (forall i | 0 <= i < |dir| && dir[i].inUse :: dir[i].sector > ROOT_DIR_SECTOR && dir[i].sector !in lost)
    && (forall i, j | 0 <= i < j < |dir| && dir[i].inUse && dir[j].inUse :: dir[i].sector != dir[j].sector)
    && (forall s | s in lost :: s > ROOT_DIR_SECTOR)
  }

  function On(handles: map<nat, Handle>, s: Sec): set<nat> {
    set h | h in handles && handles[h].sector == s
  }

  function Denying(handles: map<nat, Handle>, s: Sec): set<nat> {
    set h | h in handles && handles[h].sector == s && handles[h].denyWrite
  }

  ghost predicate InodeOk(fs: Fs, s: Sec, i: Inode) {
    && i.openCnt == |On(fs.handles, s)| > 0
    && i.denyWriteCnt == |Denying(fs.handles, s)|
    && s in fs.table && i.data == fs.table[s]
    && (i.removed ==> s !in fs.lost && s !in DirSectors(fs.dir) && s > ROOT_DIR_SECTOR)
    && (!i.removed ==> s in {FREE_MAP_SECTOR, ROOT_DIR_SECTOR} + DirSectors(fs.dir) + fs.lost)
  }

  ghost predicate OpensOk(fs: Fs) {
    && DistinctSectors(fs.open)
    && (forall s | s in Opens(fs.open) :: InodeOk(fs, s, Opens(fs.open)[s]))
    && (forall h | h in fs.handles :: fs.handles[h].sector in Opens(fs.open))
  }

  ghost predicate Inv(fs: Fs) {
    && Owned(fs.freeMap, fs.table, Live(fs), fs.loose)
    && MapsOk(fs.freeMap, fs.diskMap)
    && DirOk(fs.dir, fs.lost)
    && OpensOk(fs)
  }

  // ---- the free map keeps the books ----

  lemma TakeOwned(m: seq<bool>, table: map<Sec, Extent>, live: set<Sec>, loose: set<Sec>, start: nat, cnt: nat)
    requires Owned(m, table, live, loose) && AllAre(m, start, cnt, false)
    ensures Owned(Mark(m, start, cnt, true), table, live, loose + Range(start, cnt))
  {
    var m', loose' := Mark(m, start, cnt, true), loose + Range(start, cnt);
    forall k | 0 <= k < |m'| && m'[k] && k !in loose' ensures exists s :: s in live && Uses(table, s, k) {
      assert k !in Range(start, cnt);
      assert m[k];
    }
  }

  lemma GiveBackLoose(m: seq<bool>, table: map<Sec, Extent>, live: set<Sec>, loose: set<Sec>, start: nat, cnt: nat)
    requires Owned(m, table, live, loose) && Range(start, cnt) <= loose
    ensures Owned(Mark(m, start, cnt, false), table, live, loose - Range(start, cnt))
  {
    var m', loose' := Mark(m, start, cnt, false), loose - Range(start, cnt);
    forall s: Sec, k: Sec | s in live && Uses(table, s, k) ensures m'[k] {
      assert k !in Range(start, cnt);
    }
    forall k | 0 <= k < |m'| && m'[k] && k !in loose' ensures exists s :: s in live && Uses(table, s, k) {
      assert k !in Range(start, cnt);
      assert m[k];
    }
  }

  /** A new inode, made of loose sectors. */
  lemma AdoptOwned(m: seq<bool>, table: map<Sec, Extent>, live: set<Sec>, loose: set<Sec>, s: Sec)
    requires Owned(m, table, live, loose) && s in table && s in loose
    requires forall k: Sec | Uses(table, s, k) :: k in loose
    requires !InRun(table[s], s) && table[s].start + Sectors(table[s].length) <= |m|
    ensures Owned(m, table, live + {s}, loose - {s} - Range(table[s].start, Sectors(table[s].length)))
  {
    var live', loose' := live + {s}, loose - {s} - Range(table[s].start, Sectors(table[s].length));
    assert Uses(table, s, s);
    assert forall k :: InRun(table[s], k) <==> k in Range(table[s].start, Sectors(table[s].length));
    forall k | 0 <= k < |m| && m[k] && k !in loose' ensures exists t :: t in live' && Uses(table, t, k) {
      if k in loose {
        assert s in live' && Uses(table, s, k);
      } else {
        var t :| t in live && Uses(table, t, k);
        assert t in live';
      }
    }
  }

  /** Writing an inode into a loose sector disturbs no live inode. */
  lemma TableOwned(m: seq<bool>, table: map<Sec, Extent>, live: set<Sec>, loose: set<Sec>, s: Sec, x: Extent)
    requires Owned(m, table, live, loose) && s in loose
    ensures s !in live && Owned(m, table[s := x], live, loose)
  {
    var table' := table[s := x];
    if s in live {
      assert Uses(table, s, s);
      assert false;
    }
    assert forall t: Sec, k: Sec | t in live :: Uses(table', t, k) == Uses(table, t, k);
    forall k: Sec | k < |m| && m[k] && k !in loose ensures exists t :: t in live && Uses(table', t, k) {
      var t :| t in live && Uses(table, t, k);
      assert Uses(table', t, k);
    }
    assert forall t | t in live :: table'[t] == table[t];
  }

  /** The last close of a removed inode. */
  lemma FreeOwned(m: seq<bool>, table: map<Sec, Extent>, live: set<Sec>, loose: set<Sec>, s: Sec)
    requires Owned(m, table, live, loose) && s in live
    ensures var x := table[s];
      Owned(Mark(Mark(m, s, 1, false), x.start, Sectors(x.length), false), table, live - {s}, loose)
  {
    var x := table[s];
    var m' := Mark(Mark(m, s, 1, false), x.start, Sectors(x.length), false);
    assert forall k | 0 <= k < |m| :: m'[k] <==> m[k] && !Uses(table, s, k);
    forall k | 0 <= k < |m'| && m'[k] && k !in loose ensures exists t :: t in live - {s} && Uses(table, t, k) {
      var t :| t in live && Uses(table, t, k);
      assert t in live - {s};
    }
  }

  lemma WriteMapKeeps(fs: Fs, w: MapWrite)
    requires MapsOk(fs.freeMap, fs.diskMap)
    ensures var r := WriteMap(fs, w);
      MapsOk(r.freeMap, r.diskMap) && r == fs.(diskMap := r.diskMap, sectors := r.sectors)
         && |r.sectors| == |fs.sectors|
    ensures w.ok ==> WriteMap(fs, w).diskMap == fs.freeMap
  {
    hide MapImage, Overwritten;
    MapImageLength(fs.freeMap);
    OverwrittenLength(fs.sectors, 512 * OnDisk(fs.table, FREE_MAP_SECTOR).start,
                        MapImage(fs.freeMap)[..WrittenBytes(w, |MapImage(fs.freeMap)|)]);
  }

  lemma MapImageLength(m: seq<bool>)
    ensures |MapImage(m)| == MapBytes(|m|) && 8 * |MapImage(m)| >= |m|
  {
  }

  /** free_map_allocate: the sectors it gives were free, and become loose; when it fails, nothing
      changes in memory. */
  lemma AllocateKeeps(fs: Fs, cnt: nat, w: MapWrite)
    requires Inv(fs)
    ensures var (r, found) := Allocate(fs, cnt, w);
      && Inv(r) && r == fs.(freeMap := r.freeMap, diskMap := r.diskMap, sectors := r.sectors, loose := r.loose)
      && (found.Some? ==> AllAre(fs.freeMap, found.value, cnt, false) && r.loose == fs.loose + Range(found.value, cnt))
      && (found.Some? ==> Range(found.value, cnt) !! fs.loose)
      && (found.None? ==> r.freeMap == fs.freeMap && r.loose == fs.loose)
  {
    hide Owned, DirOk, OpensOk, WriteMap, Opens;
    ScanFindsLowest(fs.freeMap, 0, cnt, false);
    if Scan(fs.freeMap, 0, cnt, false).Some? {
      var start := Scan(fs.freeMap, 0, cnt, false).value;
      var taken := fs.(freeMap := Mark(fs.freeMap, start, cnt, true));
      TakeOwned(fs.freeMap, fs.table, Live(fs), fs.loose, start, cnt);
      FreeNotLoose(fs.freeMap, fs.table, Live(fs), fs.loose, start, cnt);
      WriteTaken(fs, start, cnt, w);
      assert Mark(taken.freeMap, start, cnt, false) == fs.freeMap;
      var r := Allocate(fs, cnt, w).0;
      SameOpens(fs, r);
    }
  }

  lemma FreeNotLoose(m: seq<bool>, table: map<Sec, Extent>, live: set<Sec>, loose: set<Sec>, start: nat, cnt: nat)
    requires Owned(m, table, live, loose) && AllAre(m, start, cnt, false)
    ensures Range(start, cnt) !! loose
  {
  }

  lemma WriteTaken(fs: Fs, start: nat, cnt: nat, w: MapWrite)
    requires MapsOk(fs.freeMap, fs.diskMap) && AllAre(fs.freeMap, start, cnt, false)
    ensures var taken := fs.(freeMap := Mark(fs.freeMap, start, cnt, true)); var r := WriteMap(taken, w);
      && |r.diskMap| == |fs.freeMap| && r == taken.(diskMap := r.diskMap, sectors := r.sectors)
      && (forall j | 0 <= j < |fs.freeMap| && fs.freeMap[j] :: r.diskMap[j])
      && (w.ok ==> r.diskMap == taken.freeMap)
  {
    hide MapImage, Overwritten;
    MapImageLength(Mark(fs.freeMap, start, cnt, true));
  }

  /** The openers look only at the open inodes, the handles, the table, the directory and `lost`. */
  lemma SameOpens(fs: Fs, r: Fs)
    requires OpensOk(fs)
    requires r.open == fs.open && r.handles == fs.handles && r.table == fs.table && r.dir == fs.dir && r.lost == fs.lost
    ensures OpensOk(r)
  {
    hide Opens;
    forall s | s in Opens(r.open) ensures InodeOk(r, s, Opens(r.open)[s]) {
      assert InodeOk(fs, s, Opens(fs.open)[s]);
    }
  }

  lemma ReleaseMaps(fs: Fs, start: Sec, cnt: nat, w: MapWrite)
    requires MapsOk(fs.freeMap, fs.diskMap)
    ensures var r := Release(fs, start, cnt, w);
      && MapsOk(r.freeMap, r.diskMap)
      && r == fs.(freeMap := Mark(fs.freeMap, start, cnt, false), diskMap := r.diskMap, sectors := r.sectors)
  {
    hide WriteMap;
    WriteMapKeeps(fs.(freeMap := Mark(fs.freeMap, start, cnt, false)), w);
  }

  // ---- inodes ----

  /** What chance decides: whether each allocation of memory succeeds, how many directory entries
      are read before one of those reads fails, whether an entry is written, what the entry read
      last has behind its name, and how each writing of the free map goes. */
  datatype Luck = Luck(rootMem: bool, inodeMem: bool, dirMem: bool, diskInodeMem: bool, fileMem: bool,
                       look: nat, slots: nat, entry: bool, pad: seq<Byte>, maps: (MapWrite, MapWrite, MapWrite))

  /** block_write of a sector */
  function PutSector(sectors: seq<Sector>, k: nat, s: Sector): seq<Sector> {
    if k < |sectors| then sectors[k := s] else sectors
  }

  /** The loop of inode_create that writes zeros. */
  function ZeroRun(sectors: seq<Sector>, start: nat, cnt: nat): (r: seq<Sector>)
    ensures |r| == |sectors|
  {
    seq(|sectors|, k requires 0 <= k < |sectors| => if start <= k < start + cnt then ZEROS else sectors[k])
  }

  function ZeroBytes(n: nat): (r: seq<Byte>)
    ensures |r| == n && forall i | 0 <= i < n :: r[i] == 0
  {
    seq(n, i => 0)
  }

  /** inode_create */
  function CreateInode(fs: Fs, sector: Sec, length: nat, mem: bool, w: MapWrite): (Fs, bool) {
    if !mem then (fs, false)
    else
      var (r, start) := Allocate(fs, Sectors(length), w);
      if start.None? then (r, false)
      else
        var x := Extent(start.value, length);
        (r.(table := r.table[sector := x],
            sectors := ZeroRun(PutSector(r.sectors, sector, InodeSector(x)), start.value, Sectors(length)),
            bytes := r.bytes[sector := ZeroBytes(length)]), true)
  }

  /** inode_open, by a new opener `h` */
  function OpenInode(fs: Fs, s: Sec, h: nat, mem: bool): (Fs, bool) {
    if FindOpen(fs.open, s).Some? then
      var i := fs.open[FindOpen(fs.open, s).value];
      (fs.(open := SetInode(fs.open, i.(openCnt := i.openCnt + 1)),
             handles := fs.handles[h := Handle(s, false, 0)]), true)
    else if !mem then (fs, false)
    else
      (fs.(open := [Inode(s, 1, false, 0, OnDisk(fs.table, s))] + fs.open,
           handles := fs.handles[h := Handle(s, false, 0)]), true)
  }

  /** Not the null pointer. */
  predicate IsOpen(fs: Fs, h: nat) {
    h in fs.handles && fs.handles[h].sector in Opens(fs.open)
  }

  /** inode_close by opener `h` */
  function CloseInode(fs: Fs, h: nat, w: MapWrite, w': MapWrite): Fs {
    if !IsOpen(fs, h) then fs else
    var s := fs.handles[h].sector;
    var i := Opens(fs.open)[s];
    var gone := fs.(handles := fs.handles - {h});
    if i.openCnt - 1 != 0 then gone.(open := SetInode(fs.open, i.(openCnt := i.openCnt - 1)))
    else
      var closed := gone.(open := DropInode(fs.open, s));
      if !i.removed then closed
      else Release(Release(closed, s, 1, w), i.data.start, Sectors(i.data.length), w')
  }

  /** file_deny_write and file_allow_write */
  function DenyWrite(fs: Fs, h: nat): Fs {
    if !IsOpen(fs, h) || fs.handles[h].denyWrite then fs else
    var i := Opens(fs.open)[fs.handles[h].sector];
    fs.(handles := fs.handles[h := fs.handles[h].(denyWrite := true)],
        open := SetInode(fs.open, i.(denyWriteCnt := i.denyWriteCnt + 1)))
  }

  function AllowWrite(fs: Fs, h: nat): Fs {
    if !IsOpen(fs, h) || !fs.handles[h].denyWrite then fs else
    var i := Opens(fs.open)[fs.handles[h].sector];
    fs.(handles := fs.handles[h := fs.handles[h].(denyWrite := false)],
        open := SetInode(fs.open, i.(denyWriteCnt := i.denyWriteCnt - 1)))
  }

  lemma CreateInodeKeeps(fs: Fs, s: Sec, length: nat, mem: bool, w: MapWrite)
    requires Inv(fs) && s in fs.loose
    ensures var (r, ok) := CreateInode(fs, s, length, mem, w);
      && Inv(r) && s in r.loose && r.dir == fs.dir && r.open == fs.open && r.handles == fs.handles && r.lost == fs.lost
      && (ok ==> s in r.table && r.table[s].length == length && !InRun(r.table[s], s)
                 && r.table[s].start + Sectors(length) <= |r.freeMap|
                 && forall k: Sec | Uses(r.table, s, k) :: k in r.loose)
      && (ok ==> Range(r.table[s].start, Sectors(length)) !! fs.loose
                 && r.loose == fs.loose + Range(r.table[s].start, Sectors(length)))
      && (!ok ==> r.loose == fs.loose && r.freeMap == fs.freeMap)
  {
    hide OpensOk, DirOk, Opens, ZeroRun, PutSector, InodeSector, ZeroBytes;
    if mem {
      AllocateKeeps(fs, Sectors(length), w);
      var (r, start) := Allocate(fs, Sectors(length), w);
      if start.Some? {
        TableOwned(r.freeMap, r.table, Live(r), r.loose, s, Extent(start.value, length));
        TableOpens(r, CreateInode(fs, s, length, mem, w).0, s, Extent(start.value, length));
        assert fs.freeMap[s];
      }
    }
  }

  lemma TableOpens(fs: Fs, r: Fs, s: Sec, x: Extent)
    requires OpensOk(fs) && s !in Opens(fs.open)
    requires r.open == fs.open && r.handles == fs.handles && r.dir == fs.dir && r.lost == fs.lost
    requires r.table == fs.table[s := x]
    ensures OpensOk(r)
  {
    hide Opens;
    forall t | t in Opens(r.open) ensures InodeOk(r, t, Opens(r.open)[t]) {
      assert InodeOk(fs, t, Opens(fs.open)[t]);
    }
  }

  lemma HandleAdded(handles: map<nat, Handle>, h: nat, s: Sec)
    requires h !in handles
    ensures var r := handles[h := Handle(s, false, 0)];
      && On(r, s) == On(handles, s) + {h} && Denying(r, s) == Denying(handles, s)
      && (forall t | t != s :: On(r, t) == On(handles, t) && Denying(r, t) == Denying(handles, t))
  {
  }

  lemma HandleRemoved(handles: map<nat, Handle>, h: nat)
    requires h in handles && !handles[h].denyWrite
    ensures var r, s := handles - {h}, handles[h].sector;
      && On(r, s) == On(handles, s) - {h} && h in On(handles, s) && Denying(r, s) == Denying(handles, s)
      && (forall t | t != s :: On(r, t) == On(handles, t) && Denying(r, t) == Denying(handles, t))
  {
  }

  lemma HandleDenies(handles: map<nat, Handle>, h: nat, deny: bool)
    requires h in handles && handles[h].denyWrite != deny
    ensures var s := handles[h].sector; var r := handles[h := handles[h].(denyWrite := deny)];
      && On(r, s) == On(handles, s)
      && (if deny then Denying(r, s) == Denying(handles, s) + {h} && h !in Denying(handles, s)
          else Denying(r, s) == Denying(handles, s) - {h} && h in Denying(handles, s))
      && (forall t | t != s :: On(r, t) == On(handles, t) && Denying(r, t) == Denying(handles, t))
  {
  }

  /** Whether an inode may be opened at sector `s`: it is in the directory, or one of the two
      the file system keeps for itself, or it is open and was not removed. */
  predicate CanOpen(fs: Fs, s: Sec) {
    s in {FREE_MAP_SECTOR, ROOT_DIR_SECTOR} + DirSectors(fs.dir) + Opens(fs.open).Keys
  }

  lemma OpenInodeKeeps(fs: Fs, s: Sec, h: nat, mem: bool)
    requires Inv(fs) && CanOpen(fs, s) && h !in fs.handles
    ensures s in fs.table
    ensures var (r, ok) := OpenInode(fs, s, h, mem);
      && Inv(r) && r == fs.(open := r.open, handles := r.handles) && Live(r) == Live(fs)
      && (ok ==> r.handles == fs.handles[h := Handle(s, false, 0)] && s in Opens(r.open)) && (!ok ==> r == fs)
      && (ok <==> mem || s in Opens(fs.open))
  {
    hide MapsOk, DirOk, OpensOk, Opens, SetInode, FindOpen, Owned;
    OwnedTable(fs.freeMap, fs.table, Live(fs), fs.loose, s);
    OpensKeys(fs.open);
    var (r, ok) := OpenInode(fs, s, h, mem);
    if ok {
      OpenOpens(fs, s, h, mem);
      OpenedIs(fs, s, h, mem);
      assert Live(r) == Live(fs);
    }
  }

  lemma OwnedTable(m: seq<bool>, table: map<Sec, Extent>, live: set<Sec>, loose: set<Sec>, s: Sec)
    requires Owned(m, table, live, loose) && s in live
    ensures s in table && s < |m| && table[s].start + Sectors(table[s].length) <= |m| && !InRun(table[s], s)
  {
  }

  /** The list after inode_open: the search keeps its sectors distinct. */
  lemma OpenedIs(fs: Fs, s: Sec, h: nat, mem: bool)
    requires OpensOk(fs) && (mem || s in Opens(fs.open))
    ensures var r := OpenInode(fs, s, h, mem).0;
      && DistinctSectors(r.open)
      && (if s in Opens(fs.open) then
            Opens(r.open) == Opens(fs.open)[s := Opens(fs.open)[s].(openCnt := Opens(fs.open)[s].openCnt + 1)]
          else Opens(r.open) == Opens(fs.open)[s := Inode(s, 1, false, 0, OnDisk(fs.table, s))])
  {
    hide DistinctSectors, InodeOk, SetInode;
    OpensKeys(fs.open);
    if s in Opens(fs.open) {
      var i := Opens(fs.open)[s];
      SetInodeIs(fs.open, i.(openCnt := i.openCnt + 1));
    } else {
      FrontInodeIs(fs.open, Inode(s, 1, false, 0, OnDisk(fs.table, s)));
    }
  }

  lemma OpenOpens(fs: Fs, s: Sec, h: nat, mem: bool)
    requires OpensOk(fs) && CanOpen(fs, s) && h !in fs.handles && s in fs.table && (mem || s in Opens(fs.open))
    ensures OpensOk(OpenInode(fs, s, h, mem).0)
  {
    hide On, Denying, Opens, FindOpen, SetInode, DistinctSectors;
    var r := OpenInode(fs, s, h, mem).0;
    OpenedIs(fs, s, h, mem);
    OpensKeys(fs.open);
    HandleAdded(fs.handles, h, s);
    if s in Opens(fs.open) {
      assert InodeOk(fs, s, Opens(fs.open)[s]);
      NewMember(fs, h, s);
    } else {
      NotOpen(fs, s);
    }
    forall t | t in Opens(r.open) && t != s ensures InodeOk(r, t, Opens(r.open)[t]) {
      assert InodeOk(fs, t, Opens(fs.open)[t]);
    }
  }

  lemma NewMember(fs: Fs, h: nat, s: Sec)
    requires h !in fs.handles
    ensures |On(fs.handles, s) + {h}| == |On(fs.handles, s)| + 1
  {
    assert h !in On(fs.handles, s);
  }

  lemma NotOpen(fs: Fs, s: Sec)
    requires OpensOk(fs) && s !in Opens(fs.open)
    ensures On(fs.handles, s) == {} && Denying(fs.handles, s) == {}
  {
    hide Opens;
    assert forall h | h in fs.handles :: fs.handles[h].sector != s;
  }

  /** inode_close: it releases the sectors of the inode exactly when the inode is removed and this
      is its last opener, and then they belong to no one and are marked free. */
  lemma CloseInodeKeeps(fs: Fs, h: nat, w: MapWrite, w': MapWrite)
    requires Inv(fs) && h in fs.handles && !fs.handles[h].denyWrite && fs.handles[h].sector in Opens(fs.open)
    ensures var s := fs.handles[h].sector; var r := CloseInode(fs, h, w, w');
      && Inv(r) && r.handles == fs.handles - {h} && r.dir == fs.dir && r.loose == fs.loose && r.lost == fs.lost
      && r.table == fs.table && r.bytes == fs.bytes
      && (forall t | t != s :: t in Opens(r.open) <==> t in Opens(fs.open))
      && (s in Opens(r.open) <==> On(fs.handles, s) != {h}) && |r.freeMap| == |fs.freeMap|
      && (forall k | 0 <= k < |fs.freeMap| ::
            r.freeMap[k]
            <==> fs.freeMap[k] && !(On(fs.handles, s) == {h} && Opens(fs.open)[s].removed && Uses(fs.table, s, k)))
  {
    hide Opens, SetInode, DropInode;
    var s := fs.handles[h].sector;
    assert InodeOk(fs, s, Opens(fs.open)[s]);
    HandleRemoved(fs.handles, h);
    if Opens(fs.open)[s].openCnt - 1 != 0 {
      CloseKeepsOpen(fs, h, w, w');
    } else {
      OnlyElement(On(fs.handles, s), h);
      CloseLast(fs, h, w, w');
    }
  }

  lemma OnlyElement(a: set<nat>, h: nat)
    requires h in a && |a| == 1
    ensures a == {h}
  {
    assert |a - {h}| == 0;
  }

  lemma CloseKeepsOpen(fs: Fs, h: nat, w: MapWrite, w': MapWrite)
    requires Inv(fs) && h in fs.handles && !fs.handles[h].denyWrite && fs.handles[h].sector in Opens(fs.open)
    requires Opens(fs.open)[fs.handles[h].sector].openCnt != 1
    ensures var r := CloseInode(fs, h, w, w');
      && Inv(r) && r == fs.(handles := fs.handles - {h}, open := r.open) && Opens(r.open).Keys == Opens(fs.open).Keys
      && On(fs.handles, fs.handles[h].sector) != {h}
  {
    hide MapsOk, DirOk, Owned, On, Denying, Opens, SetInode, DistinctSectors;
    var s, r := fs.handles[h].sector, CloseInode(fs, h, w, w');
    var i := Opens(fs.open)[s];
    OpensKeys(fs.open);
    SetInodeIs(fs.open, i.(openCnt := i.openCnt - 1));
    assert Live(r) == Live(fs);
    HandleRemoved(fs.handles, h);
    assert InodeOk(fs, s, i);
    assert |On(fs.handles, s)| != |{h}|;
    forall t | t in Opens(r.open) ensures InodeOk(r, t, Opens(r.open)[t]) {
      assert InodeOk(fs, t, Opens(fs.open)[t]);
    }
  }

  lemma CloseLast(fs: Fs, h: nat, w: MapWrite, w': MapWrite)
    requires Inv(fs) && h in fs.handles && !fs.handles[h].denyWrite && fs.handles[h].sector in Opens(fs.open)
    requires Opens(fs.open)[fs.handles[h].sector].openCnt == 1 && On(fs.handles, fs.handles[h].sector) == {h}
    ensures var s := fs.handles[h].sector; var r := CloseInode(fs, h, w, w');
      && Inv(r) && r.handles == fs.handles - {h} && r.dir == fs.dir && r.loose == fs.loose && r.lost == fs.lost
      && r.table == fs.table && r.bytes == fs.bytes && Opens(r.open) == Opens(fs.open) - {s}
      && |r.freeMap| == |fs.freeMap|
      && (forall k | 0 <= k < |fs.freeMap| ::
            r.freeMap[k] <==> fs.freeMap[k] && !(Opens(fs.open)[s].removed && Uses(fs.table, s, k)))
  {
    hide DirOk, On, Denying, Opens, DropInode, SetInode, Owned, Release;
    var s, r := fs.handles[h].sector, CloseInode(fs, h, w, w');
    LastIs(fs, h, w, w');
    OwnedTable(fs.freeMap, fs.table, Live(fs), fs.loose, s);
    if Opens(fs.open)[s].removed {
      FreeOwned(fs.freeMap, fs.table, Live(fs), fs.loose, s);
      assert Live(r) == Live(fs) - {s};
    } else {
      assert Live(r) == Live(fs);
    }
    CloseOpens(fs, h, r);
  }

  /** What the close of the last opener does. */
  lemma LastIs(fs: Fs, h: nat, w: MapWrite, w': MapWrite)
    requires OpensOk(fs) && MapsOk(fs.freeMap, fs.diskMap) && DirOk(fs.dir, fs.lost)
    requires IsOpen(fs, h) && !fs.handles[h].denyWrite && Opens(fs.open)[fs.handles[h].sector].openCnt == 1
    ensures var s := fs.handles[h].sector; var i := Opens(fs.open)[s]; var r := CloseInode(fs, h, w, w');
      && s in Live(fs) && s in fs.table && i.data == fs.table[s] && MapsOk(r.freeMap, r.diskMap)
      && (i.removed ==> s !in fs.lost && s !in DirSectors(fs.dir) && s > ROOT_DIR_SECTOR)
      && (!i.removed ==> s in {FREE_MAP_SECTOR, ROOT_DIR_SECTOR} + DirSectors(fs.dir) + fs.lost)
      && DistinctSectors(r.open) && Opens(r.open) == Opens(fs.open) - {s}
      && r == fs.(freeMap := r.freeMap, diskMap := r.diskMap, sectors := r.sectors, open := r.open,
                  handles := fs.handles - {h})
      && r.freeMap == (if i.removed
                       then Mark(Mark(fs.freeMap, s, 1, false), i.data.start, Sectors(i.data.length), false)
                       else fs.freeMap)
  {
    hide On, Denying, Opens, DropInode, SetInode, Release, DistinctSectors, MapsOk;
    var s := fs.handles[h].sector;
    var i := Opens(fs.open)[s];
    assert InodeOk(fs, s, i);
    DropInodeIs(fs.open, s);
    var closed := fs.(handles := fs.handles - {h}, open := DropInode(fs.open, s));
    ReleaseMaps(closed, s, 1, w);
    ReleaseMaps(Release(closed, s, 1, w), i.data.start, Sectors(i.data.length), w');
  }

  lemma CloseOpens(fs: Fs, h: nat, r: Fs)
    requires OpensOk(fs) && h in fs.handles && !fs.handles[h].denyWrite
    requires On(fs.handles, fs.handles[h].sector) == {h}
    requires r.handles == fs.handles - {h} && Opens(r.open) == Opens(fs.open) - {fs.handles[h].sector}
    requires r.table == fs.table && r.dir == fs.dir && r.lost == fs.lost && DistinctSectors(r.open)
    ensures OpensOk(r)
  {
    hide Opens;
    HandleRemoved(fs.handles, h);
    forall t | t in Opens(r.open) ensures InodeOk(r, t, Opens(r.open)[t]) {
      assert InodeOk(fs, t, Opens(fs.open)[t]);
    }
    assert forall g | g in fs.handles && g != h :: g !in On(fs.handles, fs.handles[h].sector);
  }

  lemma DenyKeeps(fs: Fs, h: nat, deny: bool)
    requires Inv(fs) && h in fs.handles
    ensures fs.handles[h].sector in Opens(fs.open)
    ensures var r := if deny then DenyWrite(fs, h) else AllowWrite(fs, h);
      && Inv(r) && r == fs.(open := r.open, handles := r.handles) && Opens(r.open).Keys == Opens(fs.open).Keys
      && r.handles == fs.handles[h := fs.handles[h].(denyWrite := deny)]
      && Opens(r.open)[fs.handles[h].sector].removed == Opens(fs.open)[fs.handles[h].sector].removed
  {
    hide MapsOk, DirOk, Owned, InodeOk, Opens, SetInode, DistinctSectors;
    var s, r := fs.handles[h].sector, if deny then DenyWrite(fs, h) else AllowWrite(fs, h);
    assert fs.handles[h := fs.handles[h]] == fs.handles;
    if fs.handles[h].denyWrite != deny {
      var i := Opens(fs.open)[s];
      OpensKeys(fs.open);
      SetInodeIs(fs.open, i.(denyWriteCnt := i.denyWriteCnt + if deny then 1 else -1));
      assert Live(r) == Live(fs);
      DenyOpens(fs, r, h, deny);
    }
  }

  lemma DenyOpens(fs: Fs, r: Fs, h: nat, deny: bool)
    requires OpensOk(fs) && h in fs.handles && fs.handles[h].denyWrite != deny && DistinctSectors(r.open)
    requires r.handles == fs.handles[h := fs.handles[h].(denyWrite := deny)]
    requires r.table == fs.table && r.dir == fs.dir && r.lost == fs.lost
    requires var i := Opens(fs.open)[fs.handles[h].sector];
      Opens(r.open)
      == Opens(fs.open)[fs.handles[h].sector := i.(denyWriteCnt := i.denyWriteCnt + if deny then 1 else -1)]
    ensures OpensOk(r)
  {
    hide On, Denying, Opens, DistinctSectors;
    HandleDenies(fs.handles, h, deny);
    forall t | t in Opens(r.open) ensures InodeOk(r, t, Opens(r.open)[t]) {
      assert InodeOk(fs, t, Opens(fs.open)[t]);
    }
  }

  // ---- reading and writing open files ----

  /** How many bytes inode_write_at moves. */
  function WriteCount(fs: Fs, h: nat, size: nat, bounce: bool): (n: nat)
    requires IsOpen(fs, h)
    ensures n <= size
  {
    var i := Opens(fs.open)[fs.handles[h].sector];
    if i.denyWriteCnt != 0 then 0 else Moved(i.data, size, fs.handles[h].pos, bounce)
  }

  function Patch(b: seq<Byte>, pos: nat, data: seq<Byte>): seq<Byte> {
    if data == [] || pos + |data| > |b| then b else b[..pos] + data + b[pos + |data|..]
  }

  /** file_write */
  function WriteFile(fs: Fs, h: nat, data: seq<Byte>, bounce: bool): (Fs, nat) {
    if !IsOpen(fs, h) then (fs, 0) else
    var f := fs.handles[h];
    var n := WriteCount(fs, h, |data|, bounce);
    if n == 0 then (fs, 0)
    else
      (fs.(handles := fs.handles[h := f.(pos := f.pos + n)],
           sectors := Overwritten(fs.sectors, 512 * Opens(fs.open)[f.sector].data.start + f.pos, data[..n]),
           bytes := if f.sector in fs.bytes then fs.bytes[f.sector := Patch(fs.bytes[f.sector], f.pos, data[..n])]
                    else fs.bytes), n)
  }

  /** file_read, which moves the position, and file_seek */
  function ReadFile(fs: Fs, h: nat, size: nat, bounce: bool): (Fs, nat) {
    if !IsOpen(fs, h) then (fs, 0) else
    var n := Moved(Opens(fs.open)[fs.handles[h].sector].data, size, fs.handles[h].pos, bounce);
    (Seek(fs, h, fs.handles[h].pos + n), n)
  }

  function Seek(fs: Fs, h: nat, pos: nat): Fs {
    if h in fs.handles then fs.(handles := fs.handles[h := fs.handles[h].(pos := pos)]) else fs
  }

  lemma HandleMoved(handles: map<nat, Handle>, h: nat, pos: nat)
    requires h in handles
    ensures var r := handles[h := handles[h].(pos := pos)];
      forall t :: On(r, t) == On(handles, t) && Denying(r, t) == Denying(handles, t)
  {
  }

  lemma SeekKeeps(fs: Fs, h: nat, pos: nat)
    requires Inv(fs)
    ensures Inv(Seek(fs, h, pos)) && Live(Seek(fs, h, pos)) == Live(fs)
  {
    hide Owned, MapsOk, DirOk, Opens, On, Denying;
    if h in fs.handles {
      var r := Seek(fs, h, pos);
      HandleMoved(fs.handles, h, pos);
      forall s | s in Opens(r.open) ensures InodeOk(r, s, Opens(r.open)[s]) {
        assert InodeOk(fs, s, Opens(fs.open)[s]);
      }
    }
  }

  lemma WriteFileKeeps(fs: Fs, h: nat, data: seq<Byte>, bounce: bool)
    requires Inv(fs) && h in fs.handles
    ensures IsOpen(fs, h)
    ensures var (r, n) := WriteFile(fs, h, data, bounce);
      && Inv(r) && r == fs.(handles := r.handles, sectors := r.sectors, bytes := r.bytes) && Live(r) == Live(fs)
      && r.handles == fs.handles[h := fs.handles[h].(pos := fs.handles[h].pos + n)]
      && n == WriteCount(fs, h, |data|, bounce)
  {
    hide Owned, MapsOk, DirOk, Opens, On, Denying, Overwritten, WriteCount, Patch;
    var (r, n) := WriteFile(fs, h, data, bounce);
    assert fs.handles[h := fs.handles[h]] == fs.handles;
    if n > 0 {
      SeekKeeps(fs, h, fs.handles[h].pos + n);
      SameOpens(Seek(fs, h, fs.handles[h].pos + n), r);
    }
  }

  // ---- the root directory ----

  /** lookup, when the first `n` entries can be read. */
  function Lookup(dir: seq<Entry>, name: seq<Byte>, n: nat): (r: Option<nat>)
    ensures r.Some? ==> r.value < |dir| && dir[r.value].inUse && dir[r.value].name == name
  {
    if n == 0 || dir == [] then None
    else if dir[0].inUse && dir[0].name == name then Some(0)
    else
      var r := Lookup(dir[1..], name, n - 1);
      if r.Some? then Some(r.value + 1) else None
  }

  /** The slot dir_add writes to: the first that is free among those it could read, or else the
      one after them. */
  function FreeSlot(dir: seq<Entry>, n: nat): (r: nat)
    ensures r <= |dir| && r <= n && (r < n && r < |dir| ==> !dir[r].inUse)
  {
    if n == 0 || dir == [] || !dir[0].inUse then 0 else 1 + FreeSlot(dir[1..], n - 1)
  }

  /** What the name's field of an entry has behind the null byte. */
  function Residue(pad: seq<Byte>, n: nat): (r: seq<Byte>)
    ensures |r| == n
  {
    seq(n, i requires 0 <= i < n => if i < |pad| then pad[i] else 0)
  }

  /** Where slot `slot` of the root directory is on the device. */
  function SlotAt(table: map<Sec, Extent>, slot: nat): nat {
    512 * OnDisk(table, ROOT_DIR_SECTOR).start + ENTRY * slot
  }

  /** dir_add. If reading the entries fails half-way, it writes over one that is in use, and the
      inode there is lost. */
  function DirAdd(fs: Fs, name: seq<Byte>, sector: Sec, l: Luck): (Fs, bool) {
    var slot := FreeSlot(fs.dir, l.slots);
    if name == [] || |name| > NAME_MAX || Lookup(fs.dir, name, l.look).Some? || slot == |fs.dir| || !l.entry
    then (fs, false)
    else
      (fs.(dir := fs.dir[slot := Entry(true, name, sector)],
           sectors := Overwritten(fs.sectors, SlotAt(fs.table, slot),
                                  EntryBytes(name, sector, Residue(l.pad, NAME_MAX - |name|))),
           loose := fs.loose - {sector}
                    - Range(OnDisk(fs.table, sector).start, Sectors(OnDisk(fs.table, sector).length)),
           lost := fs.lost + if fs.dir[slot].inUse then {fs.dir[slot].sector} else {}), true)
  }

  lemma SlotWritten(dir: seq<Entry>, slot: nat, e: Entry)
    requires slot < |dir|
    requires forall i | 0 <= i < |dir| && dir[i].inUse && i != slot ::
        dir[slot].inUse ==> dir[i].sector != dir[slot].sector
    ensures DirSectors(dir[slot := e])
            == DirSectors(dir) - (if dir[slot].inUse then {dir[slot].sector} else {})
               + (if e.inUse then {e.sector} else {})
  {
    var r := dir[slot := e];
    forall s | s in DirSectors(dir) - (if dir[slot].inUse then {dir[slot].sector} else {})
        + (if e.inUse then {e.sector} else {})
      ensures s in DirSectors(r)
    {
      if s in DirSectors(dir) && !(dir[slot].inUse && s == dir[slot].sector) {
        var i :| 0 <= i < |dir| && dir[i].inUse && dir[i].sector == s;
        assert r[i] == dir[i];
      } else {
        assert r[slot] == e;
      }
    }
    forall s | s in DirSectors(r)
      ensures s in DirSectors(dir) - (if dir[slot].inUse then {dir[slot].sector} else {})
          + (if e.inUse then {e.sector} else {})
    {
      var i :| 0 <= i < |r| && r[i].inUse && r[i].sector == s;
      if i != slot {
        assert dir[i] == r[i];
      }
    }
  }

  lemma DirAddKeeps(fs: Fs, name: seq<Byte>, sector: Sec, l: Luck)
    requires Inv(fs) && sector in fs.table && sector in fs.loose
    requires forall k: Sec | Uses(fs.table, sector, k) :: k in fs.loose
    requires !InRun(fs.table[sector], sector)
    requires fs.table[sector].start + Sectors(fs.table[sector].length) <= |fs.freeMap|
    ensures var (r, ok) := DirAdd(fs, name, sector, l);
      && Inv(r) && r.open == fs.open && r.handles == fs.handles && (!ok ==> r == fs)
      && (ok ==> sector in DirSectors(r.dir) && r.freeMap == fs.freeMap && Live(r) == Live(fs) + {sector})
  {
    hide MapsOk, OpensOk, Opens, Overwritten, EntryBytes, Residue, Owned;
    var slot, r := FreeSlot(fs.dir, l.slots), DirAdd(fs, name, sector, l).0;
    if DirAdd(fs, name, sector, l).1 {
      NotLive(fs, sector);
      SlotWritten(fs.dir, slot, Entry(true, name, sector));
      AdoptOwned(fs.freeMap, fs.table, Live(fs), fs.loose, sector);
      assert Live(r) == Live(fs) + {sector};
      InDir(fs.dir, sector);
      AddOpens(fs, r, sector, slot);
    }
  }

  lemma NotLive(fs: Fs, s: Sec)
    requires Owned(fs.freeMap, fs.table, Live(fs), fs.loose) && s in fs.loose
    ensures s !in Live(fs) && s > ROOT_DIR_SECTOR
  {
    if s in Live(fs) {
      assert Uses(fs.table, s, s);
      assert false;
    }
  }

  lemma InDir(dir: seq<Entry>, s: Sec)
    ensures s !in DirSectors(dir) ==> forall i | 0 <= i < |dir| && dir[i].inUse :: dir[i].sector != s
  {
  }

  lemma AddOpens(fs: Fs, r: Fs, sector: Sec, slot: nat)
    requires OpensOk(fs) && sector !in Opens(fs.open) && slot < |fs.dir|
    requires r.open == fs.open && r.handles == fs.handles && r.table == fs.table
    requires var was := if fs.dir[slot].inUse then {fs.dir[slot].sector} else {};
      DirSectors(r.dir) == DirSectors(fs.dir) - was + {sector} && r.lost == fs.lost + was
    ensures OpensOk(r)
  {
    hide Opens;
    forall t | t in Opens(r.open) ensures InodeOk(r, t, Opens(r.open)[t]) {
      assert InodeOk(fs, t, Opens(fs.open)[t]);
    }
  }

  /** The heart of dir_remove: the entry is erased and its inode, which is open, marked removed. */
  function Erase(fs: Fs, i: nat): Fs
    requires i < |fs.dir|
  {
    var e := fs.dir[i];
    var d := fs.(dir := fs.dir[i := e.(inUse := false)],
                 sectors := Overwritten(fs.sectors, SlotAt(fs.table, i) + ENTRY - 1, [0]));
    if e.sector in Opens(fs.open) then d.(open := SetInode(fs.open, Opens(fs.open)[e.sector].(removed := true))) else d
  }

  lemma EraseKeeps(fs: Fs, i: nat)
    requires Inv(fs) && i < |fs.dir| && fs.dir[i].inUse && fs.dir[i].sector in Opens(fs.open)
    ensures var r := Erase(fs, i);
      && Inv(r) && r == fs.(dir := r.dir, open := r.open, sectors := r.sectors) && Live(r) == Live(fs)
      && Opens(r.open).Keys == Opens(fs.open).Keys && Opens(r.open)[fs.dir[i].sector].removed
  {
    hide MapsOk, OpensOk, Opens, SetInode, Overwritten, DistinctSectors, Owned;
    var r, s := Erase(fs, i), fs.dir[i].sector;
    SlotWritten(fs.dir, i, fs.dir[i].(inUse := false));
    OpensKeys(fs.open);
    SetOpen(fs, Opens(fs.open)[s].(removed := true));
    assert Live(r) == Live(fs);
    EraseOpens(fs, r, s);
  }

  lemma SetOpen(fs: Fs, i: Inode)
    requires OpensOk(fs) && i.sector in Opens(fs.open)
    ensures DistinctSectors(SetInode(fs.open, i)) && Opens(SetInode(fs.open, i)) == Opens(fs.open)[i.sector := i]
  {
    SetInodeIs(fs.open, i);
  }

  lemma EraseOpens(fs: Fs, r: Fs, s: Sec)
    requires OpensOk(fs) && s in Opens(fs.open) && s > ROOT_DIR_SECTOR && s !in fs.lost && DistinctSectors(r.open)
    requires r.handles == fs.handles && r.table == fs.table && r.lost == fs.lost
    requires Opens(r.open) == Opens(fs.open)[s := Opens(fs.open)[s].(removed := true)]
    requires DirSectors(r.dir) == DirSectors(fs.dir) - {s}
    ensures OpensOk(r)
  {
    hide Opens;
    forall t | t in Opens(r.open) ensures InodeOk(r, t, Opens(r.open)[t]) {
      assert InodeOk(fs, t, Opens(fs.open)[t]);
    }
  }

  /** dir_remove, with `h` for the inode it opens. */
  function DirRemove(fs: Fs, name: seq<Byte>, h: nat, l: Luck): (Fs, bool) {
    var i := Lookup(fs.dir, name, l.look);
    if i.None? then (fs, false)
    else
      var (f1, ok) := OpenInode(fs, fs.dir[i.value].sector, h, l.inodeMem);
      if !ok then (fs, false)
      else if !l.entry || i.value >= |f1.dir| then (CloseInode(f1, h, l.maps.0, l.maps.1), false)
      else (CloseInode(Erase(f1, i.value), h, l.maps.0, l.maps.1), true)
  }

  lemma DirRemoveKeeps(fs: Fs, name: seq<Byte>, h: nat, l: Luck)
    requires Inv(fs) && h !in fs.handles
    ensures var (r, ok) := DirRemove(fs, name, h, l); Inv(r) && r.handles == fs.handles && r.bytes == fs.bytes
    ensures DirRemove(fs, name, h, l).0.loose == fs.loose
  {
    hide Inv, OpenInode, CloseInode, Erase, Opens;
    var i := Lookup(fs.dir, name, l.look);
    if i.Some? {
      var s := fs.dir[i.value].sector;
      Openable(fs, i.value);
      OpenInodeKeeps(fs, s, h, l.inodeMem);
      var (f1, ok) := OpenInode(fs, s, h, l.inodeMem);
      if ok {
        assert f1.handles - {h} == fs.handles;
        if !l.entry {
          CloseInodeKeeps(f1, h, l.maps.0, l.maps.1);
        } else {
          EraseKeeps(f1, i.value);
          CloseInodeKeeps(Erase(f1, i.value), h, l.maps.0, l.maps.1);
        }
      }
    }
  }

  lemma Openable(fs: Fs, i: nat)
    requires i < |fs.dir| && fs.dir[i].inUse
    ensures CanOpen(fs, fs.dir[i].sector)
  {
  }
}
