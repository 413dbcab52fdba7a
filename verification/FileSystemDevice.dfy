/** What the sectors of the device hold: every inode, the entries of the root directory, the free
    map and the contents of every file lie there as the state of FileSystem says. */
module FileSystemDevice {
  import opened Bytes
  import opened Options
  import opened Bitmap
  import opened InodeIO
  import opened DiskFormat
  import opened OpenInodes
  import opened FileSystem

  /** Inode `s` is on the device, and so are its file's contents. */
  ghost predicate InodeThere(sectors: seq<Sector>, table: map<Sec, Extent>, bytes: map<Sec, seq<Byte>>, s: Sec) {
    && s in table && s < |sectors| && InodeOn(sectors[s]) == table[s] && OnDevice(table[s], sectors)
    && (s > ROOT_DIR_SECTOR ==> s in bytes && bytes[s] == FileBytes(sectors, table[s]))
  }

  ghost predicate DirThere(sectors: seq<Sector>, x: Extent, dir: seq<Entry>) {
    && OnDevice(x, sectors) && x.length == ENTRY * |dir|
    && forall i | 0 <= i < |dir| :: EntryOn(SlotBytes(sectors, x, i)) == dir[i]
  }

  /** The bytes of slot `i`. */
  ghost function SlotBytes(sectors: seq<Sector>, x: Extent, i: nat): (b: seq<Byte>)
    requires OnDevice(x, sectors) && ENTRY * i + ENTRY <= x.length
    ensures |b| == ENTRY
  {
    FileBytes(sectors, x)[ENTRY * i..ENTRY * i + ENTRY]
  }

  ghost predicate MapThere(sectors: seq<Sector>, x: Extent, diskMap: seq<bool>) {
    && OnDevice(x, sectors) && x.length == MapBytes(|diskMap|)
    && forall k | 0 <= k < |diskMap| :: k / 8 < x.length && BitOn(FileBytes(sectors, x), k) == diskMap[k]
  }

  ghost predicate Dev(sectors: seq<Sector>, table: map<Sec, Extent>, bytes: map<Sec, seq<Byte>>, dir: seq<Entry>,
                      diskMap: seq<bool>, live: set<Sec>)
  {
    && |sectors| == |diskMap| < 0x1_0000_0000 && FREE_MAP_SECTOR in live && ROOT_DIR_SECTOR in live
    && (forall s | s in live :: InodeThere(sectors, table, bytes, s))
    && DirThere(sectors, table[ROOT_DIR_SECTOR], dir)
    && MapThere(sectors, table[FREE_MAP_SECTOR], diskMap)
  }

  ghost predicate Consistent(fs: Fs) {
    Dev(fs.sectors, fs.table, fs.bytes, fs.dir, fs.diskMap, Live(fs))
  }

  ghost predicate Sound(fs: Fs) {
    Inv(fs) && Consistent(fs)
  }

  // ---- what a write leaves alone ----

  ghost predicate Unchanged(before: seq<Sector>, after: seq<Sector>, c: set<Sec>) {
    |after| == |before| && forall k | 0 <= k < |before| && k !in c :: after[k] == before[k]
  }

  function DataOf(table: map<Sec, Extent>, s: Sec): set<Sec> {
    Range(OnDisk(table, s).start, Sectors(OnDisk(table, s).length))
  }

  lemma ContentsKept(before: seq<Sector>, after: seq<Sector>, c: set<Sec>, x: Extent)
    requires Unchanged(before, after, c) && OnDevice(x, before) && forall k: Sec | InRun(x, k) :: k !in c
    ensures OnDevice(x, after) && FileBytes(after, x) == FileBytes(before, x)
  {
    forall i | 0 <= i < x.length ensures FileBytes(after, x)[i] == FileBytes(before, x)[i] {
      ByteInRun(x, i, before);
      var k := (512 * x.start + i) / 512;
      assert InRun(x, k);
    }
  }

  lemma ByteInRun(x: Extent, i: nat, sectors: seq<Sector>)
    requires i < x.length && OnDevice(x, sectors)
    ensures x.start <= (512 * x.start + i) / 512 < x.start + Sectors(x.length)
    ensures (512 * x.start + i) / 512 < |sectors|
  {
  }

  lemma ThereKept(before: seq<Sector>, after: seq<Sector>, c: set<Sec>, table: map<Sec, Extent>,
                  bytes: map<Sec, seq<Byte>>, s: Sec)
    requires Unchanged(before, after, c) && InodeThere(before, table, bytes, s)
    requires forall k: Sec | Uses(table, s, k) :: k !in c
    ensures InodeThere(after, table, bytes, s)
  {
    hide FileBytes;
    assert Uses(table, s, s);
    ContentsKept(before, after, c, table[s]);
  }

  lemma DirKept(before: seq<Sector>, after: seq<Sector>, c: set<Sec>, x: Extent, dir: seq<Entry>)
    requires Unchanged(before, after, c) && DirThere(before, x, dir) && forall k: Sec | InRun(x, k) :: k !in c
    ensures DirThere(after, x, dir)
  {
    hide FileBytes, EntryOn;
    ContentsKept(before, after, c, x);
  }

  lemma MapKept(before: seq<Sector>, after: seq<Sector>, c: set<Sec>, x: Extent, diskMap: seq<bool>)
    requires Unchanged(before, after, c) && MapThere(before, x, diskMap) && forall k: Sec | InRun(x, k) :: k !in c
    ensures MapThere(after, x, diskMap)
  {
    hide FileBytes, BitOn;
    ContentsKept(before, after, c, x);
  }

  /** Two owners' sectors are apart. */
  lemma ApartFrom(m: seq<bool>, table: map<Sec, Extent>, live: set<Sec>, loose: set<Sec>, s: Sec, t: Sec)
    requires Owned(m, table, live, loose) && s in live && t in live && s != t
    ensures forall k: Sec | Uses(table, s, k) :: k !in DataOf(table, t) && k != t
  {
    forall k: Sec | Uses(table, s, k) ensures k !in DataOf(table, t) && k != t {
      assert !Uses(table, t, k);
    }
  }

  /** A write to the data of one file leaves the inodes, and the data of every other one, alone. */
  lemma DataWritten(m: seq<bool>, table: map<Sec, Extent>, live: set<Sec>, loose: set<Sec>, before: seq<Sector>,
                    after: seq<Sector>, bytes: map<Sec, seq<Byte>>, t: Sec)
    requires Owned(m, table, live, loose) && t in live && Unchanged(before, after, DataOf(table, t))
    requires forall s | s in live :: InodeThere(before, table, bytes, s)
    ensures forall s | s in live && s != t :: InodeThere(after, table, bytes, s)
    ensures forall s: Sec, k: Sec | s in live && s != t && Uses(table, s, k) :: k !in DataOf(table, t)
    ensures t < |after| && t in table && InodeOn(after[t]) == table[t] && OnDevice(table[t], after)
  {
    hide InodeOn, FileBytes, Owned;
    forall s | s in live && s != t
      ensures InodeThere(after, table, bytes, s) && forall k: Sec | Uses(table, s, k) :: k !in DataOf(table, t)
    {
      ApartFrom(m, table, live, loose, s, t);
      assert InodeThere(before, table, bytes, s);
      ThereKept(before, after, DataOf(table, t), table, bytes, s);
    }
    assert InodeThere(before, table, bytes, t);
    OwnedTable(m, table, live, loose, t);
  }

  /** A write to loose sectors leaves everything alone. */
  lemma LooseWritten(m: seq<bool>, table: map<Sec, Extent>, live: set<Sec>, loose: set<Sec>, before: seq<Sector>,
                     after: seq<Sector>, bytes: map<Sec, seq<Byte>>, dir: seq<Entry>, diskMap: seq<bool>)
    requires Owned(m, table, live, loose) && Unchanged(before, after, loose)
    requires Dev(before, table, bytes, dir, diskMap, live)
    ensures Dev(after, table, bytes, dir, diskMap, live)
  {
    hide InodeThere, DirThere, MapThere, Owned;
    forall s | s in live ensures InodeThere(after, table, bytes, s) {
      NotLoose(m, table, live, loose, s);
      ThereKept(before, after, loose, table, bytes, s);
    }
    NotLoose(m, table, live, loose, ROOT_DIR_SECTOR);
    NotLoose(m, table, live, loose, FREE_MAP_SECTOR);
    RunIsUsed(table, ROOT_DIR_SECTOR);
    RunIsUsed(table, FREE_MAP_SECTOR);
    DirKept(before, after, loose, table[ROOT_DIR_SECTOR], dir);
    MapKept(before, after, loose, table[FREE_MAP_SECTOR], diskMap);
  }

  lemma NotLoose(m: seq<bool>, table: map<Sec, Extent>, live: set<Sec>, loose: set<Sec>, s: Sec)
    requires Owned(m, table, live, loose) && s in live
    ensures s in table && forall k: Sec | Uses(table, s, k) :: k !in loose
  {
  }

  lemma RunIsUsed(table: map<Sec, Extent>, s: Sec)
    requires s in table
    ensures forall k: Sec | InRun(table[s], k) :: Uses(table, s, k)
  {
  }

  /** An overwriting of part of an extent changes sectors of that extent only. */
  lemma OverwrittenData(sectors: seq<Sector>, x: Extent, offset: nat, data: seq<Byte>)
    requires OnDevice(x, sectors) && offset + |data| <= x.length
    ensures Unchanged(sectors, Overwritten(sectors, 512 * x.start + offset, data), Range(x.start, Sectors(x.length)))
    ensures OnDevice(x, Overwritten(sectors, 512 * x.start + offset, data))
    ensures var f := FileBytes(sectors, x);
      FileBytes(Overwritten(sectors, 512 * x.start + offset, data), x) == f[..offset] + data + f[offset + |data|..]
  {
    var at, after := 512 * x.start + offset, Overwritten(sectors, 512 * x.start + offset, data);
    forall k | 0 <= k < |sectors| && k !in Range(x.start, Sectors(x.length)) ensures after[k] == sectors[k] {
      assert after[k] == OverwrittenSector(sectors[k], 512 * k, at, data);
      assert 512 * (k + 1) <= 512 * x.start || 512 * k >= 512 * x.start + x.length;
    }
    OverwrittenIsWritten(sectors, at, data);
    WriteIsUpdate(sectors, after, x, offset, data);
  }

  // ---- the free map ----

  lemma BitsWritten(f: seq<Byte>, image: seq<Byte>, n: nat, freeMap: seq<bool>, diskMap: seq<bool>, k: nat)
    requires |freeMap| == |diskMap| && image == MapImage(freeMap) && |f| == |image| && n <= |image| && k < |freeMap|
    requires BitOn(f, k) == diskMap[k]
    ensures var bits := if 8 * n > |freeMap| then |freeMap| else 8 * n;
      k / 8 < |f| && BitOn(image[..n] + f[n..], k) == (freeMap[..bits] + diskMap[bits..])[k]
  {
    hide BitOf, MapImage;
    ByteOfBit(|freeMap|, k);
    MapRoundTrip(freeMap, k);
    var g := image[..n] + f[n..];
    if k < 8 * n {
      assert g[k / 8] == image[k / 8];
    } else {
      assert g[k / 8] == f[k / 8];
    }
  }

  lemma MapWritten(fs: Fs, w: MapWrite, m: seq<bool>, live: set<Sec>, loose: set<Sec>)
    requires Owned(m, fs.table, live, loose) && |fs.freeMap| == |fs.diskMap|
    requires Dev(fs.sectors, fs.table, fs.bytes, fs.dir, fs.diskMap, live)
    ensures var r := WriteMap(fs, w);
      && Dev(r.sectors, fs.table, fs.bytes, fs.dir, r.diskMap, live)
      && Unchanged(fs.sectors, r.sectors, DataOf(fs.table, FREE_MAP_SECTOR))
  {
    hide InodeThere, Owned, MapImage, BitOn, FileBytes, Overwritten;
    FreeMapOnDisk(fs, live);
    var r, x := WriteMap(fs, w), fs.table[FREE_MAP_SECTOR];
    var image := MapImage(fs.freeMap);
    var n := WrittenBytes(w, |image|);
    MapImageLength(fs.freeMap);
    OverwrittenData(fs.sectors, x, 0, image[..n]);
    MapBits(fs, w);
    DataWritten(m, fs.table, live, loose, fs.sectors, r.sectors, fs.bytes, FREE_MAP_SECTOR);
    RunIsUsed(fs.table, ROOT_DIR_SECTOR);
    OwnedTable(m, fs.table, live, loose, ROOT_DIR_SECTOR);
    DirKept(fs.sectors, r.sectors, DataOf(fs.table, FREE_MAP_SECTOR), fs.table[ROOT_DIR_SECTOR], fs.dir);
    assert InodeThere(r.sectors, fs.table, fs.bytes, FREE_MAP_SECTOR) by {
      SmallThere(r.sectors, fs.table, fs.bytes, FREE_MAP_SECTOR);
    }
  }

  lemma FreeMapOnDisk(fs: Fs, live: set<Sec>)
    requires Dev(fs.sectors, fs.table, fs.bytes, fs.dir, fs.diskMap, live)
    ensures FREE_MAP_SECTOR in fs.table && ROOT_DIR_SECTOR in fs.table
    ensures OnDevice(fs.table[FREE_MAP_SECTOR], fs.sectors)
    ensures fs.table[FREE_MAP_SECTOR].length == MapBytes(|fs.diskMap|)
  {
    assert InodeThere(fs.sectors, fs.table, fs.bytes, FREE_MAP_SECTOR);
    assert InodeThere(fs.sectors, fs.table, fs.bytes, ROOT_DIR_SECTOR);
  }

  lemma SmallThere(sectors: seq<Sector>, table: map<Sec, Extent>, bytes: map<Sec, seq<Byte>>, s: Sec)
    requires s <= ROOT_DIR_SECTOR && s < |sectors| && s in table && InodeOn(sectors[s]) == table[s]
    requires OnDevice(table[s], sectors)
    ensures InodeThere(sectors, table, bytes, s)
  {
  }

  lemma MapBits(fs: Fs, w: MapWrite)
    requires |fs.freeMap| == |fs.diskMap| && FREE_MAP_SECTOR in fs.table
    requires MapThere(fs.sectors, fs.table[FREE_MAP_SECTOR], fs.diskMap)
    ensures MapThere(WriteMap(fs, w).sectors, fs.table[FREE_MAP_SECTOR], WriteMap(fs, w).diskMap)
  {
    hide MapImage, BitOn, FileBytes, Overwritten;
    var r, x := WriteMap(fs, w), fs.table[FREE_MAP_SECTOR];
    var image := MapImage(fs.freeMap);
    var n := WrittenBytes(w, |image|);
    MapImageLength(fs.freeMap);
    FileBytesLength(fs.sectors, x);
    OverwrittenData(fs.sectors, x, 0, image[..n]);
    var f := FileBytes(fs.sectors, x);
    assert f[..0] + image[..n] + f[0 + n..] == image[..n] + f[n..];
    forall k | 0 <= k < |r.diskMap| ensures k / 8 < x.length && BitOn(FileBytes(r.sectors, x), k) == r.diskMap[k] {
      BitsWritten(f, image, n, fs.freeMap, fs.diskMap, k);
    }
  }

  lemma FileBytesLength(sectors: seq<Sector>, x: Extent)
    requires OnDevice(x, sectors)
    ensures |FileBytes(sectors, x)| == x.length
  {
  }

  // ---- the root directory ----

  /** A write within one slot, after which the slot reads as `e`. */
  lemma SlotOverwritten(sectors: seq<Sector>, x: Extent, dir: seq<Entry>, slot: nat, o: nat, data: seq<Byte>, e: Entry)
    requires DirThere(sectors, x, dir) && slot < |dir| && o + |data| <= ENTRY
    requires var b := SlotBytes(sectors, x, slot); EntryOn(b[..o] + data + b[o + |data|..]) == e
    ensures DirThere(Overwritten(sectors, 512 * x.start + ENTRY * slot + o, data), x, dir[slot := e])
  {
    hide FileBytes, EntryOn, Overwritten;
    var after := Overwritten(sectors, 512 * x.start + ENTRY * slot + o, data);
    OverwrittenData(sectors, x, ENTRY * slot + o, data);
    FileBytesLength(sectors, x);
    FileBytesLength(after, x);
    var f, g := FileBytes(sectors, x), FileBytes(after, x);
    forall i | 0 <= i < |dir| ensures EntryOn(SlotBytes(after, x, i)) == dir[slot := e][i] {
      SlotsAfter(f, g, slot, o, data, i);
      if i != slot {
        assert EntryOn(SlotBytes(sectors, x, i)) == dir[i];
      }
    }
  }

  lemma SlotsAfter(f: seq<Byte>, g: seq<Byte>, slot: nat, o: nat, data: seq<Byte>, i: nat)
    requires o + |data| <= ENTRY && ENTRY * slot + ENTRY <= |f| && ENTRY * i + ENTRY <= |f|
    requires g == f[..ENTRY * slot + o] + data + f[ENTRY * slot + o + |data|..]
    ensures |g| == |f|
    ensures var b := f[ENTRY * i..ENTRY * i + ENTRY];
      g[ENTRY * i..ENTRY * i + ENTRY] == if i == slot then b[..o] + data + b[o + |data|..] else b
  {
    var b, c := f[ENTRY * i..ENTRY * i + ENTRY], g[ENTRY * i..ENTRY * i + ENTRY];
    var want := if i == slot then b[..o] + data + b[o + |data|..] else b;
    forall k | 0 <= k < ENTRY ensures c[k] == want[k] {
      assert c[k] == g[ENTRY * i + k];
    }
  }

  /** A write to the root directory's data leaves the rest of the device alone. */
  lemma DirWritten(m: seq<bool>, table: map<Sec, Extent>, live: set<Sec>, loose: set<Sec>, before: seq<Sector>,
                   after: seq<Sector>, bytes: map<Sec, seq<Byte>>, dir: seq<Entry>, dir': seq<Entry>,
                   diskMap: seq<bool>)
    requires Owned(m, table, live, loose) && Dev(before, table, bytes, dir, diskMap, live)
    requires Unchanged(before, after, DataOf(table, ROOT_DIR_SECTOR)) && DirThere(after, table[ROOT_DIR_SECTOR], dir')
    ensures Dev(after, table, bytes, dir', diskMap, live)
  {
    hide InodeThere, Owned, DirThere;
    DataWritten(m, table, live, loose, before, after, bytes, ROOT_DIR_SECTOR);
    OwnedTable(m, table, live, loose, FREE_MAP_SECTOR);
    RunIsUsed(table, FREE_MAP_SECTOR);
    MapKept(before, after, DataOf(table, ROOT_DIR_SECTOR), table[FREE_MAP_SECTOR], diskMap);
    SmallThere(after, table, bytes, ROOT_DIR_SECTOR);
  }

  // ---- files ----

  /** A write to one file's data replaces a slice of that file. */
  lemma FileWritten(m: seq<bool>, table: map<Sec, Extent>, live: set<Sec>, loose: set<Sec>, sectors: seq<Sector>,
                    bytes: map<Sec, seq<Byte>>, dir: seq<Entry>, diskMap: seq<bool>, t: Sec, pos: nat, data: seq<Byte>)
    requires Owned(m, table, live, loose) && Dev(sectors, table, bytes, dir, diskMap, live)
    requires t in live && t > ROOT_DIR_SECTOR && t in table && pos + |data| <= table[t].length
    ensures var after := Overwritten(sectors, 512 * table[t].start + pos, data);
      && t in bytes && |bytes[t]| == table[t].length
      && Dev(after, table, bytes[t := bytes[t][..pos] + data + bytes[t][pos + |data|..]], dir, diskMap, live)
  {
    hide Owned, FileBytes, Overwritten, InodeOn;
    var after := Overwritten(sectors, 512 * table[t].start + pos, data);
    assert InodeThere(sectors, table, bytes, t);
    FileBytesLength(sectors, table[t]);
    var bytes' := bytes[t := bytes[t][..pos] + data + bytes[t][pos + |data|..]];
    OverwrittenData(sectors, table[t], pos, data);
    DataWritten(m, table, live, loose, sectors, after, bytes, t);
    forall s | s in live ensures InodeThere(after, table, bytes', s) {
      if s != t {
        assert InodeThere(after, table, bytes, s);
      }
    }
    OwnedTable(m, table, live, loose, FREE_MAP_SECTOR);
    OwnedTable(m, table, live, loose, ROOT_DIR_SECTOR);
    RunIsUsed(table, FREE_MAP_SECTOR);
    RunIsUsed(table, ROOT_DIR_SECTOR);
    MapKept(sectors, after, DataOf(table, t), table[FREE_MAP_SECTOR], diskMap);
    DirKept(sectors, after, DataOf(table, t), table[ROOT_DIR_SECTOR], dir);
  }

  // ---- new inodes ----

  lemma NewInodeThere(sectors: seq<Sector>, s: Sec, x: Extent, table: map<Sec, Extent>, bytes: map<Sec, seq<Byte>>)
    requires s < |sectors| < 0x1_0000_0000 && x.start + Sectors(x.length) <= |sectors| && x.length < 0x1_0000_0000
    requires !InRun(x, s) && s in table && table[s] == x && s in bytes && bytes[s] == ZeroBytes(x.length)
    ensures InodeThere(ZeroRun(PutSector(sectors, s, InodeSector(x)), x.start, Sectors(x.length)), table, bytes, s)
  {
    hide InodeOn, InodeSector, FileBytes;
    var put := PutSector(sectors, s, InodeSector(x));
    var after := ZeroRun(put, x.start, Sectors(x.length));
    InodeRoundTrip(x);
    assert after[s] == InodeSector(x);
    ZerosThere(after, x);
    FileBytesLength(after, x);
    assert FileBytes(after, x) == ZeroBytes(x.length);
  }

  lemma ZerosThere(after: seq<Sector>, x: Extent)
    requires x.start + Sectors(x.length) <= |after| && forall k: Sec | InRun(x, k) :: after[k] == ZEROS
    ensures OnDevice(x, after) && forall i | 0 <= i < x.length :: FileBytes(after, x)[i] == 0
  {
    forall i | 0 <= i < x.length ensures FileBytes(after, x)[i] == 0 {
      ByteInRun(x, i, after);
      assert InRun(x, (512 * x.start + i) / 512);
    }
  }

  // ---- the operations ----

  /** Fewer live inodes are there too. */
  lemma FewerLive(sectors: seq<Sector>, table: map<Sec, Extent>, bytes: map<Sec, seq<Byte>>, dir: seq<Entry>,
                  diskMap: seq<bool>, live: set<Sec>, live': set<Sec>)
    requires Dev(sectors, table, bytes, dir, diskMap, live)
    requires live' <= live && FREE_MAP_SECTOR in live' && ROOT_DIR_SECTOR in live'
    ensures Dev(sectors, table, bytes, dir, diskMap, live')
  {
  }

  lemma AllocateSound(fs: Fs, cnt: nat, w: MapWrite)
    requires Sound(fs)
    ensures var (r, found) := Allocate(fs, cnt, w);
      && Sound(r) && r == fs.(freeMap := r.freeMap, diskMap := r.diskMap, sectors := r.sectors, loose := r.loose)
      && (found.Some? ==> AllAre(fs.freeMap, found.value, cnt, false) && r.loose == fs.loose + Range(found.value, cnt))
      && (found.Some? ==> Range(found.value, cnt) !! fs.loose)
      && (found.None? ==> r.freeMap == fs.freeMap && r.loose == fs.loose)
  {
    hide Owned, DirOk, OpensOk, WriteMap, Dev, Scan;
    AllocateKeeps(fs, cnt, w);
    if Scan(fs.freeMap, 0, cnt, false).Some? {
      var taken := fs.(freeMap := Mark(fs.freeMap, Scan(fs.freeMap, 0, cnt, false).value, cnt, true));
      MapWritten(taken, w, fs.freeMap, Live(fs), fs.loose);
      WriteMapTouches(taken, w);
    }
  }

  lemma WriteMapTouches(fs: Fs, w: MapWrite)
    ensures var r := WriteMap(fs, w); r == fs.(diskMap := r.diskMap, sectors := r.sectors)
  {
  }

  lemma TableDev(sectors: seq<Sector>, table: map<Sec, Extent>, bytes: map<Sec, seq<Byte>>, dir: seq<Entry>,
                 diskMap: seq<bool>, live: set<Sec>, s: Sec, x: Extent, b: seq<Byte>)
    requires Dev(sectors, table, bytes, dir, diskMap, live) && s !in live
    ensures Dev(sectors, table[s := x], bytes[s := b], dir, diskMap, live)
  {
    hide FileBytes, DirThere, MapThere;
    forall t | t in live ensures InodeThere(sectors, table[s := x], bytes[s := b], t) {
      assert InodeThere(sectors, table, bytes, t);
    }
  }

  lemma CreateInodeSound(fs: Fs, s: Sec, length: nat, mem: bool, w: MapWrite)
    requires Sound(fs) && s in fs.loose && length < 0x8000_0000
    ensures var (r, ok) := CreateInode(fs, s, length, mem, w);
      && Sound(r) && s in r.loose && r.dir == fs.dir && r.open == fs.open && r.handles == fs.handles
      && r.lost == fs.lost
      && (ok ==> s in r.table && r.table[s].length == length && !InRun(r.table[s], s)
                 && r.table[s].start + Sectors(length) <= |r.freeMap|
                 && (forall k: Sec | Uses(r.table, s, k) :: k in r.loose)
                 && InodeThere(r.sectors, r.table, r.bytes, s) && r.bytes == fs.bytes[s := ZeroBytes(length)])
      && (ok ==> Range(r.table[s].start, Sectors(length)) !! fs.loose
                 && r.loose == fs.loose + Range(r.table[s].start, Sectors(length)))
      && (!ok ==> r.loose == fs.loose && r.freeMap == fs.freeMap && r.bytes == fs.bytes && r.table == fs.table)
  {
    hide Inv, Dev, ZeroRun, PutSector, InodeSector, ZeroBytes, Allocate;
    InvParts(fs);
    CreateInodeKeeps(fs, s, length, mem, w);
    if mem {
      AllocateSound(fs, Sectors(length), w);
      var (r, start) := Allocate(fs, Sectors(length), w);
      if start.Some? {
        InodeMade(r, CreateInode(fs, s, length, mem, w).0, s, Extent(start.value, length));
      }
    }
  }

  lemma InvParts(fs: Fs)
    requires Inv(fs)
    ensures Owned(fs.freeMap, fs.table, Live(fs), fs.loose) && MapsOk(fs.freeMap, fs.diskMap) && DirOk(fs.dir, fs.lost)
    ensures |fs.freeMap| == |fs.diskMap|
  {
  }

  lemma InodeMade(fs: Fs, r: Fs, s: Sec, x: Extent)
    requires Sound(fs) && Inv(r) && s in fs.loose && x.length < 0x8000_0000 && r.lost == fs.lost
    requires r == fs.(table := fs.table[s := x], bytes := fs.bytes[s := ZeroBytes(x.length)],
                      sectors := ZeroRun(PutSector(fs.sectors, s, InodeSector(x)), x.start, Sectors(x.length)))
    requires !InRun(x, s) && x.start + Sectors(x.length) <= |fs.freeMap|
    requires Range(x.start, Sectors(x.length)) <= fs.loose
    ensures Consistent(r) && InodeThere(r.sectors, r.table, r.bytes, s)
  {
    hide Inv, Dev, InodeSector, ZeroBytes, InodeThere;
    InvParts(fs);
    InvParts(r);
    DevSize(fs);
    NotLive(fs, s);
    OwnedLoose(fs.freeMap, fs.table, Live(fs), fs.loose, s);
    NewInodeThere(fs.sectors, s, x, r.table, r.bytes);
    TableDev(fs.sectors, fs.table, fs.bytes, fs.dir, fs.diskMap, Live(fs), s, x, ZeroBytes(x.length));
    assert Unchanged(fs.sectors, r.sectors, fs.loose);
    LooseWritten(r.freeMap, r.table, Live(r), r.loose, fs.sectors, r.sectors, r.bytes, r.dir, r.diskMap);
  }

  lemma DevSize(fs: Fs)
    requires Consistent(fs)
    ensures |fs.sectors| == |fs.diskMap| < 0x1_0000_0000
  {
  }

  lemma OwnedLoose(m: seq<bool>, table: map<Sec, Extent>, live: set<Sec>, loose: set<Sec>, k: Sec)
    requires Owned(m, table, live, loose) && k in loose
    ensures k < |m| && m[k]
  {
  }

  lemma OpenInodeSound(fs: Fs, s: Sec, h: nat, mem: bool)
    requires Sound(fs) && CanOpen(fs, s) && h !in fs.handles
    ensures s in fs.table
    ensures var (r, ok) := OpenInode(fs, s, h, mem);
      && Sound(r) && r == fs.(open := r.open, handles := r.handles) && Live(r) == Live(fs)
      && (ok ==> r.handles == fs.handles[h := Handle(s, false, 0)] && s in Opens(r.open)) && (!ok ==> r == fs)
      && (ok <==> mem || s in Opens(fs.open))
  {
    hide Inv, Dev, OpenInode, CanOpen;
    OpenInodeKeeps(fs, s, h, mem);
  }

  lemma ReleaseDev(fs: Fs, start: Sec, cnt: nat, w: MapWrite, m: seq<bool>, live: set<Sec>, loose: set<Sec>)
    requires Owned(m, fs.table, live, loose) && |fs.freeMap| == |fs.diskMap|
    requires Dev(fs.sectors, fs.table, fs.bytes, fs.dir, fs.diskMap, live)
    ensures var r := Release(fs, start, cnt, w); Dev(r.sectors, fs.table, fs.bytes, fs.dir, r.diskMap, live)
  {
    hide Dev, WriteMap, Owned;
    MapWritten(fs.(freeMap := Mark(fs.freeMap, start, cnt, false)), w, m, live, loose);
  }

  lemma CloseInodeSound(fs: Fs, h: nat, w: MapWrite, w': MapWrite)
    requires Sound(fs) && h in fs.handles && !fs.handles[h].denyWrite && fs.handles[h].sector in Opens(fs.open)
    ensures var s := fs.handles[h].sector; var r := CloseInode(fs, h, w, w');
      && Sound(r) && r.handles == fs.handles - {h} && r.dir == fs.dir && r.loose == fs.loose && r.lost == fs.lost
      && r.table == fs.table && r.bytes == fs.bytes
      && (forall t | t != s :: t in Opens(r.open) <==> t in Opens(fs.open))
      && (s in Opens(r.open) <==> On(fs.handles, s) != {h}) && |r.freeMap| == |fs.freeMap| && Live(r) <= Live(fs)
      && (forall k | 0 <= k < |fs.freeMap| ::
            r.freeMap[k]
            <==> fs.freeMap[k] && !(On(fs.handles, s) == {h} && Opens(fs.open)[s].removed && Uses(fs.table, s, k)))
  {
    hide Inv, Dev, Opens, CloseInode, On;
    CloseInodeKeeps(fs, h, w, w');
    var r := CloseInode(fs, h, w, w');
    CloseDev(fs, h, w, w');
    assert Live(r) <= Live(fs) by {
      forall t | t in Opens(r.open) ensures t in Opens(fs.open) {}
    }
    FewerLive(r.sectors, r.table, r.bytes, r.dir, r.diskMap, Live(fs), Live(r));
  }

  lemma CloseDev(fs: Fs, h: nat, w: MapWrite, w': MapWrite)
    requires Sound(fs) && IsOpen(fs, h)
    ensures var r := CloseInode(fs, h, w, w'); Dev(r.sectors, fs.table, fs.bytes, fs.dir, r.diskMap, Live(fs))
  {
    hide Inv, Dev, Release, Owned, Opens, SetInode, DropInode, MapsOk;
    InvParts(fs);
    var s := fs.handles[h].sector;
    var i := Opens(fs.open)[s];
    if i.openCnt - 1 == 0 && i.removed {
      var closed := fs.(handles := fs.handles - {h}, open := DropInode(fs.open, s));
      ReleaseDev(closed, s, 1, w, fs.freeMap, Live(fs), fs.loose);
      ReleaseSize(closed, s, 1, w);
      ReleaseDev(Release(closed, s, 1, w), i.data.start, Sectors(i.data.length), w', fs.freeMap, Live(fs), fs.loose);
      ReleaseSize(Release(closed, s, 1, w), i.data.start, Sectors(i.data.length), w');
    }
  }

  lemma ReleaseSize(fs: Fs, start: Sec, cnt: nat, w: MapWrite)
    requires |fs.freeMap| == |fs.diskMap|
    ensures var r := Release(fs, start, cnt, w);
      && r == fs.(freeMap := r.freeMap, diskMap := r.diskMap, sectors := r.sectors)
      && |r.freeMap| == |r.diskMap| == |fs.freeMap|
  {
    hide MapImage, Overwritten;
    MapImageLength(Mark(fs.freeMap, start, cnt, false));
  }

  lemma DenySound(fs: Fs, h: nat, deny: bool)
    requires Sound(fs) && h in fs.handles
    ensures fs.handles[h].sector in Opens(fs.open)
    ensures var r := if deny then DenyWrite(fs, h) else AllowWrite(fs, h);
      && Sound(r) && r == fs.(open := r.open, handles := r.handles) && Opens(r.open).Keys == Opens(fs.open).Keys
      && r.handles == fs.handles[h := fs.handles[h].(denyWrite := deny)]
      && Opens(r.open)[fs.handles[h].sector].removed == Opens(fs.open)[fs.handles[h].sector].removed
  {
    hide Inv, Dev, Opens, DenyWrite, AllowWrite;
    DenyKeeps(fs, h, deny);
    var r := if deny then DenyWrite(fs, h) else AllowWrite(fs, h);
    assert Live(r) == Live(fs);
  }

  lemma DirAddSound(fs: Fs, name: seq<Byte>, sector: Sec, l: Luck)
    requires Sound(fs) && sector in fs.table && sector in fs.loose && NoNulls(name)
    requires forall k: Sec | Uses(fs.table, sector, k) :: k in fs.loose
    requires !InRun(fs.table[sector], sector)
    requires fs.table[sector].start + Sectors(fs.table[sector].length) <= |fs.freeMap|
    requires InodeThere(fs.sectors, fs.table, fs.bytes, sector)
    ensures var (r, ok) := DirAdd(fs, name, sector, l);
      && Sound(r) && r.open == fs.open && r.handles == fs.handles && r.bytes == fs.bytes && (!ok ==> r == fs)
      && (ok ==> sector in DirSectors(r.dir) && r.freeMap == fs.freeMap && Live(r) == Live(fs) + {sector})
  {
    hide Inv, Dev, InodeThere, Uses, InRun, DirSectors, Range, Overwritten, EntryBytes, Residue;
    DirAddKeeps(fs, name, sector, l);
    if DirAdd(fs, name, sector, l).1 {
      var slot, r := FreeSlot(fs.dir, l.slots), DirAdd(fs, name, sector, l).0;
      InvParts(fs);
      EntryAdded(fs, name, sector, slot, Residue(l.pad, NAME_MAX - |name|));
      ResidueLength(l.pad, NAME_MAX - |name|);
      AlsoLive(fs, r.sectors, r.dir, sector);
    }
  }

  lemma ResidueLength(pad: seq<Byte>, n: nat)
    ensures |Residue(pad, n)| == n
  {
  }

  lemma EntryAdded(fs: Fs, name: seq<Byte>, sector: Sec, slot: nat, rest: seq<Byte>)
    requires Sound(fs) && sector in fs.loose && slot < |fs.dir|
    requires NoNulls(name) && |name| <= NAME_MAX && |rest| == NAME_MAX - |name|
    ensures var after := Overwritten(fs.sectors, SlotAt(fs.table, slot), EntryBytes(name, sector, rest));
      && Dev(after, fs.table, fs.bytes, fs.dir[slot := Entry(true, name, sector)], fs.diskMap, Live(fs))
      && Unchanged(fs.sectors, after, DataOf(fs.table, ROOT_DIR_SECTOR))
  {
    hide Inv, Owned, InodeThere, Overwritten, EntryBytes, EntryOn, FileBytes, MapThere, SlotBytes;
    InvParts(fs);
    DevSize(fs);
    OwnedLoose(fs.freeMap, fs.table, Live(fs), fs.loose, sector);
    FreeMapOnDisk(fs, Live(fs));
    var x, data := fs.table[ROOT_DIR_SECTOR], EntryBytes(name, sector, rest);
    EntryLength(name, sector, rest);
    EntryRoundTrip(name, sector, rest);
    SlotLength(fs.sectors, x, slot);
    var b := SlotBytes(fs.sectors, x, slot);
    assert b[..0] + data + b[0 + |data|..] == data;
    SlotOverwritten(fs.sectors, x, fs.dir, slot, 0, data, Entry(true, name, sector));
    OverwrittenData(fs.sectors, x, ENTRY * slot, data);
    DirWritten(fs.freeMap, fs.table, Live(fs), fs.loose, fs.sectors,
               Overwritten(fs.sectors, SlotAt(fs.table, slot), data), fs.bytes, fs.dir,
               fs.dir[slot := Entry(true, name, sector)], fs.diskMap);
  }

  lemma EntryLength(name: seq<Byte>, sector: nat, rest: seq<Byte>)
    requires |name| <= NAME_MAX && |rest| == NAME_MAX - |name|
    ensures |EntryBytes(name, sector, rest)| == ENTRY
  {
  }

  lemma SlotLength(sectors: seq<Sector>, x: Extent, i: nat)
    requires OnDevice(x, sectors) && ENTRY * i + ENTRY <= x.length
    ensures |SlotBytes(sectors, x, i)| == ENTRY
  {
  }

  /** An inode in loose sectors is there too, after a write to the root directory. */
  lemma AlsoLive(fs: Fs, after: seq<Sector>, dir: seq<Entry>, s: Sec)
    requires Sound(fs) && InodeThere(fs.sectors, fs.table, fs.bytes, s)
    requires forall k: Sec | Uses(fs.table, s, k) :: k in fs.loose
    requires Dev(after, fs.table, fs.bytes, dir, fs.diskMap, Live(fs))
    requires Unchanged(fs.sectors, after, DataOf(fs.table, ROOT_DIR_SECTOR))
    ensures Dev(after, fs.table, fs.bytes, dir, fs.diskMap, Live(fs) + {s})
  {
    hide Inv, InodeThere, DirThere, MapThere;
    InvParts(fs);
    NotLoose(fs.freeMap, fs.table, Live(fs), fs.loose, ROOT_DIR_SECTOR);
    RunIsUsed(fs.table, ROOT_DIR_SECTOR);
    ThereKept(fs.sectors, after, DataOf(fs.table, ROOT_DIR_SECTOR), fs.table, fs.bytes, s);
  }

  lemma EraseSound(fs: Fs, i: nat)
    requires Sound(fs) && i < |fs.dir| && fs.dir[i].inUse && fs.dir[i].sector in Opens(fs.open)
    ensures var r := Erase(fs, i);
      && Sound(r) && r == fs.(dir := r.dir, open := r.open, sectors := r.sectors) && Live(r) == Live(fs)
      && Opens(r.open).Keys == Opens(fs.open).Keys && Opens(r.open)[fs.dir[i].sector].removed
  {
    hide Inv, Dev, Opens, Overwritten, Erase;
    EraseKeeps(fs, i);
    EntryErased(fs, i);
    ErasedIs(fs, i);
  }

  lemma ErasedIs(fs: Fs, i: nat)
    requires i < |fs.dir|
    ensures Erase(fs, i).sectors == Overwritten(fs.sectors, SlotAt(fs.table, i) + ENTRY - 1, [0])
    ensures Erase(fs, i).dir == fs.dir[i := fs.dir[i].(inUse := false)]
  {
  }

  lemma EntryErased(fs: Fs, i: nat)
    requires Sound(fs) && i < |fs.dir|
    ensures var after := Overwritten(fs.sectors, SlotAt(fs.table, i) + ENTRY - 1, [0]);
      Dev(after, fs.table, fs.bytes, fs.dir[i := fs.dir[i].(inUse := false)], fs.diskMap, Live(fs))
  {
    hide Inv, Owned, InodeThere, Overwritten, EntryOn, FileBytes, MapThere, SlotBytes;
    InvParts(fs);
    FreeMapOnDisk(fs, Live(fs));
    var x := fs.table[ROOT_DIR_SECTOR];
    SlotLength(fs.sectors, x, i);
    var b := SlotBytes(fs.sectors, x, i);
    ErasedEntry(b);
    assert b[..19] + [0] + b[19 + 1..] == ErasedBytes(b);
    SlotOverwritten(fs.sectors, x, fs.dir, i, ENTRY - 1, [0], fs.dir[i].(inUse := false));
    OverwrittenData(fs.sectors, x, ENTRY * i + ENTRY - 1, [0]);
    DirWritten(fs.freeMap, fs.table, Live(fs), fs.loose, fs.sectors,
               Overwritten(fs.sectors, SlotAt(fs.table, i) + ENTRY - 1, [0]), fs.bytes, fs.dir,
               fs.dir[i := fs.dir[i].(inUse := false)], fs.diskMap);
  }

  lemma DirRemoveSound(fs: Fs, name: seq<Byte>, h: nat, l: Luck)
    requires Sound(fs) && h !in fs.handles
    ensures var (r, ok) := DirRemove(fs, name, h, l);
      Sound(r) && r.handles == fs.handles && r.bytes == fs.bytes
        && r.loose == fs.loose && r.lost == fs.lost && Live(r) <= Live(fs)
  {
    hide Sound, OpenInode, CloseInode, Erase, Opens;
    var i := Lookup(fs.dir, name, l.look);
    if i.Some? {
      var s := fs.dir[i.value].sector;
      Openable(fs, i.value);
      OpenInodeSound(fs, s, h, l.inodeMem);
      var (f1, ok) := OpenInode(fs, s, h, l.inodeMem);
      if ok {
        assert f1.handles - {h} == fs.handles;
        if !l.entry {
          CloseInodeSound(f1, h, l.maps.0, l.maps.1);
        } else {
          EraseSound(f1, i.value);
          CloseInodeSound(Erase(f1, i.value), h, l.maps.0, l.maps.1);
        }
      }
    }
  }

  /** file_write: the bytes on the device change as the flat file does. */
  lemma WriteFileSound(fs: Fs, h: nat, data: seq<Byte>, bounce: bool)
    requires Sound(fs) && h in fs.handles && fs.handles[h].sector > ROOT_DIR_SECTOR
    ensures var (r, n) := WriteFile(fs, h, data, bounce); var s, pos := fs.handles[h].sector, fs.handles[h].pos;
      && Sound(r) && r == fs.(handles := r.handles, sectors := r.sectors, bytes := r.bytes) && Live(r) == Live(fs)
      && r.handles == fs.handles[h := fs.handles[h].(pos := pos + n)] && n == WriteCount(fs, h, |data|, bounce)
      && s in Live(fs) && s in fs.bytes && (n > 0 ==> pos + n <= |fs.bytes[s]|)
      && r.bytes == (if n > 0 then fs.bytes[s := fs.bytes[s][..pos] + data[..n] + fs.bytes[s][pos + n..]] else fs.bytes)
  {
    hide Inv, Dev, Opens, Overwritten, WriteCount;
    var s, pos := fs.handles[h].sector, fs.handles[h].pos;
    WriteFileKeeps(fs, h, data, bounce);
    InvParts(fs);
    HandleIsLive(fs, h);
    var n := WriteCount(fs, h, |data|, bounce);
    CountFits(fs, h, |data|, bounce);
    BytesThere(fs, s);
    if n > 0 {
      FileWritten(fs.freeMap, fs.table, Live(fs), fs.loose, fs.sectors, fs.bytes, fs.dir, fs.diskMap,
                  s, pos, data[..n]);
    }
  }

  lemma HandleIsLive(fs: Fs, h: nat)
    requires Inv(fs) && h in fs.handles
    ensures fs.handles[h].sector in Live(fs) && IsOpen(fs, h)
    ensures fs.handles[h].sector in fs.table
    ensures Opens(fs.open)[fs.handles[h].sector].data == fs.table[fs.handles[h].sector]
  {
    hide Opens, Owned, DirOk;
    assert InodeOk(fs, fs.handles[h].sector, Opens(fs.open)[fs.handles[h].sector]);
  }

  lemma BytesThere(fs: Fs, s: Sec)
    requires Consistent(fs) && s in Live(fs) && s > ROOT_DIR_SECTOR
    ensures s in fs.bytes && s in fs.table && |fs.bytes[s]| == fs.table[s].length
    ensures OnDevice(fs.table[s], fs.sectors) && fs.bytes[s] == FileBytes(fs.sectors, fs.table[s])
  {
    hide FileBytes;
    assert InodeThere(fs.sectors, fs.table, fs.bytes, s);
    FileBytesLength(fs.sectors, fs.table[s]);
  }

  lemma CountFits(fs: Fs, h: nat, size: nat, bounce: bool)
    requires Inv(fs) && h in fs.handles
    ensures var n := WriteCount(fs, h, size, bounce); var x := OnDisk(fs.table, fs.handles[h].sector);
      n > 0 ==> fs.handles[h].pos + n <= x.length
  {
    hide Opens, Inv;
    HandleIsLive(fs, h);
  }

  /** file_read takes the position past what it read, and changes nothing else. */
  lemma ReadFileSound(fs: Fs, h: nat, size: nat, bounce: bool)
    requires Sound(fs) && h in fs.handles && fs.handles[h].sector > ROOT_DIR_SECTOR
    ensures var (r, n) := ReadFile(fs, h, size, bounce); var s, pos := fs.handles[h].sector, fs.handles[h].pos;
      && Sound(r) && s in fs.table && s in fs.bytes && n == Moved(fs.table[s], size, pos, bounce)
      && r == fs.(handles := fs.handles[h := fs.handles[h].(pos := pos + n)])
      && (n > 0 ==> pos + n <= |fs.bytes[s]|)
  {
    hide Inv, Dev, Opens, Seek;
    HandleIsLive(fs, h);
    BytesThere(fs, fs.handles[h].sector);
    var n := Moved(fs.table[fs.handles[h].sector], size, fs.handles[h].pos, bounce);
    MovedInside(fs.table[fs.handles[h].sector], size, fs.handles[h].pos, bounce);
    SeekSound(fs, h, fs.handles[h].pos + n);
    SeekIs(fs, h, fs.handles[h].pos + n);
  }

  lemma SeekIs(fs: Fs, h: nat, pos: nat)
    requires h in fs.handles
    ensures Seek(fs, h, pos) == fs.(handles := fs.handles[h := fs.handles[h].(pos := pos)])
  {
  }

  lemma SeekSound(fs: Fs, h: nat, pos: nat)
    requires Sound(fs)
    ensures var r := Seek(fs, h, pos); Sound(r) && r.bytes == fs.bytes && Live(r) == Live(fs)
  {
    hide Inv, Dev, Live;
    SeekKeeps(fs, h, pos);
  }
}
