/** The file system's calls as the code makes them: they change a bitmap of words, a list of open
    inodes and the sectors of a device in place, and read inodes and directory entries from the
    device. Each is proved to do what the function of FileSystem or FileSystemRuns says, and to
    keep the invariant. */
module FileSystemCalls {
  import opened Bytes
  import opened Options
  import opened Bitmap
  import opened InodeIO
  import opened DiskFormat
  import opened OpenInodes
  import opened FileSystem
  import opened FileSystemDevice
  import opened FileSystemRuns
  import opened FileSystemFormat
  import FileSystemNames
  import Directory

  /** What a writing of the free map comes to, by whether its bounce buffer can be had. */
  function Outcome(size: nat, bounce: bool): MapWrite {
    var n := Moved(Extent(0, MapBytes(size)), MapBytes(size), 0, bounce);
    MapWrite(n == MapBytes(size), n)
  }

  lemma OutcomeIs(x: Extent, size: nat, bounce: bool)
    requires x.length == MapBytes(size)
    ensures var n := Moved(x, MapBytes(size), 0, bounce);
      n <= MapBytes(size) && WrittenBytes(Outcome(size, bounce), MapBytes(size)) == n
      && (Outcome(size, bounce).ok <==> n == MapBytes(size))
  {
  }

  /** Which allocations of memory succeed; `look` and `slots` count the readings of entries that
      get their bounce buffers, and `maps` is for the writings of the free map. */
  datatype Chance = Chance(rootMem: bool, inodeMem: bool, dirMem: bool, diskInodeMem: bool, fileMem: bool,
                           look: nat, slots: nat, entry: bool, maps: (bool, bool, bool))

  function LuckOf(c: Chance, size: nat, pad: seq<Byte>): Luck {
    Luck(c.rootMem, c.inodeMem, c.dirMem, c.diskInodeMem, c.fileMem, c.look, c.slots, c.entry, pad,
         (Outcome(size, c.maps.0), Outcome(size, c.maps.1), Outcome(size, c.maps.2)))
  }

  /** free_map_file is an opener of the free map's inode; no opener of that or of the root directory
      denies writes, and one of the root directory is at an entry. */
  ghost predicate MapFile(handles: map<nat, Handle>) {
    && FREE_MAP_FILE in handles && handles[FREE_MAP_FILE].sector == FREE_MAP_SECTOR
    && (forall h | h in handles && handles[h].sector <= ROOT_DIR_SECTOR :: !handles[h].denyWrite)
    && (forall h | h in handles && handles[h].sector == ROOT_DIR_SECTOR :: AtEntry(handles[h].pos))
  }

  predicate AtEntry(pos: nat) {
    pos % ENTRY == 0 && pos <= ENTRY * ENTRIES
  }

  /** What bitmap_write needs. */
  ghost predicate MapReady(fs: Fs) {
    && |fs.freeMap| == |fs.diskMap|
    && FindOpen(fs.open, FREE_MAP_SECTOR).Some?
    && var i := fs.open[FindOpen(fs.open, FREE_MAP_SECTOR).value];
       && i.denyWriteCnt == 0 && i.data == OnDisk(fs.table, FREE_MAP_SECTOR)
       && OnDevice(i.data, fs.sectors) && i.data.length == MapBytes(|fs.freeMap|)
  }

  lemma MapIsReady(fs: Fs)
    requires Sound(fs) && MapFile(fs.handles)
    ensures MapReady(fs) && FREE_MAP_SECTOR in Opens(fs.open)
  {
    hide Owned, DirOk, InodeThere, DirThere, On, Opens, DistinctSectors;
    FreeMapOnDisk(fs, Live(fs));
    assert fs.handles[FREE_MAP_FILE].sector in Opens(fs.open);
    OpensKeys(fs.open);
    FoundInode(fs.open, FREE_MAP_SECTOR);
    assert InodeOk(fs, FREE_MAP_SECTOR, Opens(fs.open)[FREE_MAP_SECTOR]);
    assert Denying(fs.handles, FREE_MAP_SECTOR) == {};
  }

  lemma FoundInode(open: seq<Inode>, s: Sec)
    requires s in Opens(open)
    ensures FindOpen(open, s).Some? && Opens(open)[s] == open[FindOpen(open, s).value]
  {
  }

  // ---- the image of the map ----

  /** Bits `8 b` to `8 b + 7`, as they lie in a byte of the little-endian words. */
  method PackByte(freeMap: BitMap, b: nat) returns (v: nat)
    requires freeMap.Valid() && b < MapBytes(freeMap.bitCnt)
    ensures v == Packed(EightBits(freeMap.View(), b))
  {
    hide BitMap.View, EightBits, Packed;
    ghost var bits := EightBits(freeMap.View(), b);
    EightAre(freeMap.View(), b);
    ViewLength(freeMap);
    v := 0;
    var j := 8;
    PackedEmpty();
    assert bits[8..] == [];
    while j > 0
      invariant 0 <= j <= 8 && v == Packed(bits[j..])
    {
      j := j - 1;
      var bit := false;
      if 8 * b + j < freeMap.bitCnt {
        bit := freeMap.Test(8 * b + j);
      }
      PackedStep(bits, j);
      v := (if bit then 1 else 0) + 2 * v;
    }
    assert bits[0..] == bits;
  }

  lemma EightAre(m: seq<bool>, b: nat)
    ensures var r := EightBits(m, b); |r| == 8 && forall j | 0 <= j < 8 :: r[j] == (8 * b + j < |m| && m[8 * b + j])
  {
  }

  lemma ViewLength(b: BitMap)
    requires b.Valid()
    ensures |b.View()| == b.bitCnt
  {
  }

  lemma PackedEmpty()
    ensures Packed([]) == 0
  {
  }

  lemma PackedStep(bits: seq<bool>, j: nat)
    requires j < |bits|
    ensures Packed(bits[j..]) == (if bits[j] then 1 else 0) + 2 * Packed(bits[j + 1..])
  {
    assert bits[j..][1..] == bits[j + 1..];
  }

  method PackMap(freeMap: BitMap) returns (image: seq<Byte>)
    requires freeMap.Valid()
    ensures image == MapImage(freeMap.View())
  {
    hide BitMap.View, EightBits, Packed, MapImage;
    image := [];
    ghost var m := freeMap.View();
    ViewLength(freeMap);
    for b := 0 to MapBytes(freeMap.bitCnt)
      invariant |image| == b && forall k | 0 <= k < b :: image[k] as nat == Packed(EightBits(m, k))
    {
      var v := PackByte(freeMap, b);
      EightFit(m, b);
      image := image + [v as Byte];
    }
    ImageIs(m, image);
  }

  lemma ImageIs(m: seq<bool>, image: seq<Byte>)
    requires |image| == MapBytes(|m|) && forall k | 0 <= k < |image| :: image[k] as nat == Packed(EightBits(m, k))
    ensures image == MapImage(m)
  {
    forall k | 0 <= k < |image| ensures image[k] == MapImage(m)[k] {
      EightFit(m, k);
    }
  }

  /** bitmap_read from the free map file: a new bitmap, and the bits of the file's bytes. */
  method ReadMap(dev: Block, x: Extent, size: nat, memory: seq<bv32>, ghost diskMap: seq<bool>) returns (b: BitMap)
    requires |memory| == ElemCnt(size) && |diskMap| == size && MapThere(dev.Contents(), x, diskMap)
    ensures fresh(b) && fresh(b.bits) && b.Valid() && b.bitCnt == size && b.View() == diskMap
    ensures dev.Contents() == old(dev.Contents())
  {
    hide BitMap.View, FileBytes, BitOn, Moved, Copied;
    var buffer := new Byte[MapBytes(size)];
    ghost var before := dev.Contents();
    var n := InodeReadAt(dev, x, buffer, MapBytes(size), 0, true);
    WholeMap(before, x, size, buffer[..], n);
    ghost var image := buffer[..];
    b := new BitMap.Create(size, memory);
    ViewLength(b);
    for k := 0 to size
      invariant fresh(b) && fresh(b.bits) && b.Valid() && b.bitCnt == size && dev.Contents() == before
      invariant buffer as object != b.bits as object && buffer[..] == image
      invariant |b.View()| == size && forall j | 0 <= j < size :: b.View()[j] == (j < k && diskMap[j])
    {
      ByteOfBit(size, k);
      assert BitOn(image, k) == diskMap[k];
      if BitOn(buffer[..], k) {
        b.Set(k, true);
      }
      ViewLength(b);
    }
  }

  /** All of the free map file is read. */
  lemma WholeMap(sectors: seq<Sector>, x: Extent, size: nat, to: seq<Byte>, n: nat)
    requires OnDevice(x, sectors) && x.length == MapBytes(size) == |to| && n == Moved(x, MapBytes(size), 0, true)
    requires n > 0 ==> Copied(sectors, x, 0, to, n)
    ensures to == FileBytes(sectors, x)
  {
    hide DiskByte;
    if n > 0 {
      ReadIsSlice(sectors, x, 0, to, n);
      assert to[..n] == to && FileBytes(sectors, x)[0..0 + n] == FileBytes(sectors, x);
    }
  }

  // ---- formatting ----

  /** free_map_init */
  method FreeMapInit(size: nat, memory: seq<bv32>) returns (b: BitMap)
    requires |memory| == ElemCnt(size) && size >= 2
    ensures fresh(b) && fresh(b.bits) && b.Valid() && b.bitCnt == size && b.View() == FirstMap(size)
  {
    hide BitMap.View;
    b := new BitMap.Create(size, memory);
    ViewLength(b);
    b.Set(FREE_MAP_SECTOR, true);
    ViewLength(b);
    b.Set(ROOT_DIR_SECTOR, true);
    assert b.View() == FirstMap(size);
  }

  /** bitmap_write of the whole map to a file that lies at `x` */
  method WriteWholeMap(dev: Block, x: Extent, freeMap: BitMap)
    requires freeMap.Valid() && freeMap.bits as object != dev.sectors as object
    requires OnDevice(x, dev.Contents()) && x.length == MapBytes(freeMap.bitCnt)
    modifies dev.sectors
    ensures dev.Contents() == Overwritten(old(dev.Contents()), 512 * x.start, MapImage(freeMap.View()))
  {
    hide BitMap.View, MapImage, Overwritten, Written, OnDevice;
    ViewLength(freeMap);
    ghost var before := dev.Contents();
    var image := PackMap(freeMap);
    MapImageLength(freeMap.View());
    var n := InodeWriteAt(dev, x, 0, image, |image|, 0, true);
    assert image[..n] == image;
    MapDeviceAfter(before, dev.Contents(), x, image);
  }

  /** do_format, when memory is found for all it needs: false stands for its panics, for want of
      room. The inode of the free map is made while there is no free map file to write to, the root
      directory's when there is. */
  method DoFormat(dev: Block, memory: seq<bv32>) returns (ok: bool)
    requires 2 <= dev.sectors.Length < 0x1_0000_0000 && |memory| == ElemCnt(dev.sectors.Length)
    modifies dev.sectors
    ensures ok <==> Format(old(dev.Contents())).Some?
    ensures ok ==> dev.Contents() == Format(old(dev.Contents())).value.sectors
  {
    hide BitMap.View, Scan, Overwritten, InodeSector, InodeOn, ZeroRun, PutSector, Mark, MapImage, FirstMap;
    var size := dev.sectors.Length;
    ghost var device := dev.Contents();
    var freeMap := FreeMapInit(size, memory);
    var a := freeMap.ScanAndFlip(0, Sectors(MapBytes(size)), false);
    if a.None? {
      return false;
    }
    MapPlace(size, a.value);
    var x := MapExtent(size, a.value);
    PutInodeSector(dev, FREE_MAP_SECTOR, x);
    MapReads(device, x);
    var data := InodeOn(dev.sectors[FREE_MAP_SECTOR]);
    WriteWholeMap(dev, data, freeMap);
    var b := freeMap.ScanAndFlip(0, Sectors(ROOT_DIR_BYTES), false);
    if b.None? {
      return false;
    }
    DirPlace(size, a.value, b.value);
    WriteWholeMap(dev, data, freeMap);
    PutInodeSector(dev, ROOT_DIR_SECTOR, DirExtent(b.value));
    ok := true;
  }

  lemma MapPlace(size: nat, a: nat)
    requires size >= 2 && Scan(FirstMap(size), 0, Sectors(MapBytes(size)), false) == Some(a)
    ensures 1 < a && a + Sectors(MapBytes(size)) <= size
  {
    ScanFindsLowest(FirstMap(size), 0, Sectors(MapBytes(size)), false);
    assert AllAre(FirstMap(size), a, Sectors(MapBytes(size)), false) && Sectors(MapBytes(size)) > 0;
    assert FirstMap(size)[0] && FirstMap(size)[1];
  }

  lemma DirPlace(size: nat, a: nat, b: nat)
    requires Scan(MapWithMap(size, a), 0, Sectors(ROOT_DIR_BYTES), false) == Some(b)
    ensures b + Sectors(ROOT_DIR_BYTES) <= size
  {
    hide MapWithMap;
    ScanFindsLowest(MapWithMap(size, a), 0, Sectors(ROOT_DIR_BYTES), false);
  }

  /** inode_open finds the inode that was just made. */
  lemma MapReads(device: seq<Sector>, x: Extent)
    requires 2 <= |device| < 0x1_0000_0000 && 1 < x.start && x.start + Sectors(x.length) <= |device|
    requires x.length == MapBytes(|device|)
    ensures var r := ZeroRun(PutSector(device, FREE_MAP_SECTOR, InodeSector(x)), x.start, Sectors(x.length));
      |r| == |device| && InodeOn(r[FREE_MAP_SECTOR]) == x && OnDevice(x, r)
  {
    hide InodeOn, InodeSector, ZeroRun, PutSector;
    MapSmall(|device|);
    InodeRoundTrip(x);
    MadeSectors(device, FREE_MAP_SECTOR, InodeSector(x), x.start, Sectors(x.length));
    RunOnDevice(device, x);
  }

  /** filesys_init with `format`: None for its panics. */
  method FilesysFormat(dev: Block, memory: seq<bv32>, memory': seq<bv32>) returns (v: Option<Volume>)
    requires 2 <= dev.sectors.Length < 0x1_0000_0000
    requires |memory| == ElemCnt(dev.sectors.Length) && |memory'| == ElemCnt(dev.sectors.Length)
    modifies dev.sectors
    ensures v.Some? <==> Format(old(dev.Contents())).Some?
    ensures v.Some? ==> fresh(v.value) && v.value.Valid() && v.value.dev == dev
    ensures v.Some? ==> v.value.State() == Format(old(dev.Contents())).value
  {
    hide BitMap.View, Format, Sound, Live;
    ghost var device := dev.Contents();
    var ok := DoFormat(dev, memory);
    if !ok {
      return None;
    }
    FormatSound(device);
    BootOfFormat(device);
    var volume := new Volume(dev, memory', Format(device).value);
    v := Some(volume);
  }

  lemma BootOfFormat(device: seq<Sector>)
    requires 2 <= |device| < 0x1_0000_0000 && Format(device).Some?
    ensures Boot(Format(device).value) == Format(device).value
  {
    hide MapFormatted, DirFormatted, MapWithDir, MapExtent, DirExtent;
    var fs := Format(device).value;
    BootList(OnDisk(fs.table, FREE_MAP_SECTOR));
  }

  class Volume {
    const freeMap: BitMap
    const dev: Block
    var openInodes: seq<Inode>
    var handles: map<nat, Handle>
    ghost var diskMap: seq<bool>
    ghost var table: map<Sec, Extent>
    ghost var dir: seq<Entry>
    ghost var bytes: map<Sec, seq<Byte>>
    ghost var loose: set<Sec>
    ghost var lost: set<Sec>

    /** filesys_init without `format`, on a device that was left in the state `fs`: the free map is
        read back, and is all that is open. */
    constructor (dev: Block, memory: seq<bv32>, ghost fs: Fs)
      requires Sound(fs) && dev.Contents() == fs.sectors && |memory| == ElemCnt(dev.sectors.Length)
      ensures this.dev == dev && Valid() && State() == Boot(fs) && fresh(freeMap.bits)
    {
      hide Sound, InodeOn, MapThere, Opens;
      MapOnDevice(fs);
      BootSound(fs);
      var x := InodeOn(dev.sectors[FREE_MAP_SECTOR]);
      var b := ReadMap(dev, x, dev.sectors.Length, memory, fs.diskMap);
      freeMap, this.dev := b, dev;
      openInodes, handles := [], map[];
      var boot := Boot(fs);
      diskMap, table, dir, bytes, loose, lost := boot.diskMap, boot.table, boot.dir, boot.bytes, boot.loose, boot.lost;
      new;
      NothingOpen(fs);
      var _ := InodeOpen(FREE_MAP_SECTOR, FREE_MAP_FILE, true);
    }

    ghost predicate Shape() {
      freeMap.Valid() && freeMap.bits as object != dev.sectors as object
    }

    ghost function State(): Fs
      requires Shape()
      reads this, freeMap.bits, dev.sectors
    {
      Fs(freeMap.View(), diskMap, table, dir, openInodes, handles, dev.Contents(), bytes, loose, lost)
    }

    ghost predicate Valid()
      reads this, freeMap.bits, dev.sectors
    {
      Shape() && Sound(State()) && MapFile(handles)
    }

    lemma Fields()
      requires Valid()
      ensures Sound(State()) && |State().freeMap| == freeMap.bitCnt && State().handles == handles && State().dir == dir
      ensures State().table == table && State().bytes == bytes && State().loose == loose && State().open == openInodes
      ensures State().sectors == dev.Contents()
      ensures forall h | h in handles && handles[h].sector >= ROOT_DIR_SECTOR :: h != FREE_MAP_FILE
    {
      hide Sound, BitMap.View;
      ViewLength(freeMap);
    }

    // ---- free-map.c ----

    /** bitmap_write to free_map_file */
    method WriteFreeMap(bounce: bool) returns (ok: bool)
      requires Shape() && MapReady(State())
      modifies `diskMap, dev.sectors
      ensures State() == WriteMap(old(State()), Outcome(freeMap.bitCnt, bounce))
      ensures ok == Outcome(freeMap.bitCnt, bounce).ok && (ok ==> diskMap == freeMap.View())
    {
      hide BitMap.View, MapImage, Overwritten, Moved, Written, Outcome, WrittenBytes;
      ViewLength(freeMap);
      var inode := openInodes[FindOpen(openInodes, FREE_MAP_SECTOR).value];
      ghost var before := dev.Contents();
      var image := PackMap(freeMap);
      MapImageLength(freeMap.View());
      OutcomeIs(inode.data, freeMap.bitCnt, bounce);
      var n := InodeWriteAt(dev, inode.data, inode.denyWriteCnt, image, |image|, 0, bounce);
      ok := n == |image|;
      MapDeviceAfter(before, dev.Contents(), inode.data, image[..n]);
      ghost var cut := if 8 * n > freeMap.bitCnt then freeMap.bitCnt else 8 * n;
      diskMap := freeMap.View()[..cut] + diskMap[cut..];
    }

    method FreeMapAllocate(cnt: nat, bounce: bool) returns (sector: Option<Sec>)
      requires Valid()
      modifies this, freeMap.bits, dev.sectors
      ensures Valid() && (State(), sector) == Allocate(old(State()), cnt, Outcome(freeMap.bitCnt, bounce))
      ensures sector.Some? ==> AllAre(old(freeMap.View()), sector.value, cnt, false) && diskMap == freeMap.View()
      ensures sector.Some? ==> Range(sector.value, cnt) !! old(loose) && loose == old(loose) + Range(sector.value, cnt)
      ensures sector.None? ==> freeMap.View() == old(freeMap.View()) && loose == old(loose)
    {
      hide BitMap.View, Scan, Mark, Sound, WriteMap, MapReady, Range, Outcome;
      ViewLength(freeMap);
      ghost var fs := State();
      AllocateSound(fs, cnt, Outcome(freeMap.bitCnt, bounce));
      MapIsReady(fs);
      sector := freeMap.ScanAndFlip(0, cnt, false);
      if sector.Some? {
        MarkKeepsReady(fs, sector.value, cnt, true);
        ScanFits(freeMap, fs.freeMap, cnt);
        var ok := WriteFreeMap(bounce);
        if !ok {
          freeMap.SetMultiple(sector.value, cnt, false);
          sector := None;
        } else {
          loose := loose + Range(sector.value, cnt);
        }
      }
    }

    /** The sectors are marked, as its ASSERT says. */
    method FreeMapRelease(sector: Sec, cnt: nat, bounce: bool)
      requires Shape() && MapReady(State()) && AllAre(freeMap.View(), sector, cnt, true)
      modifies `diskMap, freeMap.bits, dev.sectors
      ensures State() == Release(old(State()), sector, cnt, Outcome(freeMap.bitCnt, bounce)) && MapReady(State())
      ensures forall k | 0 <= k < freeMap.bitCnt ::
        freeMap.View()[k] <==> old(freeMap.View())[k] && !(sector <= k < sector + cnt)
      ensures Outcome(freeMap.bitCnt, bounce).ok ==> diskMap == freeMap.View()
    {
      hide BitMap.View, Mark, WriteMap, MapReady, Outcome;
      ViewLength(freeMap);
      MarkKeepsReady(State(), sector, cnt, false);
      freeMap.SetMultiple(sector, cnt, false);
      WriteKeepsReady(State(), Outcome(freeMap.bitCnt, bounce));
      var _ := WriteFreeMap(bounce);
    }

    // ---- inode.c ----

    method InodeCreate(sector: Sec, length: nat, mem: bool, bounce: bool) returns (success: bool)
      requires Valid() && sector in loose && length < 0x8000_0000
      modifies this, freeMap.bits, dev.sectors
      ensures Valid()
      ensures (State(), success) == CreateInode(old(State()), sector, length, mem, Outcome(freeMap.bitCnt, bounce))
      ensures success ==> sector in table && table[sector].length == length && !InRun(table[sector], sector)
      ensures success ==> var data := Range(table[sector].start, Sectors(length));
        data !! old(loose) && loose == old(loose) + data && bytes == old(bytes)[sector := ZeroBytes(length)]
      ensures !success ==>
        freeMap.View() == old(freeMap.View()) && loose == old(loose) && table == old(table) && bytes == old(bytes)
    {
      hide BitMap.View, Sound, Allocate, InodeSector, MapFile, Outcome, ZeroRun, PutSector, ZeroBytes, Live;
      ghost var fs := State();
      CreateInodeSound(fs, sector, length, mem, Outcome(freeMap.bitCnt, bounce));
      LooseOnDevice(fs, sector);
      success := false;
      if mem {
        AllocateSound(fs, Sectors(length), Outcome(freeMap.bitCnt, bounce));
        var start := FreeMapAllocate(Sectors(length), bounce);
        if start.Some? {
          RunFits(fs, start.value, Sectors(length));
          var x := Extent(start.value, length);
          PutInodeSector(dev, sector, x);
          table := table[sector := x];
          bytes := bytes[sector := ZeroBytes(length)];
          success := true;
        }
      }
    }

    /** The search of open_inodes */
    method Search(s: Sec) returns (k: Option<nat>)
      ensures k == FindOpen(openInodes, s)
    {
      for i := 0 to |openInodes|
        invariant forall j | 0 <= j < i :: openInodes[j].sector != s
      {
        if openInodes[i].sector == s {
          FirstFound(openInodes, s, i);
          return Some(i);
        }
      }
      k := None;
    }

    /** inode_open, which may be inode_reopen; a new struct inode gets what its sector holds. The
        first inode to be opened is the free map's. */
    method InodeOpen(s: Sec, h: nat, mem: bool) returns (ok: bool)
      requires Shape() && Sound(State()) && CanOpen(State(), s) && h !in handles
      requires MapFile(handles) || (handles == map[] && s == FREE_MAP_SECTOR && h == FREE_MAP_FILE)
      modifies `openInodes, `handles
      ensures Sound(State()) && (State(), ok) == OpenInode(old(State()), s, h, mem)
      ensures ok || MapFile(old(handles)) ==> Valid()
      ensures ok <==> mem || s in Opens(old(openInodes))
      ensures if ok then handles == old(handles)[h := Handle(s, false, 0)] && s in Opens(openInodes)
              else handles == old(handles) && openInodes == old(openInodes)
    {
      hide BitMap.View, Sound, InodeOn, Opens, CanOpen;
      OpenInodeSound(State(), s, h, mem);
      InodeOnDevice(State(), s);
      var k := Search(s);
      if k.Some? {
        var i := openInodes[k.value];
        openInodes := openInodes[k.value := i.(openCnt := i.openCnt + 1)];
      } else {
        if !mem {
          return false;
        }
        openInodes := [Inode(s, 1, false, 0, InodeOn(dev.sectors[s]))] + openInodes;
      }
      handles := handles[h := Handle(s, false, 0)];
      ok := true;
    }

    /** inode_close */
    method InodeClose(h: nat, bounce: bool, bounce': bool)
      requires Valid() && h in handles && h != FREE_MAP_FILE && !handles[h].denyWrite
      modifies this, freeMap.bits, dev.sectors
      ensures Valid()
      ensures State() == CloseInode(old(State()), h, Outcome(freeMap.bitCnt, bounce), Outcome(freeMap.bitCnt, bounce'))
      ensures var s := old(handles)[h].sector;
        && handles == old(handles) - {h} && s in Opens(old(openInodes))
        && (s in Opens(openInodes) <==> On(old(handles), s) != {h})
        && |freeMap.View()| == |old(freeMap.View())| && bytes == old(bytes) && dir == old(dir) && loose == old(loose)
        && (forall k | 0 <= k < |freeMap.View()| :: freeMap.View()[k] <==>
              old(freeMap.View())[k]
              && !(On(old(handles), s) == {h} && Opens(old(openInodes))[s].removed && Uses(old(table), s, k)))
    {
      hide BitMap.View, Sound, Opens, Outcome, Release, MapReady, Mark, AllAre;
      ghost var fs := State();
      HandleOpen(fs, h);
      CloseInodeSound(fs, h, Outcome(freeMap.bitCnt, bounce), Outcome(freeMap.bitCnt, bounce'));
      MapIsReady(fs);
      var s := handles[h].sector;
      FoundInode(openInodes, s);
      var k := Search(s);
      var i := openInodes[k.value];
      i := i.(openCnt := i.openCnt - 1);
      handles := handles - {h};
      if i.openCnt == 0 {
        openInodes := openInodes[..k.value] + openInodes[k.value + 1..];
        LastIsNotMap(fs, h);
        DropKeepsReady(fs, s, handles);
        if i.removed {
          RemovedMarked(fs, h);
          FreeMapRelease(s, 1, bounce);
          ReleaseMarks(fs.(open := openInodes, handles := handles), s, 1, Outcome(freeMap.bitCnt, bounce));
          FreeMapRelease(i.data.start, Sectors(i.data.length), bounce');
        }
      } else {
        openInodes := openInodes[k.value := i];
      }
    }

    /** The struct inode that an opener points to */
    method InodeOf(h: nat) returns (i: Inode)
      requires Valid() && h in handles
      ensures IsOpen(State(), h) && i == Opens(openInodes)[handles[h].sector]
      ensures handles[h].sector in table && i.data == table[handles[h].sector]
    {
      hide BitMap.View, Sound, Opens;
      SoundHandle(State(), h);
      FoundInode(openInodes, handles[h].sector);
      var k := Search(handles[h].sector);
      i := openInodes[k.value];
    }

    // ---- directory.c ----

    /** lookup: the loop ends at the first entry with the name, or the first that cannot be read.
        `e` has the bytes of the entry found. */
    method LookupEntry(d: nat, name: seq<Byte>, readable: nat) returns (slot: Option<nat>, e: seq<Byte>)
      requires Valid() && d in handles && handles[d].sector == ROOT_DIR_SECTOR
      ensures slot == Lookup(dir, name, readable)
      ensures slot.Some? ==> EntryThere(dev.Contents(), table, dir, slot.value, e)
    {
      hide BitMap.View, Sound, Lookup, EntryOn, FileBytes, Opens;
      var i := InodeOf(d);
      RootThere(State());
      var x := i.data;
      var ofs := 0;
      e := [];
      assert dir[0..] == dir;
      while true
        invariant ofs <= |dir| && ofs <= readable && dev.Contents() == old(dev.Contents())
        invariant Lookup(dir, name, readable) == From(ofs, Lookup(dir[ofs..], name, readable - ofs))
        decreases |dir| - ofs
      {
        LookupStep(dir, name, ofs, readable);
        var ok;
        ok, e := ReadEntry(dev, x, dir, ofs, ofs < readable);
        if !ok {
          break;
        }
        if EntryOn(e).inUse && EntryOn(e).name == name {
          return Some(ofs), e;
        }
        ofs := ofs + 1;
      }
      slot := None;
    }

    /** The loop of dir_add. `e` is the entry read last. */
    method FindSlot(d: nat, readable: nat) returns (slot: nat, e: seq<Byte>)
      requires Valid() && d in handles && handles[d].sector == ROOT_DIR_SECTOR
      ensures slot == FreeSlot(dir, readable) && |e| == ENTRY
    {
      hide BitMap.View, Sound, FreeSlot, EntryOn, FileBytes, Opens;
      var i := InodeOf(d);
      RootThere(State());
      var x := i.data;
      slot, e := 0, seq(ENTRY, j => 0);
      assert dir[0..] == dir;
      while true
        invariant slot <= |dir| && slot <= readable && |e| == ENTRY && dev.Contents() == old(dev.Contents())
        invariant FreeSlot(dir, readable) == slot + FreeSlot(dir[slot..], readable - slot)
        decreases |dir| - slot
      {
        SlotStep(dir, slot, readable);
        var ok, b := ReadEntry(dev, x, dir, slot, slot < readable);
        if !ok {
          break;
        }
        e := b;
        if !EntryOn(e).inUse {
          break;
        }
        slot := slot + 1;
      }
    }

    /** inode_write_at of an entry, all of it. */
    method WriteEntry(d: nat, slot: nat, e: seq<Byte>, bounce: bool) returns (success: bool)
      requires Valid() && d in handles && handles[d].sector == ROOT_DIR_SECTOR && slot <= |dir| && |e| == ENTRY
      modifies dev.sectors
      ensures success <==> bounce && slot < |dir|
      ensures dev.Contents()
        == if success then Overwritten(old(dev.Contents()), SlotAt(table, slot), e) else old(dev.Contents())
    {
      hide BitMap.View, Sound, FileBytes, Moved, Written, Overwritten, Opens, EntryOn;
      var i := InodeOf(d);
      RootThere(State());
      NotDenied(State(), ROOT_DIR_SECTOR);
      ghost var before := dev.Contents();
      var n := InodeWriteAt(dev, i.data, i.denyWriteCnt, e, ENTRY, ENTRY * slot, bounce);
      EntryMoves(i.data, slot, bounce);
      success := n == ENTRY;
      if success {
        assert e[..n] == e;
        WrittenIsOverwritten(before, dev.Contents(), SlotAt(table, slot), e);
      }
    }

    /** dir_add. `pad` is what the name's field had in it behind the name. */
    method AddEntry(d: nat, name: seq<Byte>, sector: Sec, c: Chance) returns (success: bool, ghost pad: seq<Byte>)
      requires Valid() && d in handles && handles[d].sector == ROOT_DIR_SECTOR && NoNulls(name)
      requires sector in table && sector in loose && (forall k: Sec | Uses(table, sector, k) :: k in loose)
      requires !InRun(table[sector], sector) && table[sector].start + Sectors(table[sector].length) <= freeMap.bitCnt
      requires InodeThere(dev.Contents(), table, bytes, sector)
      modifies this, dev.sectors
      ensures Valid() && (State(), success) == DirAdd(old(State()), name, sector, LuckOf(c, freeMap.bitCnt, pad))
    {
      hide MapFile, BitMap.View, Sound, Lookup, FreeSlot, EntryBytes, Overwritten, InodeThere, FileBytes, Opens,
        Residue, Range, DirAdd, LuckOf, SlotAt;
      ghost var fs := State();
      ViewLength(freeMap);
      pad, success := [], false;
      DirAddIs(fs, name, sector, c, freeMap.bitCnt);
      if name != [] && |name| <= NAME_MAX {
        var there, _ := LookupEntry(d, name, c.look);
        if there.None? {
          var slot, e := FindSlot(d, c.slots);
          SlotInDir(dir, c.slots);
          var rest := e[5 + |name|..19];
          pad := rest;
          EntryLength(name, sector, rest);
          success := WriteEntry(d, slot, EntryBytes(name, sector, rest), c.entry);
          if success {
            var x := OnDisk(table, sector);
            loose := loose - {sector} - Range(x.start, Sectors(x.length));
            lost := lost + if dir[slot].inUse then {dir[slot].sector} else {};
            dir := dir[slot := Entry(true, name, sector)];
          }
        }
      }
      DirAddSound(fs, name, sector, LuckOf(c, freeMap.bitCnt, pad));
    }

    /** dir_remove, with inode_remove */
    method RemoveEntry(d: nat, name: seq<Byte>, h: nat, c: Chance) returns (success: bool)
      requires Valid() && d in handles && handles[d].sector == ROOT_DIR_SECTOR && h !in handles
      modifies this, freeMap.bits, dev.sectors
      ensures Valid() && (State(), success) == DirRemove(old(State()), name, h, LuckOf(c, freeMap.bitCnt, []))
      ensures handles == old(handles) && bytes == old(bytes) && loose == old(loose)
    {
      hide BitMap.View, MapFile, Sound, Lookup, CloseInode, OpenInode, Opens, EntryThere, CanOpen, Erase, EntryOn,
        Outcome, Live, DirRemove, LuckOf;
      ghost var fs := State();
      DirRemoveIs(fs, name, h, c, freeMap.bitCnt);
      DirRemoveSound(fs, name, h, LuckOf(c, freeMap.bitCnt, []));
      Fields();
      var slot, e := LookupEntry(d, name, c.look);
      success := false;
      if slot.Some? {
        EntryLive(fs, slot.value);
        var inodeOpen := InodeOpen(EntryOn(e).sector, h, c.inodeMem);
        OpenInodeSound(fs, EntryOn(e).sector, h, c.inodeMem);
        if inodeOpen {
          Fields();
          success := EraseEntry(d, slot.value, e, c.entry);
          Fields();
          InodeClose(h, c.maps.0, c.maps.1);
        }
      }
    }

    /** The entry is written back with in_use false, and inode_remove marks its inode. */
    method EraseEntry(d: nat, slot: nat, e: seq<Byte>, bounce: bool) returns (success: bool)
      requires Valid() && d in handles && handles[d].sector == ROOT_DIR_SECTOR
      requires slot < |dir| && EntryThere(dev.Contents(), table, dir, slot, e) && dir[slot].inUse
      requires dir[slot].sector in Opens(openInodes)
      modifies this, dev.sectors
      ensures Valid() && handles == old(handles) && (success <==> bounce)
      ensures State() == if bounce then Erase(old(State()), slot) else old(State())
    {
      hide BitMap.View, Sound, Opens, Overwritten, EntryThere, EntryOn, FindOpen;
      ghost var fs := State();
      EntryLive(fs, slot);
      EraseSound(fs, slot);
      EraseIs(fs, slot, e);
      success := WriteEntry(d, slot, ErasedBytes(e), bounce);
      if success {
        var s := EntryOn(e).sector;
        FoundInode(openInodes, s);
        SectorOf(openInodes, s);
        var k := Search(s);
        openInodes := openInodes[k.value := openInodes[k.value].(removed := true)];
        dir := dir[slot := dir[slot].(inUse := false)];
      }
    }

    /** dir_readdir, when `n` entries can be read: the next name in use, from the position of `d` on. */
    method ReadDir(d: nat, n: nat) returns (name: Option<seq<Byte>>)
      requires Valid() && d in handles && handles[d].sector == ROOT_DIR_SECTOR
      modifies `handles
      ensures Valid() && handles == WithSlot(old(handles), d, Directory.NextName(dir, Slot(old(handles)[d].pos), n).1)
      ensures name == Directory.NextName(dir, Slot(old(handles)[d].pos), n).0
    {
      hide BitMap.View, Sound, EntryOn, FileBytes, Opens, Directory.NextName;
      ghost var fs := State();
      var i := InodeOf(d);
      RootThere(fs);
      var x := i.data;
      var slot: nat, left: nat := Slot(handles[d].pos), n;
      name := None;
      var stop := false;
      AtSlot(handles, d);
      while !stop
        invariant slot <= |dir| && left <= n && dev.Contents() == old(dev.Contents())
        invariant handles == WithSlot(old(handles), d, slot)
        invariant if stop then (name, slot) == Directory.NextName(dir, Slot(old(handles)[d].pos), n)
                  else name == None && Directory.NextName(dir, slot, left)
                                       == Directory.NextName(dir, Slot(old(handles)[d].pos), n)
        decreases !stop, |dir| - slot
      {
        NextStep(dir, slot, left);
        var ok, e := ReadEntry(dev, x, dir, slot, left > 0);
        if !ok {
          stop := true;
        } else {
          handles := handles[d := handles[d].(pos := ENTRY * (slot + 1))];
          slot := slot + 1;
          left := left - 1;
          if EntryOn(e).inUse {
            name := Some(EntryOn(e).name);
            stop := true;
          }
        }
      }
      MovedSound(fs, d, slot);
    }

    // ---- file.c ----

    method FileDenyWrite(h: nat)
      requires Valid() && h in handles && handles[h].sector > ROOT_DIR_SECTOR
      modifies `openInodes, `handles
      ensures Valid() && State() == DenyWrite(old(State()), h)
      ensures var s := handles[h].sector;
        && Denying(handles, s) == Denying(old(handles), s) + {h}
        && s in Opens(openInodes) && Opens(openInodes)[s].denyWriteCnt == |Denying(handles, s)|
    {
      hide BitMap.View, Sound, Opens;
      DenySound(State(), h, true);
      Denies(handles, h, true);
      if !handles[h].denyWrite {
        var i := InodeOf(h);
        SectorOf(openInodes, handles[h].sector);
        handles := handles[h := handles[h].(denyWrite := true)];
        PutInode(i.(denyWriteCnt := i.denyWriteCnt + 1));
      }
      CountDenies(State(), h);
    }

    method FileAllowWrite(h: nat)
      requires Valid() && h in handles && handles[h].sector > ROOT_DIR_SECTOR
      modifies `openInodes, `handles
      ensures Valid() && State() == AllowWrite(old(State()), h)
      ensures var s := handles[h].sector;
        && Denying(handles, s) == Denying(old(handles), s) - {h}
        && s in Opens(openInodes) && Opens(openInodes)[s].denyWriteCnt == |Denying(handles, s)|
    {
      hide BitMap.View, Sound, Opens;
      DenySound(State(), h, false);
      Denies(handles, h, false);
      if handles[h].denyWrite {
        var i := InodeOf(h);
        SectorOf(openInodes, handles[h].sector);
        handles := handles[h := handles[h].(denyWrite := false)];
        PutInode(i.(denyWriteCnt := i.denyWriteCnt - 1));
      }
      CountDenies(State(), h);
    }

    /** A store to the struct inode of its sector */
    method PutInode(i: Inode)
      modifies `openInodes
      ensures openInodes == SetInode(old(openInodes), i)
    {
      var k := Search(i.sector);
      if k.Some? {
        openInodes := openInodes[k.value := i];
      }
    }

    /** file_open of the inode that `h` opened, or of a null pointer */
    method OpenFile(h: nat, found: bool, c: Chance) returns (ok: bool)
      requires Valid() && (found ==> h in handles && h != FREE_MAP_FILE && !handles[h].denyWrite)
      modifies this, freeMap.bits, dev.sectors
      ensures Valid() && (State(), ok) == FileOpen(old(State()), h, found, LuckOf(c, freeMap.bitCnt, []))
      ensures (ok <==> found && c.fileMem) && handles == if found && !ok then old(handles) - {h} else old(handles)
      ensures bytes == old(bytes) && dir == old(dir) && loose == old(loose)
    {
      hide BitMap.View, Sound, CloseInode;
      ok := found && c.fileMem;
      if found && !ok {
        InodeClose(h, c.maps.0, c.maps.1);
      }
    }

    method FileClose(h: nat, c: Chance)
      requires Valid() && h in handles && handles[h].sector > ROOT_DIR_SECTOR
      modifies this, freeMap.bits, dev.sectors
      ensures Valid() && State() == Close(old(State()), h, LuckOf(c, freeMap.bitCnt, []))
      ensures handles == old(handles) - {h} && bytes == old(bytes) && dir == old(dir) && loose == old(loose)
    {
      hide BitMap.View, Sound, CloseInode, AllowWrite, Denying, Outcome, On, Uses, Opens;
      CloseSound(State(), h, LuckOf(c, freeMap.bitCnt, []));
      DenySound(State(), h, false);
      FileAllowWrite(h);
      InodeClose(h, c.maps.0, c.maps.1);
    }

    method FileReopen(h: nat, g: nat, c: Chance) returns (ok: bool)
      requires Valid() && h in handles && handles[h].sector > ROOT_DIR_SECTOR && g !in handles
      modifies this, freeMap.bits, dev.sectors
      ensures Valid() && (State(), ok) == Reopen(old(State()), h, g, LuckOf(c, freeMap.bitCnt, []))
      ensures handles == if ok then old(handles)[g := Handle(old(handles)[h].sector, false, 0)] else old(handles)
      ensures bytes == old(bytes) && dir == old(dir) && loose == old(loose)
    {
      hide BitMap.View, Sound, FileOpen, OpenInode, CanOpen, Opens;
      SoundHandle(State(), h);
      CanReopen(State(), h);
      OpenInodeSound(State(), handles[h].sector, g, true);
      var _ := InodeOpen(handles[h].sector, g, true);
      ok := OpenFile(g, true, c);
    }

    /** file_write: the bytes of the file change where the position is, and no others; nothing is
        written while the inode's count of openers that deny writes is not 0. */
    method FileWrite(h: nat, buffer: seq<Byte>, bounce: bool) returns (n: nat)
      requires Valid() && h in handles && handles[h].sector > ROOT_DIR_SECTOR
      modifies this, dev.sectors
      ensures Valid() && (State(), n) == WriteFile(old(State()), h, buffer, bounce)
      ensures var s, pos := old(handles)[h].sector, old(handles)[h].pos;
        && handles == old(handles)[h := old(handles)[h].(pos := pos + n)] && table == old(table) && s in table
        && s in old(bytes) && (Denying(old(handles), s) != {} ==> n == 0)
        && (Denying(old(handles), s) == {} ==> n == Moved(table[s], |buffer|, pos, bounce))
        && (n > 0 ==> pos + n <= |old(bytes)[s]|
                      && bytes == old(bytes)[s := old(bytes)[s][..pos] + buffer[..n] + old(bytes)[s][pos + n..]])
        && (n == 0 ==> bytes == old(bytes) && dev.Contents() == old(dev.Contents()))
    {
      hide BitMap.View, Sound, Written, Overwritten, Opens, Moved, On, Denying;
      ghost var fs := State();
      WriteFileSound(fs, h, buffer, bounce);
      CountDenies(fs, h);
      FileThere(fs, h);
      var i := InodeOf(h);
      var pos := handles[h].pos;
      n := InodeWriteAt(dev, i.data, i.denyWriteCnt, buffer, |buffer|, pos, bounce);
      if n > 0 {
        WrittenIsOverwritten(fs.sectors, dev.Contents(), 512 * i.data.start + pos, buffer[..n]);
      }
      handles := handles[h := handles[h].(pos := pos + n)];
      bytes := WriteFile(fs, h, buffer, bounce).0.bytes;
    }

    /** file_read: the next bytes of the file, as many as there are of the ones asked for, when
        memory allows. */
    method FileRead(h: nat, buffer: array<Byte>, size: nat, bounce: bool) returns (n: nat)
      requires Valid() && h in handles && handles[h].sector > ROOT_DIR_SECTOR && size <= buffer.Length
      requires buffer as object != dev.sectors as object && buffer as object != freeMap.bits as object
      modifies `handles, buffer
      ensures Valid() && (State(), n) == ReadFile(old(State()), h, size, bounce)
      ensures var s, pos := handles[h].sector, old(handles)[h].pos;
        && s in bytes && s in table && n == Moved(table[s], size, pos, bounce) <= buffer.Length
        && (n > 0 ==> pos + n <= |bytes[s]| && buffer[..n] == bytes[s][pos..pos + n])
      ensures buffer[n..] == old(buffer[n..])
      ensures handles == old(handles)[h := old(handles)[h].(pos := old(handles)[h].pos + n)]
    {
      hide BitMap.View, Sound, Copied, Opens, Moved, FileBytes;
      ghost var fs := State();
      SeekSound(fs, h, ReadFile(fs, h, size, bounce).0.handles[h].pos);
      ghost var s := handles[h].sector;
      FileThere(fs, h);
      var i := InodeOf(h);
      var pos := handles[h].pos;
      n := InodeReadAt(dev, i.data, buffer, size, pos, bounce);
      MovedInside(i.data, size, pos, bounce);
      if n > 0 {
        ReadIsSlice(fs.sectors, i.data, pos, buffer[..], n);
      }
      handles := handles[h := handles[h].(pos := pos + n)];
    }

    // ---- filesys.c ----

    /** dir_open_root */
    method DirOpenRoot(d: nat, c: Chance) returns (ok: bool)
      requires Valid() && d !in handles
      modifies this, freeMap.bits, dev.sectors
      ensures Valid() && (State(), ok) == OpenRoot(old(State()), d, LuckOf(c, freeMap.bitCnt, []))
      ensures handles == if ok then old(handles)[d := Handle(ROOT_DIR_SECTOR, false, 0)] else old(handles)
      ensures bytes == old(bytes) && dir == old(dir) && loose == old(loose)
    {
      hide BitMap.View, Sound, OpenInode, CloseInode, CanOpen, Opens;
      CanOpenRoot(State());
      OpenRootSound(State(), d, LuckOf(c, freeMap.bitCnt, []));
      OpenInodeSound(State(), ROOT_DIR_SECTOR, d, c.rootMem);
      ok := InodeOpen(ROOT_DIR_SECTOR, d, c.rootMem);
      if ok && !c.dirMem {
        InodeClose(d, c.maps.0, c.maps.1);
        ok := false;
      }
    }

    /** filesys_create. The sector variable starts out as 0, the free map's own sector, which
        stands for none. */
    method FilesysCreate(name: seq<Byte>, size: nat, d: nat, c: Chance) returns (success: bool, ghost pad: seq<Byte>)
      requires Valid() && d !in handles && NoNulls(name) && size < 0x8000_0000
      modifies this, freeMap.bits, dev.sectors
      ensures Valid() && (State(), success) == Create(old(State()), name, size, d, LuckOf(c, freeMap.bitCnt, pad))
      ensures handles == old(handles)
      ensures var was := old(State());
        && (forall s | s in Live(was) && s in Live(State()) :: FileSame(was, State(), s))
        && (forall s | s in Live(State()) && s !in Live(was) :: s in bytes && bytes[s] == ZeroBytes(size))
        && (Whole(was.dir, c) ==> NameCreated(was, State(), name, size, success))
    {
      hide BitMap.View, Whole, NameCreated, Sound, OpenRoot, CreateIn, CloseInode, Opens, MapFile, Create, LuckOf,
        Outcome, On, Uses, Live,
        FileSame;
      pad := [];
      ghost var fs := State();
      CreateIs(fs, name, size, d, c, freeMap.bitCnt);
      success := false;
      var rootOpen := DirOpenRoot(d, c);
      if rootOpen {
        success, pad := CreateFile(d, name, size, c);
        RootNotMap(handles, d);
        InodeClose(d, c.maps.0, c.maps.1);
      }
      CreateSound(fs, name, size, d, LuckOf(c, freeMap.bitCnt, pad));
      CreatedFile(fs, name, size, d, c, freeMap.bitCnt, pad);
    }

    /** filesys_create, between dir_open_root and dir_close */
    method CreateFile(d: nat, name: seq<Byte>, size: nat, c: Chance) returns (success: bool, ghost pad: seq<Byte>)
      requires Valid() && d in handles && handles[d] == Handle(ROOT_DIR_SECTOR, false, 0) && NoNulls(name)
      requires size < 0x8000_0000
      modifies this, freeMap.bits, dev.sectors
      ensures Valid() && (State(), success) == CreateIn(old(State()), name, size, LuckOf(c, freeMap.bitCnt, pad))
      ensures handles == old(handles)
    {
      hide BitMap.View, MapFile, Sound, Allocate, CreateIn, Made, GiveBack, Outcome, Opens, DirSectors, Live, Mark,
        LuckOf;
      pad := [];
      ghost var fs := State();
      CreateInIs(State(), name, size, c, freeMap.bitCnt);
      AllocateSound(State(), 1, Outcome(freeMap.bitCnt, c.maps.0));
      NeverZero(State(), Outcome(freeMap.bitCnt, c.maps.0));
      var inodeSector: Sec := 0;
      var sector := FreeMapAllocate(1, c.maps.0);
      success := false;
      if sector.Some? {
        inodeSector := sector.value;
        success, pad := MakeFile(d, name, inodeSector, size, c);
      }
      if !success && inodeSector != 0 {
        ReleaseSector(inodeSector, c.maps.2);
      }
      CreateInSound(fs, name, size, LuckOf(c, freeMap.bitCnt, pad));
    }

    /** The middle of filesys_create: inode_create and dir_add */
    method MakeFile(d: nat, name: seq<Byte>, sector: Sec, size: nat, c: Chance)
      returns (success: bool, ghost pad: seq<Byte>)
      requires Valid() && d in handles && handles[d] == Handle(ROOT_DIR_SECTOR, false, 0) && NoNulls(name)
      requires sector in loose && size < 0x8000_0000
      modifies this, freeMap.bits, dev.sectors
      ensures Valid() && handles == old(handles) && (!success ==> sector in loose)
      ensures (State(), success) == Made(old(State()), name, sector, size, LuckOf(c, freeMap.bitCnt, pad))
    {
      hide BitMap.View, MapFile, Sound, CreateInode, DirAdd, Made, LuckOf, Outcome, Opens, InodeThere, Uses, InRun,
        DirSectors, Live;
      pad := [];
      MadeIs(State(), name, sector, size, c, freeMap.bitCnt);
      CreateInodeSound(State(), sector, size, c.diskInodeMem, Outcome(freeMap.bitCnt, c.maps.1));
      success := InodeCreate(sector, size, c.diskInodeMem, c.maps.1);
      if success {
        ghost var fs := State();
        ViewLength(freeMap);
        success, pad := AddEntry(d, name, sector, c);
        DirAddSound(fs, name, sector, LuckOf(c, freeMap.bitCnt, pad));
      }
    }

    /** free_map_release of a sector that was to be an inode's */
    method ReleaseSector(sector: Sec, bounce: bool)
      requires Valid() && sector in loose
      modifies this, freeMap.bits, dev.sectors
      ensures Valid()
      ensures State() == GiveBack(old(State()), sector, Outcome(freeMap.bitCnt, bounce))
    {
      hide BitMap.View, Sound, Release, MapReady, Mark, Outcome;
      GiveBackSound(State(), sector, Outcome(freeMap.bitCnt, bounce));
      GiveBackMarked(State(), sector);
      MapIsReady(State());
      FreeMapRelease(sector, 1, bounce);
      loose := loose - {sector};
    }

    /** dir_lookup */
    method OpenEntry(d: nat, name: seq<Byte>, h: nat, c: Chance) returns (found: bool)
      requires Valid() && d in handles && handles[d].sector == ROOT_DIR_SECTOR && h !in handles
      modifies `openInodes, `handles
      ensures Valid() && (State(), found) == DirLookup(old(State()), name, h, LuckOf(c, freeMap.bitCnt, []))
      ensures d in handles && handles[d] == old(handles[d]) && (!found ==> State() == old(State()))
      ensures var i := Lookup(dir, name, c.look);
        && (i.Some? ==> i.value < |dir|) && (found ==> i.Some?)
        && (found ==> handles == old(handles)[h := Handle(dir[i.value].sector, false, 0)])
      ensures found ==> h in handles && h != FREE_MAP_FILE && !handles[h].denyWrite
    {
      hide BitMap.View, Sound, OpenInode, Lookup, Opens, EntryThere, CanOpen;
      ghost var fs := State();
      DirLookupSound(fs, name, h, LuckOf(c, freeMap.bitCnt, []));
      found := false;
      var slot, e := LookupEntry(d, name, c.look);
      if slot.Some? {
        EntryLive(fs, slot.value);
        found := InodeOpen(EntryOn(e).sector, h, c.inodeMem);
      }
    }

    method FilesysOpen(name: seq<Byte>, d: nat, h: nat, c: Chance) returns (ok: bool)
      requires Valid() && d !in handles && h !in handles && d != h
      modifies this, freeMap.bits, dev.sectors
      ensures Valid() && (State(), ok) == Open(old(State()), name, d, h, LuckOf(c, freeMap.bitCnt, []))
      ensures ok ==> h in handles && handles == old(handles)[h := handles[h]] && handles[h].sector > ROOT_DIR_SECTOR
      ensures (!ok ==> handles == old(handles)) && bytes == old(bytes) && dir == old(dir) && loose == old(loose)
      ensures ok && c.look >= ENTRIES ==>
        Directory.Find(dir, name).Some? && handles[h] == Handle(Directory.Find(dir, name).value, false, 0)
    {
      hide BitMap.View, Sound, OpenRoot, DirLookup, CloseInode, FileOpen, Opens, MapFile, Open, LuckOf, Outcome, On,
        Uses, Live;
      ghost var fs := State();
      OpenIs(fs, name, d, h, c, freeMap.bitCnt);
      OpenSound(fs, name, d, h, LuckOf(c, freeMap.bitCnt, []));
      OpenedFile(fs, name, d, h, c, freeMap.bitCnt);
      ok := false;
      var rootOpen := DirOpenRoot(d, c);
      if rootOpen {
        var found := OpenEntry(d, name, h, c);
        RootNotMap(handles, d);
        InodeClose(d, c.maps.0, c.maps.1);
        ok := OpenFile(h, found, c);
      }
    }

    method FilesysRemove(name: seq<Byte>, d: nat, h: nat, c: Chance) returns (success: bool)
      requires Valid() && d !in handles && h !in handles && d != h
      modifies this, freeMap.bits, dev.sectors
      ensures Valid() && (State(), success) == Remove(old(State()), name, d, h, LuckOf(c, freeMap.bitCnt, []))
      ensures handles == old(handles) && bytes == old(bytes) && loose == old(loose)
      ensures Whole(old(dir), c) ==> NameRemoved(old(dir), dir, name, success)
    {
      hide BitMap.View, Whole, NameRemoved, Sound, OpenRoot, DirRemove, CloseInode, Opens, MapFile, Remove, LuckOf,
        Outcome, On, Uses, Live;
      RemoveIs(State(), name, d, h, c, freeMap.bitCnt);
      RemoveSound(State(), name, d, h, LuckOf(c, freeMap.bitCnt, []));
      RemovedFile(State(), name, d, h, c, freeMap.bitCnt);
      success := false;
      var rootOpen := DirOpenRoot(d, c);
      if rootOpen {
        success := RemoveEntry(d, name, h, c);
        RootNotMap(handles, d);
        InodeClose(d, c.maps.0, c.maps.1);
      }
    }

    /** The loop of fsutil_ls: the names that dir_readdir gives until it gives none. Its `k`th call
        can read `readable(k)` entries. */
    method ListNames(d: nat, readable: nat -> nat) returns (names: seq<seq<Byte>>)
      requires Valid() && d in handles && handles[d] == Handle(ROOT_DIR_SECTOR, false, 0)
      modifies `handles
      ensures Valid() && handles.Keys == old(handles).Keys && d in handles && handles == old(handles)[d := handles[d]]
      ensures handles[d].sector == ROOT_DIR_SECTOR
      ensures names <= Directory.Listing(dir, 0)
      ensures (forall k: nat :: readable(k) >= ENTRIES) ==> names == Directory.Listing(dir, 0)
    {
      hide BitMap.View, Sound, MapFile, Opens, Directory.Listing, Directory.NextName;
      names := [];
      var k: nat := 0;
      ghost var slot: nat := 0;
      RootSlot(State(), d);
      var more := true;
      while more
        invariant Valid() && handles == WithSlot(old(handles), d, slot) && slot <= |dir|
        invariant Directory.Listing(dir, 0) == names + Directory.Listing(dir, slot)
        invariant !more && (forall k: nat :: readable(k) >= ENTRIES) ==> Directory.Listing(dir, slot) == []
        decreases more, |dir| - slot
      {
        SlotBack(old(handles), d, slot);
        Directory.NextMeaning(dir, slot, readable(k));
        slot := Directory.NextName(dir, slot, readable(k)).1;
        var name := ReadDir(d, readable(k));
        if name.Some? {
          names := names + [name.value];
        } else {
          more := false;
        }
        k := k + 1;
      }
    }

    /** fsutil_ls, without the printing */
    method FsutilLs(d: nat, c: Chance, readable: nat -> nat) returns (ok: bool, names: seq<seq<Byte>>)
      requires Valid() && d !in handles
      modifies this, freeMap.bits, dev.sectors
      ensures Valid() && handles == old(handles) && dir == old(dir) && bytes == old(bytes) && loose == old(loose)
      ensures ok ==> names <= Directory.Listing(dir, 0)
      ensures ok && (forall k: nat :: readable(k) >= ENTRIES) ==> names == Directory.Listing(dir, 0)
    {
      hide BitMap.View, Sound, OpenRoot, MapFile, CloseInode, Opens, LuckOf, Outcome, On, Uses, Live, Directory.Listing;
      names := [];
      ok := DirOpenRoot(d, c);
      if ok {
        names := ListNames(d, readable);
        RootNotMap(handles, d);
        InodeClose(d, c.maps.0, c.maps.1);
      }
    }
  }

  /** What inode_create writes: the inode's own sector, then zeros to all sectors of its data. */
  method PutInodeSector(dev: Block, sector: Sec, x: Extent)
    requires sector < dev.sectors.Length && x.start + Sectors(x.length) <= dev.sectors.Length
    modifies dev.sectors
    ensures dev.Contents()
      == ZeroRun(PutSector(old(dev.Contents()), sector, InodeSector(x)), x.start, Sectors(x.length))
  {
    hide InodeSector;
    ghost var before := dev.Contents();
    dev.sectors[sector] := InodeSector(x);
    assert dev.Contents() == PutSector(before, sector, InodeSector(x));
    ZeroData(dev, x);
    assert dev.Contents() == ZeroRun(PutSector(before, sector, InodeSector(x)), x.start, Sectors(x.length));
  }

  /** inode_create and dir_add, as filesys_create calls them */
  ghost function Made(fs: Fs, name: seq<Byte>, sector: Sec, size: nat, l: Luck): (Fs, bool) {
    var (f, made) := CreateInode(fs, sector, size, l.diskInodeMem, l.maps.1);
    if made then DirAdd(f, name, sector, l) else (f, false)
  }

  lemma CreateInIs(fs: Fs, name: seq<Byte>, size: nat, c: Chance, bits: nat)
    ensures var (f1, sector) := Allocate(fs, 1, Outcome(bits, c.maps.0));
      && (sector.None? ==> forall pad :: CreateIn(fs, name, size, LuckOf(c, bits, pad)) == (f1, false))
      && (sector.Some? ==> forall pad ::
            var (f, ok) := Made(f1, name, sector.value, size, LuckOf(c, bits, pad));
            CreateIn(fs, name, size, LuckOf(c, bits, pad))
            == (if ok then f else GiveBack(f, sector.value, Outcome(bits, c.maps.2)), ok))
  {
    hide Allocate, CreateInode, DirAdd, GiveBack, Outcome;
  }

  lemma MadeIs(fs: Fs, name: seq<Byte>, sector: Sec, size: nat, c: Chance, bits: nat)
    ensures var (f, made) := CreateInode(fs, sector, size, c.diskInodeMem, Outcome(bits, c.maps.1));
      forall pad :: var l := LuckOf(c, bits, pad);
        Made(fs, name, sector, size, l) == if made then DirAdd(f, name, sector, l) else (f, false)
  {
    hide CreateInode, DirAdd, Outcome;
  }

  lemma DirAddIs(fs: Fs, name: seq<Byte>, sector: Sec, c: Chance, bits: nat)
    ensures var slot := FreeSlot(fs.dir, c.slots);
      var bad := name == [] || |name| > NAME_MAX || Lookup(fs.dir, name, c.look).Some?;
      forall pad :: var r := DirAdd(fs, name, sector, LuckOf(c, bits, pad));
        && (bad || slot >= |fs.dir| || !c.entry ==> r == (fs, false))
        && (!bad && slot < |fs.dir| && c.entry && |pad| == NAME_MAX - |name| ==>
              && r.1 && r.0.dir == fs.dir[slot := Entry(true, name, sector)]
              && r.0.lost == fs.lost + (if fs.dir[slot].inUse then {fs.dir[slot].sector} else {})
              && r.0.sectors == Overwritten(fs.sectors, SlotAt(fs.table, slot), EntryBytes(name, sector, pad))
              && r.0.loose == fs.loose - {sector}
                              - Range(OnDisk(fs.table, sector).start, Sectors(OnDisk(fs.table, sector).length))
              && r.0 == fs.(dir := r.0.dir, lost := r.0.lost, sectors := r.0.sectors, loose := r.0.loose))
  {
    hide Overwritten, EntryBytes, SlotAt, Range, Lookup, Residue;
    SlotInDir(fs.dir, c.slots);
    forall pad: seq<Byte> | |pad| == NAME_MAX - |name| ensures Residue(pad, NAME_MAX - |name|) == pad {
      ResidueIs(pad);
    }
  }

  lemma DirRemoveIs(fs: Fs, name: seq<Byte>, h: nat, c: Chance, bits: nat)
    ensures var l := LuckOf(c, bits, []); var i := Lookup(fs.dir, name, c.look);
      var w, w' := Outcome(bits, c.maps.0), Outcome(bits, c.maps.1);
      && (i.None? ==> DirRemove(fs, name, h, l) == (fs, false))
      && (i.Some? ==>
            var (f, ok) := OpenInode(fs, fs.dir[i.value].sector, h, c.inodeMem);
            && (!ok ==> DirRemove(fs, name, h, l) == (fs, false))
            && (ok ==> DirRemove(fs, name, h, l)
                       == if c.entry && i.value < |f.dir| then (CloseInode(Erase(f, i.value), h, w, w'), true)
                          else (CloseInode(f, h, w, w'), false)))
  {
    hide OpenInode, CloseInode, Lookup, Erase, Outcome;
  }

  /** Names are unique, and no reading of entries is cut short. */
  ghost predicate Whole(dir: seq<Entry>, c: Chance) {
    Directory.UniqueNames(dir) && c.look >= ENTRIES && c.slots >= ENTRIES
  }

  /** A name was entered, for a new file, or nothing was. */
  ghost predicate NameCreated(fs: Fs, r: Fs, name: seq<Byte>, size: nat, success: bool) {
    && Directory.UniqueNames(r.dir) && (!success ==> r.dir == fs.dir)
    && (success ==> Directory.Find(fs.dir, name) == None && Directory.Find(r.dir, name).Some?
                    && FileSystemNames.NewFile(fs, r, Directory.Find(r.dir, name).value, size))
    && forall other | other != name :: Directory.Find(r.dir, other) == Directory.Find(fs.dir, other)
  }

  /** A name was taken away, or none was. */
  ghost predicate NameRemoved(dir: seq<Entry>, dir': seq<Entry>, name: seq<Byte>, success: bool) {
    && Directory.UniqueNames(dir') && (!success ==> dir' == dir)
    && (success ==> Directory.Find(dir, name).Some? && Directory.Find(dir', name) == None)
    && forall other | other != name :: Directory.Find(dir', other) == Directory.Find(dir, other)
  }

  lemma OpenedFile(fs: Fs, name: seq<Byte>, d: nat, h: nat, c: Chance, bits: nat)
    requires Sound(fs) && d !in fs.handles && h !in fs.handles && d != h
    ensures var (r, ok) := Open(fs, name, d, h, LuckOf(c, bits, [])); var found := Directory.Find(fs.dir, name);
      c.look >= ENTRIES && ok ==> found.Some? && r.handles == fs.handles[h := Handle(found.value, false, 0)]
  {
    hide Sound, Open, Opens, Directory.Find, Outcome;
    if c.look >= ENTRIES {
      FileSystemNames.OpenFinds(fs, name, d, h, LuckOf(c, bits, []));
    }
  }

  lemma CreatedFile(fs: Fs, name: seq<Byte>, size: nat, d: nat, c: Chance, bits: nat, pad: seq<Byte>)
    requires Sound(fs) && d !in fs.handles && size < 0x8000_0000 && NoNulls(name)
    ensures var (r, ok) := Create(fs, name, size, d, LuckOf(c, bits, pad));
      Whole(fs.dir, c) ==> NameCreated(fs, r, name, size, ok)
  {
    hide Sound, Create, Opens, Directory.Find, Directory.UniqueNames, FileSystemNames.NewFile, Outcome;
    if Whole(fs.dir, c) {
      FileSystemNames.CreateEnters(fs, name, size, d, LuckOf(c, bits, pad), name);
      forall other | other != name
        ensures Directory.Find(Create(fs, name, size, d, LuckOf(c, bits, pad)).0.dir, other)
                == Directory.Find(fs.dir, other)
      {
        FileSystemNames.CreateEnters(fs, name, size, d, LuckOf(c, bits, pad), other);
      }
    }
  }

  lemma RemovedFile(fs: Fs, name: seq<Byte>, d: nat, h: nat, c: Chance, bits: nat)
    requires Sound(fs) && d !in fs.handles && h !in fs.handles && d != h
    ensures var (r, ok) := Remove(fs, name, d, h, LuckOf(c, bits, []));
      Whole(fs.dir, c) ==> NameRemoved(fs.dir, r.dir, name, ok)
  {
    hide Sound, Remove, Opens, Directory.Find, Directory.UniqueNames, Outcome;
    if Whole(fs.dir, c) {
      FileSystemNames.RemoveErases(fs, name, d, h, LuckOf(c, bits, []), name);
      forall other | other != name
        ensures Directory.Find(Remove(fs, name, d, h, LuckOf(c, bits, [])).0.dir, other)
                == Directory.Find(fs.dir, other)
      {
        FileSystemNames.RemoveErases(fs, name, d, h, LuckOf(c, bits, []), other);
      }
    }
  }

  lemma CreateIs(fs: Fs, name: seq<Byte>, size: nat, d: nat, c: Chance, bits: nat)
    ensures var w, w' := Outcome(bits, c.maps.0), Outcome(bits, c.maps.1);
      var (f1, ok) := OpenRoot(fs, d, LuckOf(c, bits, []));
      forall pad :: var l := LuckOf(c, bits, pad); var (f2, done) := CreateIn(f1, name, size, l);
        Create(fs, name, size, d, l) == if ok then (CloseInode(f2, d, w, w'), done) else (f1, false)
  {
    hide OpenInode, CreateIn, CloseInode, Outcome;
  }

  lemma OpenIs(fs: Fs, name: seq<Byte>, d: nat, h: nat, c: Chance, bits: nat)
    ensures var l := LuckOf(c, bits, []); var w, w' := Outcome(bits, c.maps.0), Outcome(bits, c.maps.1);
      var (f1, ok) := OpenRoot(fs, d, l); var (f2, found) := DirLookup(f1, name, h, l);
      Open(fs, name, d, h, l) == if ok then FileOpen(CloseInode(f2, d, w, w'), h, found, l) else (f1, false)
  {
    hide OpenRoot, DirLookup, CloseInode, FileOpen, Outcome;
  }

  lemma RemoveIs(fs: Fs, name: seq<Byte>, d: nat, h: nat, c: Chance, bits: nat)
    ensures var l := LuckOf(c, bits, []); var w, w' := Outcome(bits, c.maps.0), Outcome(bits, c.maps.1);
      var (f1, ok) := OpenRoot(fs, d, l); var (f2, done) := DirRemove(f1, name, h, l);
      Remove(fs, name, d, h, l) == if ok then (CloseInode(f2, d, w, w'), done) else (f1, false)
  {
    hide OpenRoot, DirRemove, CloseInode, Outcome;
  }

  /** The last opener to close an inode does not close the free map's, which free_map_file holds. */
  lemma LastIsNotMap(fs: Fs, h: nat)
    requires Sound(fs) && MapFile(fs.handles) && h in fs.handles && h != FREE_MAP_FILE
    requires fs.handles[h].sector in Opens(fs.open) && Opens(fs.open)[fs.handles[h].sector].openCnt == 1
    ensures fs.handles[h].sector != FREE_MAP_SECTOR
  {
    hide Opens, Owned, DirOk, Consistent, Denying;
    var s := fs.handles[h].sector;
    assert InodeOk(fs, s, Opens(fs.open)[s]);
    OnlyElement(On(fs.handles, s), h);
    assert s == FREE_MAP_SECTOR ==> FREE_MAP_FILE in On(fs.handles, s);
  }

  lemma NotDenied(fs: Fs, s: Sec)
    requires Sound(fs) && MapFile(fs.handles) && s <= ROOT_DIR_SECTOR && s in Opens(fs.open)
    ensures Opens(fs.open)[s].denyWriteCnt == 0
  {
    hide Opens, Owned, DirOk, Consistent, On;
    assert InodeOk(fs, s, Opens(fs.open)[s]);
    assert Denying(fs.handles, s) == {};
  }

  lemma SlotInDir(dir: seq<Entry>, n: nat)
    ensures FreeSlot(dir, n) <= |dir|
  {
  }

  lemma ResidueIs(pad: seq<Byte>)
    ensures Residue(pad, |pad|) == pad
  {
  }

  lemma EntryLive(fs: Fs, slot: nat)
    requires Sound(fs) && slot < |fs.dir| && fs.dir[slot].inUse
    ensures CanOpen(fs, fs.dir[slot].sector) && fs.dir[slot].sector > ROOT_DIR_SECTOR
    ensures forall e | EntryThere(fs.sectors, fs.table, fs.dir, slot, e) :: |e| == ENTRY && EntryOn(e) == fs.dir[slot]
  {
    hide Inv, Dev, EntryOn, Opens, CanOpen;
    Openable(fs, slot);
    EntrySector(fs, slot);
  }

  /** Writing back the bytes of an entry, one of them changed. */
  lemma EraseIs(fs: Fs, slot: nat, e: seq<Byte>)
    requires Sound(fs) && slot < |fs.dir| && EntryThere(fs.sectors, fs.table, fs.dir, slot, e)
    ensures |e| == ENTRY
    ensures Overwritten(fs.sectors, SlotAt(fs.table, slot), ErasedBytes(e))
         == Overwritten(fs.sectors, SlotAt(fs.table, slot) + ENTRY - 1, [0])
  {
    hide Inv, Dev, Overwritten, EntryOn;
    SlotLength(fs.sectors, fs.table[ROOT_DIR_SECTOR], slot);
    SameOverwriting(fs.sectors, SlotAt(fs.table, slot), e);
  }

  lemma SameOverwriting(sectors: seq<Sector>, at: nat, e: seq<Byte>)
    requires |e| == ENTRY && at + ENTRY <= 512 * |sectors|
    requires forall i | 0 <= i < ENTRY :: e[i] == DiskByte(sectors, at + i)
    ensures Overwritten(sectors, at, ErasedBytes(e)) == Overwritten(sectors, at + ENTRY - 1, [0])
  {
    hide Overwritten, DiskByte;
    OverwrittenIsWritten(sectors, at, ErasedBytes(e));
    OverwrittenIsWritten(sectors, at + ENTRY - 1, [0]);
    assert Written(sectors, Overwritten(sectors, at + ENTRY - 1, [0]), at, ErasedBytes(e));
    WrittenIsOverwritten(sectors, Overwritten(sectors, at + ENTRY - 1, [0]), at, ErasedBytes(e));
  }

  lemma SectorOf(open: seq<Inode>, s: Sec)
    requires s in Opens(open)
    ensures Opens(open)[s].sector == s
  {
    OpensKeys(open);
  }

  lemma CountDenies(fs: Fs, h: nat)
    requires Sound(fs) && h in fs.handles
    ensures var s := fs.handles[h].sector;
      s in Opens(fs.open) && Opens(fs.open)[s].denyWriteCnt == |Denying(fs.handles, s)|
  {
    hide Opens, Owned, DirOk, Consistent, On, Denying;
    assert InodeOk(fs, fs.handles[h].sector, Opens(fs.open)[fs.handles[h].sector]);
  }

  lemma Denies(handles: map<nat, Handle>, h: nat, deny: bool)
    requires h in handles
    ensures var s := handles[h].sector;
      Denying(handles[h := handles[h].(denyWrite := deny)], s)
      == if deny then Denying(handles, s) + {h} else Denying(handles, s) - {h}
    ensures handles[h].denyWrite == deny ==> handles[h := handles[h].(denyWrite := deny)] == handles
  {
  }

  lemma FileThere(fs: Fs, h: nat)
    requires Sound(fs) && h in fs.handles && fs.handles[h].sector > ROOT_DIR_SECTOR
    ensures var s := fs.handles[h].sector;
      && s in fs.bytes && s in fs.table && |fs.bytes[s]| == fs.table[s].length
      && OnDevice(fs.table[s], fs.sectors) && fs.bytes[s] == FileBytes(fs.sectors, fs.table[s])
  {
    hide Inv, Dev, FileBytes, Live, Opens;
    HandleIsLive(fs, h);
    BytesThere(fs, fs.handles[h].sector);
  }

  /** A file system that starts, before the free map is opened. */
  lemma NothingOpen(fs: Fs)
    requires Sound(fs)
    ensures var r := Boot(fs).(open := [], handles := map[]);
      Sound(r) && CanOpen(r, FREE_MAP_SECTOR) && OpenInode(r, FREE_MAP_SECTOR, FREE_MAP_FILE, true).0 == Boot(fs)
  {
    hide Owned, MapsOk, DirOk, Dev, InodeOk, Denying, On;
    BootSound(fs);
    BootList(OnDisk(fs.table, FREE_MAP_SECTOR));
    var r := Boot(fs).(open := [], handles := map[]);
    OpensKeys(r.open);
    assert Live(r) == Live(Boot(fs));
  }

  lemma CanOpenRoot(fs: Fs)
    ensures CanOpen(fs, ROOT_DIR_SECTOR)
  {
  }

  lemma RootNotMap(handles: map<nat, Handle>, d: nat)
    requires MapFile(handles) && d in handles && handles[d].sector == ROOT_DIR_SECTOR
    ensures d != FREE_MAP_FILE && !handles[d].denyWrite
  {
  }

  /** The free map's own sector is marked, so it is never given out. */
  lemma NeverZero(fs: Fs, w: MapWrite)
    requires Sound(fs)
    ensures Allocate(fs, 1, w).1.Some? ==> Allocate(fs, 1, w).1.value != 0
  {
    hide Allocate, Consistent, OpensOk, DirOk, Opens;
    AllocateKeeps(fs, 1, w);
    assert FREE_MAP_SECTOR in Live(fs) && Uses(fs.table, FREE_MAP_SECTOR, 0);
  }

  lemma GiveBackMarked(fs: Fs, s: Sec)
    requires Sound(fs) && s in fs.loose
    ensures AllAre(fs.freeMap, s, 1, true)
  {
    hide Consistent, OpensOk, DirOk;
  }

  /** The bytes of an entry. */
  ghost predicate EntryThere(sectors: seq<Sector>, table: map<Sec, Extent>, dir: seq<Entry>, slot: nat, e: seq<Byte>) {
    && ROOT_DIR_SECTOR in table && slot < |dir| && DirThere(sectors, table[ROOT_DIR_SECTOR], dir)
    && e == SlotBytes(sectors, table[ROOT_DIR_SECTOR], slot)
  }

  lemma SoundHandle(fs: Fs, h: nat)
    requires Sound(fs) && h in fs.handles
    ensures IsOpen(fs, h) && fs.handles[h].sector in fs.table
    ensures Opens(fs.open)[fs.handles[h].sector].data == fs.table[fs.handles[h].sector]
  {
    hide Inv, Consistent, Opens;
    HandleIsLive(fs, h);
  }

  lemma RootThere(fs: Fs)
    requires Sound(fs)
    ensures ROOT_DIR_SECTOR in fs.table && |fs.dir| == ENTRIES
    ensures DirThere(fs.sectors, fs.table[ROOT_DIR_SECTOR], fs.dir)
  {
    hide Owned, OpensOk, InodeThere, DirThere, MapThere;
    FreeMapOnDisk(fs, Live(fs));
  }

  /** One reading of an entry by inode_read_at: it fails at the end of the directory, and when there
      is no bounce buffer. */
  method ReadEntry(dev: Block, x: Extent, ghost dir: seq<Entry>, slot: nat, bounce: bool)
    returns (ok: bool, e: seq<Byte>)
    requires DirThere(dev.Contents(), x, dir) && |dir| == ENTRIES && slot <= ENTRIES
    ensures ok <==> slot < ENTRIES && bounce
    ensures ok ==> e == SlotBytes(dev.Contents(), x, slot) && |e| == ENTRY && EntryOn(e) == dir[slot]
    ensures dev.Contents() == old(dev.Contents())
  {
    hide EntryOn, FileBytes, Moved, Copied;
    var buffer := new Byte[ENTRY];
    ghost var before := dev.Contents();
    var n := InodeReadAt(dev, x, buffer, ENTRY, ENTRY * slot, bounce);
    EntryMoves(x, slot, bounce);
    ok := n == ENTRY;
    e := buffer[..];
    if ok {
      ReadIsSlice(before, x, ENTRY * slot, e, n);
      assert e[..n] == e;
    }
  }

  lemma EntryMoves(x: Extent, slot: nat, bounce: bool)
    requires x.length == ENTRY * ENTRIES && slot <= ENTRIES
    ensures Moved(x, ENTRY, ENTRY * slot, bounce) == if slot < ENTRIES && bounce then ENTRY else 0
  {
  }

  /** The slot of the root directory that an opener is at. */
  function Slot(pos: nat): nat { pos / ENTRY }

  function WithSlot(handles: map<nat, Handle>, d: nat, slot: nat): map<nat, Handle>
    requires d in handles
  {
    handles[d := handles[d].(pos := ENTRY * slot)]
  }

  lemma AtSlot(handles: map<nat, Handle>, d: nat)
    requires MapFile(handles) && d in handles && handles[d].sector == ROOT_DIR_SECTOR
    ensures Slot(handles[d].pos) <= ENTRIES && WithSlot(handles, d, Slot(handles[d].pos)) == handles
  {
    var pos := handles[d].pos;
    assert ENTRY * (pos / ENTRY) == pos;
  }

  lemma SlotBack(handles: map<nat, Handle>, d: nat, slot: nat)
    requires d in handles
    ensures var r := WithSlot(handles, d, slot); d in r && Slot(r[d].pos) == slot
    ensures forall at :: WithSlot(WithSlot(handles, d, slot), d, at) == WithSlot(handles, d, at)
  {
    assert ENTRY * slot / ENTRY == slot;
  }

  lemma RootSlot(fs: Fs, d: nat)
    requires Sound(fs) && d in fs.handles && fs.handles[d] == Handle(ROOT_DIR_SECTOR, false, 0)
    ensures fs.handles == WithSlot(fs.handles, d, 0) && |fs.dir| == ENTRIES
  {
    hide Owned, OpensOk, MapsOk, Consistent;
  }

  lemma MovedSound(fs: Fs, d: nat, slot: nat)
    requires Sound(fs) && MapFile(fs.handles) && d in fs.handles && fs.handles[d].sector == ROOT_DIR_SECTOR
    requires slot <= ENTRIES
    ensures var r := fs.(handles := WithSlot(fs.handles, d, slot)); Sound(r) && MapFile(r.handles)
  {
    hide Sound;
    SeekSound(fs, d, ENTRY * slot);
    assert AtEntry(ENTRY * slot);
  }

  lemma NextStep(dir: seq<Entry>, pos: nat, n: nat)
    ensures var r := Directory.NextName(dir, pos, n);
      && (pos >= |dir| || n == 0 ==> r == (None, pos))
      && (pos < |dir| && n > 0 ==>
            r == if dir[pos].inUse then (Some(dir[pos].name), pos + 1) else Directory.NextName(dir, pos + 1, n - 1))
  {
  }

  function From(i: nat, r: Option<nat>): Option<nat> {
    if r.Some? then Some(i + r.value) else None
  }

  lemma LookupStep(dir: seq<Entry>, name: seq<Byte>, i: nat, n: nat)
    requires i <= |dir| && i <= n
    ensures i == |dir| || i == n ==> Lookup(dir[i..], name, n - i) == None
    ensures i < |dir| && i < n && dir[i].inUse && dir[i].name == name ==> Lookup(dir[i..], name, n - i) == Some(0)
    ensures i < |dir| && i < n && !(dir[i].inUse && dir[i].name == name) ==>
      From(i, Lookup(dir[i..], name, n - i)) == From(i + 1, Lookup(dir[i + 1..], name, n - (i + 1)))
  {
    if i < |dir| {
      assert dir[i..][0] == dir[i] && dir[i..][1..] == dir[i + 1..];
    }
  }

  lemma SlotStep(dir: seq<Entry>, i: nat, n: nat)
    requires i <= |dir| && i <= n
    ensures i == |dir| || i == n || !dir[i].inUse ==> FreeSlot(dir[i..], n - i) == 0
    ensures i < |dir| && i < n && dir[i].inUse ==> FreeSlot(dir[i..], n - i) == 1 + FreeSlot(dir[i + 1..], n - (i + 1))
  {
    if i < |dir| {
      assert dir[i..][0] == dir[i] && dir[i..][1..] == dir[i + 1..];
    }
  }

  lemma WriteKeepsReady(fs: Fs, w: MapWrite)
    requires MapReady(fs)
    ensures MapReady(WriteMap(fs, w))
  {
    hide MapImage, Overwritten;
    MapImageLength(fs.freeMap);
    OverwrittenLength(fs.sectors, 512 * OnDisk(fs.table, FREE_MAP_SECTOR).start,
                      MapImage(fs.freeMap)[..WrittenBytes(w, |MapImage(fs.freeMap)|)]);
  }

  lemma LooseOnDevice(fs: Fs, s: Sec)
    requires Sound(fs) && s in fs.loose
    ensures s < |fs.sectors|
  {
    hide Dev, DirOk, OpensOk;
    DevSize(fs);
  }

  lemma RunFits(fs: Fs, start: nat, cnt: nat)
    requires Sound(fs) && AllAre(fs.freeMap, start, cnt, false)
    ensures start + cnt <= |fs.sectors|
  {
    hide Dev, DirOk, OpensOk, Owned;
    DevSize(fs);
  }

  lemma {:induction false} FirstFound(open: seq<Inode>, s: Sec, i: nat)
    requires i < |open| && open[i].sector == s && forall j | 0 <= j < i :: open[j].sector != s
    ensures FindOpen(open, s) == Some(i)
  {
    FindOpenMeaning(open, s);
  }

  lemma InodeOnDevice(fs: Fs, s: Sec)
    requires Sound(fs) && CanOpen(fs, s)
    ensures s < |fs.sectors| && InodeOn(fs.sectors[s]) == OnDisk(fs.table, s)
  {
    hide Inv, InodeOn, Opens, MapThere, DirThere;
    assert InodeThere(fs.sectors, fs.table, fs.bytes, s);
  }

  /** Without the inode of another sector, the map's is found as before. */
  lemma DropKeepsReady(fs: Fs, s: Sec, handles: map<nat, Handle>)
    requires Sound(fs) && MapReady(fs) && FREE_MAP_SECTOR in Opens(fs.open) && s in Opens(fs.open)
    requires s != FREE_MAP_SECTOR
    ensures MapReady(fs.(open := DropInode(fs.open, s), handles := handles))
  {
    hide Opens, DropInode, FindOpen, Consistent, Owned, DirOk, DistinctSectors, InodeOk;
    DropInodeIs(fs.open, s);
    FoundInode(fs.open, FREE_MAP_SECTOR);
    FoundInode(DropInode(fs.open, s), FREE_MAP_SECTOR);
  }

  /** What a removed inode releases is marked. */
  lemma RemovedMarked(fs: Fs, h: nat)
    requires Sound(fs) && h in fs.handles && IsOpen(fs, h)
    ensures var s := fs.handles[h].sector; var x := Opens(fs.open)[s].data; var m := fs.freeMap;
      AllAre(m, s, 1, true) && AllAre(Mark(m, s, 1, false), x.start, Sectors(x.length), true)
  {
    hide Opens, Consistent, DirOk;
    HandleIsLive(fs, h);
    var s := fs.handles[h].sector;
    var x := Opens(fs.open)[s].data;
    assert Uses(fs.table, s, s);
    forall k | x.start <= k < x.start + Sectors(x.length) ensures k < |fs.freeMap| && fs.freeMap[k] && k != s {
      assert Uses(fs.table, s, k);
    }
  }

  lemma ReleaseMarks(fs: Fs, start: Sec, cnt: nat, w: MapWrite)
    ensures Release(fs, start, cnt, w).freeMap == Mark(fs.freeMap, start, cnt, false)
  {
    hide WriteMap;
    WriteMapTouches(fs.(freeMap := Mark(fs.freeMap, start, cnt, false)), w);
  }

  lemma MapOnDevice(fs: Fs)
    requires Sound(fs)
    ensures |fs.sectors| == |fs.diskMap| && FREE_MAP_SECTOR < |fs.sectors| && FREE_MAP_SECTOR in fs.table
    ensures InodeOn(fs.sectors[FREE_MAP_SECTOR]) == fs.table[FREE_MAP_SECTOR]
    ensures MapThere(fs.sectors, fs.table[FREE_MAP_SECTOR], fs.diskMap)
  {
    hide Inv, InodeOn, MapThere, DirThere;
    assert InodeThere(fs.sectors, fs.table, fs.bytes, FREE_MAP_SECTOR);
  }

  lemma MarkKeepsReady(fs: Fs, start: nat, cnt: nat, value: bool)
    requires MapReady(fs)
    ensures MapReady(fs.(freeMap := Mark(fs.freeMap, start, cnt, value)))
  {
  }

  lemma ScanFits(b: BitMap, m: seq<bool>, cnt: nat)
    requires |m| == b.bitCnt
    ensures Scan(m, 0, cnt, false).Some? ==> Scan(m, 0, cnt, false).value + cnt <= b.bitCnt
  {
    ScanFindsLowest(m, 0, cnt, false);
  }

  /** A write from the start of an extent, or none. */
  lemma MapDeviceAfter(before: seq<Sector>, after: seq<Sector>, x: Extent, data: seq<Byte>)
    requires OnDevice(x, before) && |data| <= x.length
    requires if |data| == 0 then after == before else Written(before, after, 512 * x.start + 0, data)
    ensures after == Overwritten(before, 512 * x.start, data)
  {
    if |data| == 0 {
      NothingOverwritten(before, 512 * x.start, data);
    } else {
      WrittenIsOverwritten(before, after, 512 * x.start, data);
    }
  }

  lemma NothingOverwritten(before: seq<Sector>, at: nat, data: seq<Byte>)
    requires data == []
    ensures Overwritten(before, at, data) == before
  {
    forall k | 0 <= k < |before| ensures Overwritten(before, at, data)[k] == before[k] {
      assert OverwrittenSector(before[k], 512 * k, at, data) == before[k];
    }
  }
}
