/** What formatting a device leaves on it (filesys/filesys.c, filesys/free-map.c). */
module FileSystemFormat {
  import opened Bytes
  import opened Options
  import opened Bitmap
  import opened InodeIO
  import opened DiskFormat
  import opened OpenInodes
  import opened FileSystem
  import opened FileSystemDevice
  import opened FileSystemRuns

  /** The bitmap that free_map_init makes. */
  function FirstMap(size: nat): (m: seq<bool>)
    ensures |m| == size
  {
    seq(size, k => k == FREE_MAP_SECTOR || k == ROOT_DIR_SECTOR)
  }

  /** free_map_create, and the writing of the map when the root directory's sector is allocated */
  function MapFormatted(device: seq<Sector>, x: Extent, m1: seq<bool>, m2: seq<bool>): seq<Sector> {
    var made := ZeroRun(PutSector(device, FREE_MAP_SECTOR, InodeSector(x)), x.start, Sectors(x.length));
    Overwritten(Overwritten(made, 512 * x.start, MapImage(m1)), 512 * x.start, MapImage(m2))
  }

  /** dir_create */
  function DirFormatted(sectors: seq<Sector>, y: Extent): seq<Sector> {
    ZeroRun(PutSector(sectors, ROOT_DIR_SECTOR, InodeSector(y)), y.start, Sectors(y.length))
  }

  const ROOT_DIR_BYTES: nat := ENTRY * ENTRIES

  function MapExtent(size: nat, a: nat): Extent { Extent(a, MapBytes(size)) }

  function DirExtent(b: nat): Extent { Extent(b, ROOT_DIR_BYTES) }

  function MapWithMap(size: nat, a: nat): (m: seq<bool>)
    ensures |m| == size
  {
    Mark(FirstMap(size), a, Sectors(MapBytes(size)), true)
  }

  function MapWithDir(size: nat, a: nat, b: nat): (m: seq<bool>)
    ensures |m| == size
  {
    Mark(MapWithMap(size, a), b, Sectors(ROOT_DIR_BYTES), true)
  }

  /** filesys_init with `format`, on a device that holds anything, when the two inodes the file
      system keeps for itself get their data at `a` and `b`. */
  function Formatted(device: seq<Sector>, a: nat, b: nat): Fs {
    var size := |device|;
    var m2 := MapWithDir(size, a, b);
    var x, y := MapExtent(size, a), DirExtent(b);
    Fs(m2, m2, map[FREE_MAP_SECTOR := x, ROOT_DIR_SECTOR := y], seq(ENTRIES, i => UNUSED),
       [Inode(FREE_MAP_SECTOR, 1, false, 0, x)], map[FREE_MAP_FILE := Handle(FREE_MAP_SECTOR, false, 0)],
       DirFormatted(MapFormatted(device, x, MapWithMap(size, a), m2), y), map[], {}, {})
  }

  /** And its search for them; it panics if there is no room. */
  function Format(device: seq<Sector>): Option<Fs> {
    var a := Scan(FirstMap(|device|), 0, Sectors(MapBytes(|device|)), false);
    if a.None? then None
    else
      var b := Scan(MapWithMap(|device|, a.value), 0, Sectors(ROOT_DIR_BYTES), false);
      if b.None? then None else Some(Formatted(device, a.value, b.value))
  }

  /** Where the free map and the root directory go. */
  lemma FormatPlaces(device: seq<Sector>) returns (a: nat, b: nat)
    requires |device| >= 2 && Format(device).Some?
    ensures Format(device).value == Formatted(device, a, b)
    ensures AllAre(FirstMap(|device|), a, Sectors(MapBytes(|device|)), false)
    ensures AllAre(MapWithMap(|device|, a), b, 1, false)
  {
    hide Formatted;
    var size := |device|;
    ScanFindsLowest(FirstMap(size), 0, Sectors(MapBytes(size)), false);
    a := Scan(FirstMap(size), 0, Sectors(MapBytes(size)), false).value;
    ScanFindsLowest(MapWithMap(size, a), 0, 1, false);
    b := Scan(MapWithMap(size, a), 0, 1, false).value;
  }

  /** A device can be formatted exactly if it has a sector for each of the two inodes, the sectors of
      the free map, and one for the root directory. */
  lemma FormatNeeds(device: seq<Sector>)
    ensures Format(device).Some? <==> |device| >= 3 + Sectors(MapBytes(|device|))
  {
    hide Formatted, Scan;
    var size, cnt := |device|, Sectors(MapBytes(|device|));
    assert Sectors(ROOT_DIR_BYTES) == 1 && (size > 0 ==> cnt > 0);
    FirstRun(FirstMap(size), 2, cnt);
    if size == 0 {
      FirstRun(MapWithMap(0, 0), 0, 1);
      NoSectors();
    } else if size >= 2 + cnt {
      FirstRun(MapWithMap(size, 2), 2 + cnt, 1);
    }
  }

  lemma NoSectors()
    ensures Scan(FirstMap(0), 0, Sectors(MapBytes(0)), false) == Some(0)
  {
  }

  /** Where everything below `a` is marked and nothing above it. */
  lemma FirstRun(m: seq<bool>, a: nat, cnt: nat)
    requires forall k | 0 <= k < |m| :: m[k] <==> k < a
    ensures var r := Scan(m, 0, cnt, false); cnt > 0 ==> r == if a + cnt <= |m| then Some(a) else None
  {
    hide Scan;
    ScanFindsLowest(m, 0, cnt, false);
    var r := Scan(m, 0, cnt, false);
    if cnt > 0 {
      if a + cnt <= |m| {
        assert AllAre(m, a, cnt, false);
      }
      if r.Some? {
        assert AllAre(m, r.value, cnt, false) && !m[r.value];
      }
    }
  }

  lemma FormattedInv(device: seq<Sector>, a: nat, b: nat)
    requires |device| >= 2
    requires AllAre(FirstMap(|device|), a, Sectors(MapBytes(|device|)), false)
    requires AllAre(MapWithMap(|device|, a), b, 1, false)
    ensures Inv(Formatted(device, a, b)) && Live(Formatted(device, a, b)) == {FREE_MAP_SECTOR, ROOT_DIR_SECTOR}
  {
    hide Opens, Owned, OpensOk, MapFormatted, DirFormatted, MapWithDir, MapWithMap, MapExtent, DirExtent;
    FormatOwned(|device|, a, b);
    FormatOpens(device, a, b);
    BootList(MapExtent(|device|, a));
    assert Live(Formatted(device, a, b)) == {FREE_MAP_SECTOR, ROOT_DIR_SECTOR};
  }

  lemma FormatOwned(size: nat, a: nat, b: nat)
    requires size >= 2 && AllAre(FirstMap(size), a, Sectors(MapBytes(size)), false)
    requires AllAre(MapWithMap(size, a), b, 1, false)
    ensures Owned(MapWithDir(size, a, b), map[FREE_MAP_SECTOR := MapExtent(size, a), ROOT_DIR_SECTOR := DirExtent(b)],
                  {FREE_MAP_SECTOR, ROOT_DIR_SECTOR}, {})
    ensures var cnt := Sectors(MapBytes(size)); a > 1 && 1 < b < size && a + cnt <= size && !(a <= b < a + cnt)
  {
    var m0, cnt := FirstMap(size), Sectors(MapBytes(size));
    var m := MapWithDir(size, a, b);
    var table := map[FREE_MAP_SECTOR := MapExtent(size, a), ROOT_DIR_SECTOR := DirExtent(b)];
    assert cnt > 0 && m0[0] && m0[1];
    assert !MapWithMap(size, a)[b];
    assert a > 1 && b > 1 && !InRun(table[0], b);
    forall k: Sec | k < |m| && m[k] ensures exists s :: s in {FREE_MAP_SECTOR, ROOT_DIR_SECTOR} && Uses(table, s, k) {
      assert Uses(table, FREE_MAP_SECTOR, k) || Uses(table, ROOT_DIR_SECTOR, k);
    }
  }

  lemma FormatOpens(device: seq<Sector>, a: nat, b: nat)
    ensures var r := Formatted(device, a, b);
      OpensOk(r) && MapsOk(r.freeMap, r.diskMap) && DirOk(r.dir, r.lost) && DirSectors(r.dir) == {}
  {
    hide Opens, MapFormatted, DirFormatted, DistinctSectors, MapWithDir, MapExtent, DirExtent;
    var r := Formatted(device, a, b);
    BootList(MapExtent(|device|, a));
    assert On(r.handles, FREE_MAP_SECTOR) == {FREE_MAP_FILE};
    assert Denying(r.handles, FREE_MAP_SECTOR) == {};
  }

  // ---- on the device ----

  /** The inode and the image of the map. */
  lemma MapMade(device: seq<Sector>, x: Extent, m1: seq<bool>, m2: seq<bool>)
    requires 2 <= |device| < 0x1_0000_0000 && |m1| == |m2| == |device| && x.start > 1
    requires x.length == MapBytes(|device|) && x.start + Sectors(x.length) <= |device|
    ensures var r := MapFormatted(device, x, m1, m2);
      |r| == |device| && InodeOn(r[FREE_MAP_SECTOR]) == x && MapThere(r, x, m2)
  {
    hide InodeOn, InodeSector, FileBytes, Overwritten, MapImage, BitOn, ZeroRun, PutSector;
    var made := ZeroRun(PutSector(device, FREE_MAP_SECTOR, InodeSector(x)), x.start, Sectors(x.length));
    MapSmall(|device|);
    InodeRoundTrip(x);
    MadeSectors(device, FREE_MAP_SECTOR, InodeSector(x), x.start, Sectors(x.length));
    RunOnDevice(made, x);
    MapImageLength(m1);
    MapImageLength(m2);
    OverwrittenData(made, x, 0, MapImage(m1));
    var once := Overwritten(made, 512 * x.start, MapImage(m1));
    FileBytesLength(once, x);
    OverwrittenData(once, x, 0, MapImage(m2));
    var f := FileBytes(once, x);
    assert f[..0] + MapImage(m2) + f[0 + |MapImage(m2)|..] == MapImage(m2);
    forall k | 0 <= k < |m2| ensures k / 8 < x.length && BitOn(MapImage(m2), k) == m2[k] {
      MapRoundTrip(m2, k);
    }
  }

  lemma MapSmall(size: nat)
    requires size < 0x1_0000_0000
    ensures MapBytes(size) < 0x1_0000_0000
  {
  }

  lemma MadeSectors(sectors: seq<Sector>, s: Sec, i: Sector, start: nat, cnt: nat)
    requires s < |sectors|
    ensures var r := ZeroRun(PutSector(sectors, s, i), start, cnt);
      && |r| == |sectors|
      && forall k | 0 <= k < |r| :: r[k] == if start <= k < start + cnt then ZEROS else if k == s then i else sectors[k]
  {
  }

  lemma RunOnDevice(sectors: seq<Sector>, x: Extent)
    requires x.start + Sectors(x.length) <= |sectors|
    ensures OnDevice(x, sectors)
  {
  }

  /** The inode, and entries that are all unused. */
  lemma DirMade(before: seq<Sector>, b: nat)
    requires 2 <= |before| < 0x1_0000_0000 && 1 < b < |before|
    ensures var y := DirExtent(b); var r := DirFormatted(before, y);
      && |r| == |before| && InodeOn(r[ROOT_DIR_SECTOR]) == y && DirThere(r, y, seq(ENTRIES, i => UNUSED))
      && Unchanged(before, r, {ROOT_DIR_SECTOR, b})
  {
    hide InodeOn, InodeSector, FileBytes, EntryOn, ZeroRun, PutSector;
    var y := DirExtent(b);
    var r := DirFormatted(before, y);
    InodeRoundTrip(y);
    MadeSectors(before, ROOT_DIR_SECTOR, InodeSector(y), b, Sectors(y.length));
    ZerosThere(r, y);
    FileBytesLength(r, y);
    forall i | 0 <= i < ENTRIES ensures EntryOn(SlotBytes(r, y, i)) == UNUSED {
      ZeroEntry(SlotBytes(r, y, i));
    }
  }

  /** Whatever was on the device before, a freshly formatted one satisfies the invariant, and holds
      what it should. */
  lemma FormatSound(device: seq<Sector>)
    requires 2 <= |device| < 0x1_0000_0000 && Format(device).Some?
    ensures Sound(Format(device).value) && Live(Format(device).value) == {FREE_MAP_SECTOR, ROOT_DIR_SECTOR}
    ensures Format(device).value.handles == map[FREE_MAP_FILE := Handle(FREE_MAP_SECTOR, false, 0)]
  {
    hide Format, Inv, Live, MapFormatted, DirFormatted, InodeOn, FileBytes, DirThere, MapThere, MapWithDir, AllAre;
    var a, b := FormatPlaces(device);
    FormattedInv(device, a, b);
    var fs, x, y := Formatted(device, a, b), MapExtent(|device|, a), DirExtent(b);
    FormatOwned(|device|, a, b);
    var m1, m2 := MapWithMap(|device|, a), MapWithDir(|device|, a, b);
    MapMade(device, x, m1, m2);
    var written := MapFormatted(device, x, m1, m2);
    DirMade(written, b);
    MapKept(written, fs.sectors, {ROOT_DIR_SECTOR, b}, x, m2);
    RunOnDevice(fs.sectors, x);
    RunOnDevice(fs.sectors, y);
    SmallThere(fs.sectors, fs.table, fs.bytes, FREE_MAP_SECTOR);
    SmallThere(fs.sectors, fs.table, fs.bytes, ROOT_DIR_SECTOR);
  }
}
