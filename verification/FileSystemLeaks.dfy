/** What filesys_create (filesys/filesys.c) leaves behind when it fails: it gives back the inode's
    sector, but not the data's. */
module FileSystemLeaks {
  import opened Bytes
  import opened Options
  import opened Bitmap
  import opened InodeIO
  import opened DiskFormat
  import opened OpenInodes
  import opened FileSystem
  import opened FileSystemDevice
  import opened FileSystemRuns
  import opened FileSystemTheorems

  /** Whether dir_add refuses a name, or cannot write the entry. */
  predicate NoEntry(fs: Fs, name: seq<Byte>, l: Luck) {
    || name == [] || |name| > NAME_MAX || Lookup(fs.dir, name, l.look).Some?
    || FreeSlot(fs.dir, l.slots) == |fs.dir| || !l.entry
  }

  /** Whether inode_create gets as far as giving the inode its data. */
  predicate InodeMadeFor(fs: Fs, size: nat, l: Luck) {
    var a := Scan(fs.freeMap, 0, 1, false);
    && a.Some? && l.maps.0.ok && l.diskInodeMem && l.maps.1.ok
    && Scan(Mark(fs.freeMap, a.value, 1, true), 0, Sectors(size), false).Some?
  }

  lemma AllocateIs(fs: Fs, cnt: nat, w: MapWrite)
    ensures var (r, found) := Allocate(fs, cnt, w);
      && found == (if w.ok then Scan(fs.freeMap, 0, cnt, false) else None)
      && (found.Some? ==> r.freeMap == Mark(fs.freeMap, found.value, cnt, true))
      && r.dir == fs.dir && r.table == fs.table
  {
    hide Scan, WriteMap;
    if Scan(fs.freeMap, 0, cnt, false).Some? {
      WriteMapTouches(fs.(freeMap := Mark(fs.freeMap, Scan(fs.freeMap, 0, cnt, false).value, cnt, true)), w);
    }
  }

  lemma AddFails(fs: Fs, name: seq<Byte>, s: Sec, l: Luck)
    ensures DirAdd(fs, name, s, l).1 <==> !NoEntry(fs, name, l)
  {
  }

  /** Sectors are left without an owner exactly when the file has data, its inode was made, and its
      name cannot be entered. */
  lemma LeakExactly(fs: Fs, name: seq<Byte>, size: nat, l: Luck)
    ensures Leak(fs, name, size, l) != {} <==> size > 0 && InodeMadeFor(fs, size, l) && NoEntry(fs, name, l)
  {
    hide Scan, Allocate, DirAdd, NoEntry, ZeroRun, PutSector, InodeSector, ZeroBytes;
    AllocateIs(fs, 1, l.maps.0);
    var (f1, sector) := Allocate(fs, 1, l.maps.0);
    if sector.Some? && l.diskInodeMem {
      AllocateIs(f1, Sectors(size), l.maps.1);
      var (f2, made) := CreateInode(f1, sector.value, size, true, l.maps.1);
      if made {
        AddFails(f2, name, sector.value, l);
        SameNames(fs, f2, name, l);
        var x := OnDisk(f2.table, sector.value);
        assert size > 0 ==> x.start in Range(x.start, Sectors(x.length));
        assert size == 0 ==> Range(x.start, Sectors(x.length)) == {};
      }
    }
  }

  lemma SameNames(fs: Fs, r: Fs, name: seq<Byte>, l: Luck)
    requires r.dir == fs.dir
    ensures NoEntry(r, name, l) == NoEntry(fs, name, l)
  {
  }

  lemma Opener(fs: Fs, s: Sec) returns (h: nat)
    requires OpensOk(fs) && s in Opens(fs.open)
    ensures h in fs.handles && fs.handles[h].sector == s
  {
    hide Opens;
    assert InodeOk(fs, s, Opens(fs.open)[s]);
    assert On(fs.handles, s) != {};
    h :| h in On(fs.handles, s);
  }

  /** Between calls the root directory is not open. */
  lemma RootIsClosed(fs: Fs)
    requires Ready(fs)
    ensures ROOT_DIR_SECTOR !in Opens(fs.open)
  {
    hide Owned, DirOk, MapsOk, Consistent, Opens, InodeOk;
    if ROOT_DIR_SECTOR in Opens(fs.open) {
      var h := Opener(fs, ROOT_DIR_SECTOR);
      assert false;
    }
  }

  lemma InvOf(fs: Fs)
    requires Sound(fs)
    ensures Inv(fs)
  {
  }

  lemma SameRoom(fs: Fs, r: Fs, size: nat, l: Luck)
    requires r.freeMap == fs.freeMap
    ensures InodeMadeFor(r, size, l) == InodeMadeFor(fs, size, l)
  {
  }

  /** Nothing fails. */
  const LUCKY: Luck := Luck(true, true, true, true, true, ENTRIES, ENTRIES, true, [],
                            (MapWrite(true, 0), MapWrite(true, 0), MapWrite(true, 0)))

  /** With two free sectors, even a call in which nothing fails leaks one: for a file of 512 bytes
      whose name is empty, or is there already. */
  lemma LeakWitness(fs: Fs, name: seq<Byte>, j: nat, k: nat)
    requires j < k < |fs.freeMap| && !fs.freeMap[j] && !fs.freeMap[k] && |fs.dir| == ENTRIES
    requires name == [] || exists i :: 0 <= i < ENTRIES && fs.dir[i].inUse && fs.dir[i].name == name
    ensures Leak(fs, name, 512, LUCKY) != {}
  {
    hide Scan, Leak;
    LeakExactly(fs, name, 512, LUCKY);
    ScanFindsLowest(fs.freeMap, 0, 1, false);
    assert AllAre(fs.freeMap, j, 1, false);
    var a := Scan(fs.freeMap, 0, 1, false).value;
    var m := Mark(fs.freeMap, a, 1, true);
    ScanFindsLowest(m, 0, 1, false);
    assert AllAre(m, if a == j then k else j, 1, false);
    if name != [] {
      LookupFinds(fs.dir, name, ENTRIES);
    }
  }

  lemma {:induction false} LookupFinds(dir: seq<Entry>, name: seq<Byte>, n: nat)
    requires exists i :: 0 <= i < |dir| && i < n && dir[i].inUse && dir[i].name == name
    ensures Lookup(dir, name, n).Some?
  {
    if !(dir[0].inUse && dir[0].name == name) {
      var i :| 0 <= i < |dir| && i < n && dir[i].inUse && dir[i].name == name;
      assert dir[1..][i - 1] == dir[i];
      LookupFinds(dir[1..], name, n - 1);
    }
  }
}
