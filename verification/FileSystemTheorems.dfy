/** Whole runs of the file system: from the formatting of a device on, whatever succeeds or fails,
    and across reboots. */
module FileSystemTheorems {
  import opened Bytes
  import opened Options
  import opened Bitmap
  import opened InodeIO
  import opened DiskFormat
  import opened OpenInodes
  import opened FileSystem
  import opened FileSystemDevice
  import opened FileSystemRuns
  import opened FileSystemFormat

  /** `d`, `h` and `g` name openers that do not exist yet, other `h` those that do. */
  datatype Event =
    | EvCreate(name: seq<Byte>, size: nat, d: nat, l: Luck)
    | EvOpen(name: seq<Byte>, d: nat, h: nat, l: Luck)
    | EvRemove(name: seq<Byte>, d: nat, h: nat, l: Luck)
    | EvClose(h: nat, l: Luck)
    | EvReopen(h: nat, g: nat, l: Luck)
    | EvDenyWrite(h: nat)
    | EvAllowWrite(h: nat)
    | EvWrite(h: nat, data: seq<Byte>, bounce: bool)
    | EvRead(h: nat, size: nat, bounce: bool)
    | EvSeek(h: nat, pos: nat)
    | EvBoot

  /** A file that was opened; the opener of the free map is not to be had outside. */
  predicate IsFile(fs: Fs, h: nat) {
    h in fs.handles && h != FREE_MAP_FILE
  }

  /** Names are strings, and sizes of type off_t. */
  predicate Enabled(fs: Fs, e: Event) {
    match e
    case EvCreate(name, size, d, l) => d !in fs.handles && NoNulls(name) && size < 0x8000_0000
    case EvOpen(name, d, h, l) => d !in fs.handles && h !in fs.handles && d != h
    case EvRemove(name, d, h, l) => d !in fs.handles && h !in fs.handles && d != h
    case EvClose(h, l) => IsFile(fs, h)
    case EvReopen(h, g, l) => IsFile(fs, h) && g !in fs.handles
    case EvDenyWrite(h) => IsFile(fs, h)
    case EvAllowWrite(h) => IsFile(fs, h)
    case EvWrite(h, data, bounce) => IsFile(fs, h)
    case EvRead(h, size, bounce) => IsFile(fs, h)
    case EvSeek(h, pos) => IsFile(fs, h)
    case EvBoot => true
  }

  function Apply(fs: Fs, e: Event): Fs {
    match e
    case EvCreate(name, size, d, l) => Create(fs, name, size, d, l).0
    case EvOpen(name, d, h, l) => Open(fs, name, d, h, l).0
    case EvRemove(name, d, h, l) => Remove(fs, name, d, h, l).0
    case EvClose(h, l) => Close(fs, h, l)
    case EvReopen(h, g, l) => Reopen(fs, h, g, l).0
    case EvDenyWrite(h) => DenyWrite(fs, h)
    case EvAllowWrite(h) => AllowWrite(fs, h)
    case EvWrite(h, data, bounce) => WriteFile(fs, h, data, bounce).0
    case EvRead(h, size, bounce) => ReadFile(fs, h, size, bounce).0
    case EvSeek(h, pos) => Seek(fs, h, pos)
    case EvBoot => Boot(fs)
  }

  predicate Allowed(fs: Fs, es: seq<Event>)
    decreases |es|
  {
    es == [] || (Enabled(fs, es[0]) && Allowed(Apply(fs, es[0]), es[1..]))
  }

  function Run(fs: Fs, es: seq<Event>): Fs
    decreases |es|
  {
    if es == [] then fs else Run(Apply(fs, es[0]), es[1..])
  }

  /** Between calls only files are open, and the free map. */
  ghost predicate Users(handles: map<nat, Handle>) {
    && FREE_MAP_FILE in handles && handles[FREE_MAP_FILE].sector == FREE_MAP_SECTOR
    && forall h | h in handles && h != FREE_MAP_FILE :: handles[h].sector > ROOT_DIR_SECTOR
  }

  ghost predicate Ready(fs: Fs) {
    Sound(fs) && Users(fs.handles)
  }

  // ---- every event ----

  /** What an event does to the file at `s`: it stays as it is, or one write changes it, or it is
      new and all zeros. */
  ghost predicate BytesAfter(fs: Fs, e: Event, r: Fs, s: Sec) {
    && (s in Live(r) && s !in Live(fs) ==>
          e.EvCreate? && s in r.bytes && |r.bytes[s]| == e.size && forall i | 0 <= i < e.size :: r.bytes[s][i] == 0)
    && (s in Live(r) && s in Live(fs) ==>
          && s in r.bytes && s in fs.bytes && |r.bytes[s]| == |fs.bytes[s]|
          && forall i | 0 <= i < |r.bytes[s]| :: r.bytes[s][i] == ByteAfter(fs, e, s, i, fs.bytes[s][i]))
  }

  /** Whether an event writes byte `i` of the file at `s`. */
  predicate Writes(fs: Fs, e: Event, s: Sec, i: nat) {
    && e.EvWrite? && IsOpen(fs, e.h) && fs.handles[e.h].sector == s
    && fs.handles[e.h].pos <= i < fs.handles[e.h].pos + WriteCount(fs, e.h, |e.data|, e.bounce)
  }

  /** The byte after an event, if it was `b` before. */
  function ByteAfter(fs: Fs, e: Event, s: Sec, i: nat, b: Byte): Byte {
    if Writes(fs, e, s, i) then e.data[i - fs.handles[e.h].pos] else b
  }

  lemma {:induction false} ApplyReady(fs: Fs, e: Event)
    requires Ready(fs) && Enabled(fs, e)
    ensures Ready(Apply(fs, e)) && forall s | s > ROOT_DIR_SECTOR :: BytesAfter(fs, e, Apply(fs, e), s)
  {
    hide Sound, Create, Open, Remove, Close, Reopen, DenyWrite, AllowWrite, WriteFile, ReadFile, Seek, Boot, Live,
      BytesAfter;
    match e {
      case EvCreate(name, size, d, l) => {
        CreateSound(fs, name, size, d, l);
        AfterCreate(fs, e, Apply(fs, e), size);
      }
      case EvOpen(name, d, h, l) => {
        OpenSound(fs, name, d, h, l);
        AfterOthers(fs, e, Apply(fs, e));
      }
      case EvRemove(name, d, h, l) => {
        RemoveSound(fs, name, d, h, l);
        AfterOthers(fs, e, Apply(fs, e));
      }
      case EvClose(h, l) => {
        CloseSound(fs, h, l);
        AfterOthers(fs, e, Apply(fs, e));
      }
      case EvReopen(h, g, l) => {
        ReopenSound(fs, h, g, l);
        AfterOthers(fs, e, Apply(fs, e));
      }
      case EvBoot => {
        BootSound(fs);
        BootHandles(fs);
        AfterOthers(fs, e, Apply(fs, e));
      }
      case EvWrite(h, data, bounce) => {
        WriteFileSound(fs, h, data, bounce);
        AfterWrite(fs, h, data, bounce);
      }
      case _ => FileReady(fs, e);
    }
  }

  /** The events that open, close and write nothing. */
  lemma FileReady(fs: Fs, e: Event)
    requires Ready(fs) && Enabled(fs, e)
    requires e.EvDenyWrite? || e.EvAllowWrite? || e.EvRead? || e.EvSeek?
    ensures Ready(Apply(fs, e)) && forall s | s > ROOT_DIR_SECTOR :: BytesAfter(fs, e, Apply(fs, e), s)
  {
    hide Sound, Users, DenyWrite, AllowWrite, ReadFile, Seek, Live, BytesAfter;
    match e {
      case EvDenyWrite(h) => {
        DenyReady(fs, h, true);
        AfterOthers(fs, e, Apply(fs, e));
      }
      case EvAllowWrite(h) => {
        DenyReady(fs, h, false);
        AfterOthers(fs, e, Apply(fs, e));
      }
      case EvRead(h, size, bounce) => {
        ReadReady(fs, h, size, bounce);
        AfterOthers(fs, e, Apply(fs, e));
      }
      case EvSeek(h, pos) => {
        SeekReady(fs, h, pos);
        AfterOthers(fs, e, Apply(fs, e));
      }
    }
  }

  lemma BootHandles(fs: Fs)
    ensures Users(Boot(fs).handles) && Boot(fs).bytes == fs.bytes
  {
  }

  lemma DenyReady(fs: Fs, h: nat, deny: bool)
    requires Ready(fs) && IsFile(fs, h)
    ensures var r := if deny then DenyWrite(fs, h) else AllowWrite(fs, h);
      Ready(r) && r.bytes == fs.bytes && Live(r) == Live(fs)
  {
    hide Sound, DenyWrite, AllowWrite, Live, Opens;
    DenySound(fs, h, deny);
    SameLiveKeys(fs, if deny then DenyWrite(fs, h) else AllowWrite(fs, h));
  }

  lemma SeekReady(fs: Fs, h: nat, pos: nat)
    requires Ready(fs) && IsFile(fs, h)
    ensures var r := Seek(fs, h, pos); Ready(r) && r.bytes == fs.bytes && Live(r) == Live(fs)
  {
    hide Sound, Live;
    SeekSound(fs, h, pos);
  }

  lemma ReadReady(fs: Fs, h: nat, size: nat, bounce: bool)
    requires Ready(fs) && IsFile(fs, h)
    ensures var r := ReadFile(fs, h, size, bounce).0; Ready(r) && r.bytes == fs.bytes && Live(r) == Live(fs)
  {
    hide Sound, Live, Seek, Opens;
    if IsOpen(fs, h) {
      SeekReady(fs, h,
                fs.handles[h].pos + Moved(Opens(fs.open)[fs.handles[h].sector].data, size, fs.handles[h].pos, bounce));
    }
  }

  /** An event that changes no file. */
  lemma AfterOthers(fs: Fs, e: Event, r: Fs)
    requires Sound(fs) && !e.EvWrite? && r.bytes == fs.bytes && Live(r) <= Live(fs)
    ensures forall s | s > ROOT_DIR_SECTOR :: BytesAfter(fs, e, r, s)
  {
    hide Inv, Live, Dev;
    forall s | s > ROOT_DIR_SECTOR && s in Live(fs) ensures s in fs.bytes {
      BytesThere(fs, s);
    }
  }

  lemma AfterCreate(fs: Fs, e: Event, r: Fs, size: nat)
    requires Sound(fs) && e.EvCreate? && e.size == size
    requires forall s | s in Live(fs) && s in Live(r) :: FileSame(fs, r, s)
    requires forall s | s in Live(r) && s !in Live(fs) :: s in r.bytes && r.bytes[s] == ZeroBytes(size)
    ensures forall s | s > ROOT_DIR_SECTOR :: BytesAfter(fs, e, r, s)
  {
    hide Inv, Live, Dev;
    forall s | s > ROOT_DIR_SECTOR && s in Live(fs) ensures s in fs.bytes {
      BytesThere(fs, s);
    }
  }

  lemma AfterWrite(fs: Fs, h: nat, data: seq<Byte>, bounce: bool)
    requires Ready(fs) && IsFile(fs, h)
    ensures var e := EvWrite(h, data, bounce); forall s | s > ROOT_DIR_SECTOR :: BytesAfter(fs, e, Apply(fs, e), s)
  {
    hide Sound, Live, WriteFile, Opens, WriteCount;
    var e := EvWrite(h, data, bounce);
    WriteFileSound(fs, h, data, bounce);
    HandleOpen(fs, h);
    forall s | s > ROOT_DIR_SECTOR && s in Live(fs) ensures s in fs.bytes {
      LiveBytes(fs, s);
    }
  }

  lemma LiveBytes(fs: Fs, s: Sec)
    requires Sound(fs) && s in Live(fs) && s > ROOT_DIR_SECTOR
    ensures s in fs.bytes && s in fs.table && |fs.bytes[s]| == fs.table[s].length
    ensures OnDevice(fs.table[s], fs.sectors) && fs.bytes[s] == FileBytes(fs.sectors, fs.table[s])
  {
    hide Inv, Dev;
    BytesThere(fs, s);
  }

  lemma {:induction false} RunReady(fs: Fs, es: seq<Event>)
    requires Ready(fs) && Allowed(fs, es)
    ensures Ready(Run(fs, es))
    decreases |es|
  {
    hide Ready, Enabled, Apply;
    if es != [] {
      ApplyReady(fs, es[0]);
      RunReady(Apply(fs, es[0]), es[1..]);
    }
  }

  // ---- runs from a format on ----

  /** A run of the file system on a device that was formatted when it held `device`. */
  ghost predicate Reached(device: seq<Sector>, es: seq<Event>, fs: Fs) {
    && 2 <= |device| < 0x1_0000_0000 && Format(device).Some?
    && Allowed(Format(device).value, es) && fs == Run(Format(device).value, es)
  }

  lemma ReachedReady(device: seq<Sector>, es: seq<Event>, fs: Fs)
    requires Reached(device, es, fs)
    ensures Ready(fs)
  {
    hide Format, Run, Allowed, Sound, Live;
    FormatSound(device);
    RunReady(Format(device).value, es);
  }

  /** The two inodes the file system keeps for itself, every inode in the directory or open, and
      the data of each, share no sector and are all marked used, in memory and on disk; a marked
      sector with no such owner is either accounted for as leaked, or used by an inode that was lost
      and is not open. */
  lemma NoTwoOwners(device: seq<Sector>, es: seq<Event>, fs: Fs)
    requires Reached(device, es, fs)
    ensures forall s: Sec, t: Sec, k: Sec | s in Live(fs) && t in Live(fs) && Uses(fs.table, s, k)
        && Uses(fs.table, t, k) ::
      s == t
    ensures forall s: Sec, k: Sec | s in Live(fs) && Uses(fs.table, s, k) ::
      k < |fs.freeMap| == |fs.diskMap| && fs.freeMap[k] && fs.diskMap[k] && k !in fs.loose
    ensures forall k: Sec | k < |fs.freeMap| && fs.freeMap[k] ::
        (forall s | s in Owners(fs) :: !Uses(fs.table, s, k))
        <==> k in fs.loose || exists s :: s in fs.lost && s !in Opens(fs.open) && Uses(fs.table, s, k)
  {
    hide DirOk, OpensOk, Reached, Consistent, Live, Owners;
    ReachedReady(device, es, fs);
    InvParts(fs);
    forall k: Sec | k < |fs.freeMap| && fs.freeMap[k]
      ensures (forall s | s in Owners(fs) :: !Uses(fs.table, s, k))
              <==> k in fs.loose || exists s :: s in fs.lost && s !in Opens(fs.open) && Uses(fs.table, s, k)
    {
      Unowned(fs, k);
    }
  }

  /** A marked sector that no inode in the directory or open uses. */
  lemma Unowned(fs: Fs, k: Sec)
    requires Inv(fs) && k < |fs.freeMap| && fs.freeMap[k]
    ensures (forall s | s in Owners(fs) :: !Uses(fs.table, s, k))
            <==> k in fs.loose || exists s :: s in fs.lost && s !in Opens(fs.open) && Uses(fs.table, s, k)
  {
    hide OpensOk, MapsOk, Opens, Uses, DirSectors;
    forall s | s in fs.lost ensures s !in DirSectors(fs.dir) {
      NotInDir(fs.dir, fs.lost, s);
    }
    assert forall s :: s in Live(fs) <==> s in Owners(fs) || (s in fs.lost && s !in Opens(fs.open));
    assert forall s | s in fs.lost && s !in Opens(fs.open) :: s !in Owners(fs);
  }

  lemma NotInDir(dir: seq<Entry>, lost: set<Sec>, s: Sec)
    requires DirOk(dir, lost) && s in lost
    ensures s !in DirSectors(dir)
  {
  }

  /** All of this is on the device: each inode in its sector, the root directory's entries and the
      free map in the data of theirs. */
  lemma DeviceHolds(device: seq<Sector>, es: seq<Event>, fs: Fs)
    requires Reached(device, es, fs)
    ensures |fs.sectors| == |fs.freeMap|
    ensures forall s | s in Live(fs) :: s in fs.table && s < |fs.sectors| && InodeOn(fs.sectors[s]) == fs.table[s]
    ensures FREE_MAP_SECTOR in fs.table && ROOT_DIR_SECTOR in fs.table
    ensures DirThere(fs.sectors, fs.table[ROOT_DIR_SECTOR], fs.dir)
    ensures MapThere(fs.sectors, fs.table[FREE_MAP_SECTOR], fs.diskMap)
  {
    hide DirOk, OpensOk, Reached, Live, Owned, DirThere, MapThere, InodeOn, FileBytes;
    ReachedReady(device, es, fs);
    FreeMapOnDisk(fs, Live(fs));
    forall s | s in Live(fs) ensures s in fs.table && s < |fs.sectors| && InodeOn(fs.sectors[s]) == fs.table[s] {
      assert InodeThere(fs.sectors, fs.table, fs.bytes, s);
    }
  }

  /** The list of open inodes has at most one for a sector; its counts are those of its openers and
      of the openers that deny writes to it. */
  lemma CountsAreOpeners(device: seq<Sector>, es: seq<Event>, fs: Fs)
    requires Reached(device, es, fs)
    ensures forall j, k | 0 <= j < k < |fs.open| :: fs.open[j].sector != fs.open[k].sector
    ensures forall j | 0 <= j < |fs.open| :: var i := fs.open[j];
      && i.openCnt == |On(fs.handles, i.sector)| > 0 && i.denyWriteCnt == |Denying(fs.handles, i.sector)| <= i.openCnt
      && i.data == OnDisk(fs.table, i.sector)
    ensures forall h | h in fs.handles :: fs.handles[h].sector in OpenSectors(fs.open)
  {
    hide DirOk, MapsOk, Owned, Reached, On, Denying, Opens, Live, Consistent;
    ReachedReady(device, es, fs);
    OpensKeys(fs.open);
    forall j | 0 <= j < |fs.open|
      ensures var i := fs.open[j];
        && i.openCnt == |On(fs.handles, i.sector)| > 0
        && i.denyWriteCnt == |Denying(fs.handles, i.sector)| <= i.openCnt && i.data == OnDisk(fs.table, i.sector)
    {
      FoundIs(fs.open, j);
      assert InodeOk(fs, fs.open[j].sector, Opens(fs.open)[fs.open[j].sector]);
      DenyingOn(fs.handles, fs.open[j].sector);
    }
  }

  lemma DenyingOn(handles: map<nat, Handle>, s: Sec)
    ensures |Denying(handles, s)| <= |On(handles, s)|
  {
    SubsetSize(Denying(handles, s), On(handles, s));
  }

  lemma {:induction false} SubsetSize(a: set<nat>, b: set<nat>)
    requires a <= b
    ensures |a| <= |b|
  {
    if x :| x in a {
      SubsetSize(a - {x}, b - {x});
    }
  }

  // ---- what files hold ----

  /** What byte `i` of the file at `s` should be after a run, if it was `b` before: what the last
      write to it put there, or zero if there was none since the file was created. */
  function LastByte(fs: Fs, es: seq<Event>, s: Sec, i: nat, b: Byte): Byte
    decreases |es|
  {
    if es == [] then b
    else LastByte(Apply(fs, es[0]), es[1..], s, i, if s in Live(fs) then ByteAfter(fs, es[0], s, i, b) else 0)
  }

  lemma {:induction false} FlatRun(fs: Fs, es: seq<Event>, s: Sec, i: nat, b: Byte)
    requires Ready(fs) && Allowed(fs, es) && s > ROOT_DIR_SECTOR
    requires s in Live(fs) ==> s in fs.bytes && (i < |fs.bytes[s]| ==> fs.bytes[s][i] == b)
    ensures var r := Run(fs, es);
      s in Live(r) ==> s in r.bytes && (i < |r.bytes[s]| ==> r.bytes[s][i] == LastByte(fs, es, s, i, b))
    decreases |es|
  {
    hide Ready, Enabled, Apply, ByteAfter, Live;
    if es != [] {
      ApplyReady(fs, es[0]);
      var r := Apply(fs, es[0]);
      assert BytesAfter(fs, es[0], r, s);
      FlatRun(r, es[1..], s, i, if s in Live(fs) then ByteAfter(fs, es[0], s, i, b) else 0);
    }
  }

  /** The size that the file at `s` was created with. */
  function LastSize(fs: Fs, es: seq<Event>, s: Sec, n: nat): nat
    decreases |es|
  {
    if es == [] then n
    else LastSize(Apply(fs, es[0]), es[1..], s, if s !in Live(fs) && es[0].EvCreate? then es[0].size else n)
  }

  lemma {:induction false} SizeRun(fs: Fs, es: seq<Event>, s: Sec, n: nat)
    requires Ready(fs) && Allowed(fs, es) && s > ROOT_DIR_SECTOR
    requires s in Live(fs) ==> s in fs.bytes && |fs.bytes[s]| == n
    ensures var r := Run(fs, es); s in Live(r) ==> s in r.bytes && |r.bytes[s]| == LastSize(fs, es, s, n)
    decreases |es|
  {
    hide Ready, Enabled, Apply, ByteAfter, Live;
    if es != [] {
      ApplyReady(fs, es[0]);
      var r := Apply(fs, es[0]);
      assert BytesAfter(fs, es[0], r, s);
      SizeRun(r, es[1..], s, if s !in Live(fs) && es[0].EvCreate? then es[0].size else n);
    }
  }

  /** In every run each byte of a live file, read from the device, is what the last write to it put
      there, and zero if there was none since the file was created, whatever other files were
      created, written, removed or closed meanwhile. */
  lemma FilesKeepBytes(device: seq<Sector>, es: seq<Event>, fs: Fs, s: Sec, i: nat)
    requires Reached(device, es, fs) && s in Live(fs) && s > ROOT_DIR_SECTOR
    ensures s in fs.table && OnDevice(fs.table[s], fs.sectors)
    ensures fs.table[s].length == LastSize(Format(device).value, es, s, 0)
    ensures i < fs.table[s].length
            ==> FileBytes(fs.sectors, fs.table[s])[i] == LastByte(Format(device).value, es, s, i, 0)
  {
    hide Format, Run, Allowed, Sound, LastByte, LastSize, Live;
    ReachedReady(device, es, fs);
    FormatSound(device);
    FlatRun(Format(device).value, es, s, i, 0);
    SizeRun(Format(device).value, es, s, 0);
    LiveBytes(fs, s);
  }

  /** A write by an opener touches no sector but those of its own file's data. */
  lemma WriteTouches(device: seq<Sector>, es: seq<Event>, fs: Fs, h: nat, data: seq<Byte>, bounce: bool)
    requires Reached(device, es, fs) && IsFile(fs, h)
    ensures Unchanged(fs.sectors, WriteFile(fs, h, data, bounce).0.sectors, DataOf(fs.table, fs.handles[h].sector))
  {
    hide Reached, Inv, Live, Opens, Overwritten, WriteCount, Dev;
    ReachedReady(device, es, fs);
    HandleIsLive(fs, h);
    BytesThere(fs, fs.handles[h].sector);
    CountFits(fs, h, |data|, bounce);
    var n := WriteCount(fs, h, |data|, bounce);
    if n > 0 {
      OverwrittenData(fs.sectors, fs.table[fs.handles[h].sector], fs.handles[h].pos, data[..n]);
    }
  }

  /** dir_remove does not take away the sectors of a file that is still open; the close of its last
      opener does, and no other close. */
  lemma ReleasedAtLastClose(fs: Fs, h: nat, l: Luck, k: Sec)
    requires Ready(fs) && IsFile(fs, h) && k < |fs.freeMap|
    ensures var s := fs.handles[h].sector; var r := Close(fs, h, l);
      && s in Opens(fs.open) && |r.freeMap| == |fs.freeMap|
      && (r.freeMap[k] != fs.freeMap[k]
          <==> Opens(fs.open)[s].removed && On(fs.handles, s) == {h} && Uses(fs.table, s, k))
      && (Opens(fs.open)[s].removed && On(fs.handles, s) == {h} ==> s !in Live(r))
  {
    hide AllowWrite, CloseInode, On, Denying, Opens, Consistent, Owned, Inv;
    HandleOpen(fs, h);
    DenySound(fs, h, false);
    var s, f := fs.handles[h].sector, AllowWrite(fs, h);
    AllowSame(fs, h);
    CloseInodeSound(f, h, l.maps.0, l.maps.1);
    RemovedLeaves(f, h);
    InvParts(f);
    UsedMarked(f.freeMap, f.table, Live(f), f.loose, s, k);
  }

  lemma UsedMarked(m: seq<bool>, table: map<Sec, Extent>, live: set<Sec>, loose: set<Sec>, s: Sec, k: Sec)
    requires Owned(m, table, live, loose) && s in live
    ensures Uses(table, s, k) ==> k < |m| && m[k]
  {
  }

  lemma RemovedLeaves(fs: Fs, h: nat)
    requires Inv(fs) && IsOpen(fs, h)
    ensures var s := fs.handles[h].sector;
      s in Live(fs) && (Opens(fs.open)[s].removed ==> s !in fs.lost && s !in DirSectors(fs.dir) && s > ROOT_DIR_SECTOR)
  {
    hide Opens, Owned;
    assert InodeOk(fs, fs.handles[h].sector, Opens(fs.open)[fs.handles[h].sector]);
  }

  lemma AllowSame(fs: Fs, h: nat)
    requires Inv(fs) && IsOpen(fs, h)
    ensures On(AllowWrite(fs, h).handles, fs.handles[h].sector) == On(fs.handles, fs.handles[h].sector)
  {
    hide Inv, Opens;
    if fs.handles[h].denyWrite {
      HandleDenies(fs.handles, h, false);
    }
  }
}
