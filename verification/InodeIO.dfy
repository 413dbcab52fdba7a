/** inode_read_at and inode_write_at (filesys/inode.c): chunked sector transfers that behave as
    reads and writes of one flat array of bytes. */
module InodeIO {
  import opened Bytes
  import opened Nonlinear

  /** The contents of one sector. */
  type Sector = s: seq<Byte> | |s| == 512 witness seq(512, i => 0)

  /** Byte `a` of the device, counting from its first sector. */
  function DiskByte(disk: seq<Sector>, a: nat): Byte
    requires a < 512 * |disk|
  {
    disk[a / 512][a % 512]
  }

  /** The device: an array of sectors. */
  class Block {
    const sectors: array<Sector>

    constructor (sectors: array<Sector>)
      ensures this.sectors == sectors
    {
      this.sectors := sectors;
    }

    ghost function Contents(): seq<Sector>
      reads sectors
    {
      sectors[..]
    }
  }

  /** What inode.c keeps of an open inode that reads and writes use. */
  datatype Extent = Extent(start: nat, length: nat)

  ghost predicate OnDevice(x: Extent, disk: seq<Sector>) {
    512 * x.start + x.length <= 512 * |disk|
  }

  function Max(a: int, b: int): int { if a < b then b else a }

  /** Bytes moved by a transfer: all that the file has, or, if no bounce buffer can be had, the
      whole sectors before the first part of a sector. */
  function Moved(x: Extent, size: int, offset: nat, bounce: bool): nat {
    var all := Max(0, Min(size, x.length - offset));
    if bounce then all
    else if offset % 512 != 0 then 0
    else all - all % 512
  }

  /** What is moved: all that is asked for and that the file has; or, when no bounce buffer can be had,
      the whole sectors of that, and none if the first is not whole. */
  lemma MovedIs(x: Extent, size: int, offset: nat, bounce: bool)
    ensures var n := Moved(x, size, offset, bounce);
      && n <= (if size < 0 then 0 else size) && (offset < x.length ==> offset + n <= x.length)
      && (offset >= x.length ==> n == 0)
      && (bounce ==> n == size || offset + n == x.length || n == 0)
      && (bounce && size > 0 && offset < x.length ==> n > 0)
      && (!bounce ==> n % 512 == 0 && (n > 0 ==> offset % 512 == 0)
                      && (offset % 512 == 0 ==> Moved(x, size, offset, true) - n < 512))
  {
  }

  lemma MovedInside(x: Extent, size: int, offset: nat, bounce: bool)
    ensures Moved(x, size, offset, bounce) <= Max(0, size)
    ensures Moved(x, size, offset, bounce) > 0 ==> offset + Moved(x, size, offset, bounce) <= x.length
  {
  }

  /** The chunk that starts at `offset` and is part of at most one sector. */
  function Chunk(x: Extent, size: int, offset: nat): int {
    Min(size, Min(x.length - offset, 512 - offset % 512))
  }

  lemma MovedStep(x: Extent, size: int, offset: nat, bounce: bool)
    requires Chunk(x, size, offset) > 0
    requires bounce || (offset % 512 == 0 && Chunk(x, size, offset) == 512)
    ensures Moved(x, size, offset, bounce)
            == Chunk(x, size, offset) + Moved(x, size - Chunk(x, size, offset), offset + Chunk(x, size, offset), bounce)
  {
  }

  lemma MovedEnd(x: Extent, size: int, offset: nat, bounce: bool)
    requires size <= 0 || Chunk(x, size, offset) <= 0
             || (!bounce && (offset % 512 != 0 || Chunk(x, size, offset) != 512))
    ensures Moved(x, size, offset, bounce) == 0
  {
  }

  /** `to[at..]` holds the file's bytes from `offset` on, `n` of them. */
  ghost predicate Copied(disk: seq<Sector>, x: Extent, offset: nat, to: seq<Byte>, n: nat) {
    && 512 * x.start + offset + n <= 512 * |disk| && n <= |to|
    && forall i | 0 <= i < n :: to[i] == DiskByte(disk, 512 * x.start + offset + i)
  }

  lemma CopiedMore(disk: seq<Sector>, x: Extent, offset: nat, to: seq<Byte>, n: nat, to': seq<Byte>, chunk: nat)
    requires Copied(disk, x, offset, to, n) && n + chunk <= |to| == |to'|
    requires (offset + n) % 512 + chunk <= 512 && 512 * x.start + offset + n + chunk <= 512 * |disk|
    requires to'[..n] == to[..n]
    requires var o := (offset + n) % 512; var s := x.start + (offset + n) / 512;
      s < |disk| && to'[n..n + chunk] == disk[s][o..o + chunk]
    ensures Copied(disk, x, offset, to', n + chunk)
  {
    var o, s := (offset + n) % 512, x.start + (offset + n) / 512;
    forall i | 0 <= i < n + chunk ensures to'[i] == DiskByte(disk, 512 * x.start + offset + i) {
      if i < n {
        assert to'[i] == to'[..n][i] == to[..n][i];
      } else {
        assert to'[i] == to'[n..n + chunk][i - n] == disk[s][o..o + chunk][i - n];
        var a := 512 * x.start + offset + i;
        assert a == 512 * s + (o + (i - n));
        assert a / 512 == s && a % 512 == o + (i - n);
      }
    }
  }

  lemma StartCopied(disk: seq<Sector>, x: Extent, offset: nat, to: seq<Byte>)
    requires 512 * x.start + offset <= 512 * |disk|
    ensures Copied(disk, x, offset, to, 0)
  {
  }

  /** Where a chunk that exists lies. */
  lemma ChunkFits(x: Extent, size: int, offset: nat, disk: seq<Sector>)
    requires OnDevice(x, disk) && Chunk(x, size, offset) > 0
    ensures Chunk(x, size, offset) <= size && offset % 512 + Chunk(x, size, offset) <= 512
    ensures offset + Chunk(x, size, offset) <= x.length && x.start + offset / 512 < |disk|
    ensures 512 * x.start + offset + Chunk(x, size, offset) <= 512 * |disk|
  {
  }

  /** block_read into a buffer, and memcpy of part of the sector. */
  method CopyOut(dev: Block, sector: nat, from: nat, buffer: array<Byte>, to: nat, n: nat)
    requires sector < dev.sectors.Length && from + n <= 512 && to + n <= buffer.Length
    modifies buffer
    ensures buffer[..to] == old(buffer[..to]) && buffer[to + n..] == old(buffer[to + n..])
    ensures buffer[to..to + n] == dev.Contents()[sector][from..from + n]
    ensures dev.Contents() == old(dev.Contents())
  {
    var bounce := dev.sectors[sector];
    forall i | 0 <= i < n {
      buffer[to + i] := bounce[from + i];
    }
  }

  method ReadChunk(dev: Block, x: Extent, buffer: array<Byte>, offset: nat, done: nat, chunk: nat)
    requires OnDevice(x, dev.Contents()) && (offset + done) % 512 + chunk <= 512
    requires offset + done + chunk <= x.length && done + chunk <= buffer.Length && chunk > 0
    requires Copied(dev.Contents(), x, offset, buffer[..], done)
    modifies buffer
    ensures Copied(dev.Contents(), x, offset, buffer[..], done + chunk)
    ensures buffer[done + chunk..] == old(buffer[done + chunk..])
    ensures dev.Contents() == old(dev.Contents())
  {
    hide DiskByte, Copied;
    ghost var before := buffer[..];
    CopyOut(dev, x.start + (offset + done) / 512, (offset + done) % 512, buffer, done, chunk);
    assert buffer[..][..done] == before[..done];
    assert buffer[..][done..done + chunk] == buffer[done..done + chunk];
    CopiedMore(dev.Contents(), x, offset, before, done, buffer[..], chunk);
  }

  /** inode_read_at. `bounce` says whether the one malloc, if it comes to it, succeeds. */
  method InodeReadAt(dev: Block, x: Extent, buffer: array<Byte>, size: int, offset: nat, bounce: bool)
    returns (bytesRead: nat)
    requires OnDevice(x, dev.Contents()) && size <= buffer.Length
    modifies buffer
    ensures bytesRead == Moved(x, size, offset, bounce) <= buffer.Length
    ensures bytesRead > 0 ==> Copied(dev.Contents(), x, offset, buffer[..], bytesRead)
    ensures buffer[bytesRead..] == old(buffer[bytesRead..])
    ensures dev.Contents() == old(dev.Contents())
  {
    hide DiskByte, Copied, Moved, Chunk, OnDevice;
    bytesRead := 0;
    var left, at := size, offset;
    while left > 0
      invariant bytesRead + left == size && bytesRead <= buffer.Length && at == offset + bytesRead
      invariant Moved(x, size, offset, bounce) == bytesRead + Moved(x, left, at, bounce)
      invariant bytesRead > 0 ==> Copied(dev.Contents(), x, offset, buffer[..], bytesRead)
      invariant buffer[bytesRead..] == old(buffer[..])[bytesRead..]
      invariant dev.Contents() == old(dev.Contents())
    {
      var chunk := Chunk(x, left, at);
      if chunk <= 0 {
        break;
      }
      if at % 512 == 0 && chunk == 512 {
        // The sector goes straight into the caller's buffer.
      } else if !bounce {
        break;
      }
      ChunkFits(x, left, at, dev.Contents());
      if bytesRead == 0 {
        StartCopied(dev.Contents(), x, offset, buffer[..]);
      }
      ReadChunk(dev, x, buffer, offset, bytesRead, chunk);
      MovedStep(x, left, at, bounce);
      left, at, bytesRead := left - chunk, at + chunk, bytesRead + chunk;
    }
    MovedEnd(x, left, at, bounce);
  }

  // ---- writing ----

  /** The device after `data` has been written at byte `at` of it: those bytes, and no other. */
  ghost predicate Written(before: seq<Sector>, after: seq<Sector>, at: nat, data: seq<Byte>) {
    && |after| == |before| && at + |data| <= 512 * |before|
    && forall a: nat | a < 512 * |before| ::
         DiskByte(after, a) == if at <= a < at + |data| then data[a - at] else DiskByte(before, a)
  }

  /** That device, as a function of the one before. */
  function Overwritten(disk: seq<Sector>, at: nat, data: seq<Byte>): (r: seq<Sector>)
    ensures |r| == |disk|
  {
    seq(|disk|, k requires 0 <= k < |disk| => OverwrittenSector(disk[k], 512 * k, at, data))
  }

  function OverwrittenSector(sector: Sector, first: nat, at: nat, data: seq<Byte>): Sector {
    seq(512, j requires 0 <= j < 512 => if at <= first + j < at + |data| then data[first + j - at] else sector[j])
  }

  lemma OverwrittenByte(disk: seq<Sector>, at: nat, data: seq<Byte>, a: nat)
    requires a < 512 * |disk|
    ensures DiskByte(Overwritten(disk, at, data), a)
            == if at <= a < at + |data| then data[a - at] else DiskByte(disk, a)
  {
    assert 512 * (a / 512) + a % 512 == a;
    var k, j := a / 512, a % 512;
    assert Overwritten(disk, at, data)[k] == OverwrittenSector(disk[k], 512 * k, at, data);
    assert OverwrittenSector(disk[k], 512 * k, at, data)[j]
        == if at <= 512 * k + j < at + |data| then data[512 * k + j - at] else disk[k][j];
  }

  lemma OverwrittenIsWritten(disk: seq<Sector>, at: nat, data: seq<Byte>)
    requires at + |data| <= 512 * |disk|
    ensures Written(disk, Overwritten(disk, at, data), at, data)
  {
    hide DiskByte, Overwritten;
    OverwrittenLength(disk, at, data);
    forall a: nat | a < 512 * |disk|
      ensures DiskByte(Overwritten(disk, at, data), a)
              == if at <= a < at + |data| then data[a - at] else DiskByte(disk, a)
    {
      OverwrittenByte(disk, at, data, a);
    }
  }

  lemma OverwrittenLength(disk: seq<Sector>, at: nat, data: seq<Byte>)
    ensures |Overwritten(disk, at, data)| == |disk|
  {
  }

  /** A write determines the device after it. */
  lemma WrittenIsOverwritten(before: seq<Sector>, after: seq<Sector>, at: nat, data: seq<Byte>)
    requires Written(before, after, at, data)
    ensures after == Overwritten(before, at, data)
  {
    hide Overwritten, Written, DiskByte;
    WrittenLength(before, after, at, data);
    OverwrittenIsWritten(before, at, data);
    OverwrittenLength(before, at, data);
    SameBytes(before, after, Overwritten(before, at, data), at, data);
  }

  lemma WrittenLength(before: seq<Sector>, after: seq<Sector>, at: nat, data: seq<Byte>)
    requires Written(before, after, at, data)
    ensures |after| == |before| && at + |data| <= 512 * |before|
  {
  }

  lemma SameBytes(before: seq<Sector>, after: seq<Sector>, after': seq<Sector>, at: nat, data: seq<Byte>)
    requires Written(before, after, at, data) && Written(before, after', at, data)
    ensures after == after'
  {
    forall k | 0 <= k < |before| ensures after[k] == after'[k] {
      forall j | 0 <= j < 512 ensures after[k][j] == after'[k][j] {
        var a := 512 * k + j;
        assert a / 512 == k && a % 512 == j;
        assert DiskByte(after, a) == DiskByte(after', a);
      }
    }
  }

  const ZEROS: Sector := seq(512, i => 0)

  /** Part of a sector replaced. */
  function Patched(sector: Sector, from: nat, data: seq<Byte>): Sector
    requires from + |data| <= 512
  {
    sector[..from] + data + sector[from + |data|..]
  }

  lemma WrittenSector(before: seq<Sector>, s: nat, from: nat, data: seq<Byte>)
    requires s < |before| && from + |data| <= 512
    ensures Written(before, before[s := Patched(before[s], from, data)], 512 * s + from, data)
  {
    var after := before[s := Patched(before[s], from, data)];
    forall a: nat | a < 512 * |before|
      ensures DiskByte(after, a)
              == if 512 * s + from <= a < 512 * s + from + |data| then data[a - (512 * s + from)]
                 else DiskByte(before, a)
    {
      if a / 512 == s {
        assert a == 512 * s + a % 512;
      }
    }
  }

  lemma WrittenMore(d0: seq<Sector>, d1: seq<Sector>, d2: seq<Sector>, at: nat, x: seq<Byte>, y: seq<Byte>)
    requires Written(d0, d1, at, x) && Written(d1, d2, at + |x|, y)
    ensures Written(d0, d2, at, x + y)
  {
    hide DiskByte;
    forall a: nat | a < 512 * |d0|
      ensures DiskByte(d2, a) == if at <= a < at + |x + y| then (x + y)[a - at] else DiskByte(d0, a)
    {
      assert DiskByte(d1, a) == if at <= a < at + |x| then x[a - at] else DiskByte(d0, a);
    }
  }

  lemma WrittenNothing(disk: seq<Sector>, at: nat)
    requires at <= 512 * |disk|
    ensures Written(disk, disk, at, [])
  {
  }

  /** One turn of the loop: a whole sector goes straight to the device; otherwise what the
      sector holds around the chunk is read first. */
  method WriteChunk(dev: Block, sector: nat, from: nat, data: seq<Byte>)
    requires sector < dev.sectors.Length && 0 < |data| && from + |data| <= 512
    modifies dev.sectors
    ensures Written(old(dev.Contents()), dev.Contents(), 512 * sector + from, data)
  {
    hide Written, DiskByte;
    WrittenSector(dev.Contents(), sector, from, data);
    if from == 0 && |data| == 512 {
      var whole: Sector := data;
      assert Patched(dev.sectors[sector], 0, data) == data;
      dev.sectors[sector] := whole;
    } else {
      var sectorLeft := 512 - from;
      var bounce := ZEROS;
      if from > 0 || |data| < sectorLeft {
        bounce := dev.sectors[sector];
      }
      dev.sectors[sector] := Patched(bounce, from, data);
    }
    assert dev.Contents() == old(dev.Contents())[sector := Patched(old(dev.Contents())[sector], from, data)];
  }

  /** inode_write_at: a denied write moves nothing. */
  method InodeWriteAt(dev: Block, x: Extent, denyWriteCnt: nat, buffer: seq<Byte>, size: int, offset: nat, bounce: bool)
    returns (bytesWritten: nat)
    requires OnDevice(x, dev.Contents()) && size <= |buffer|
    modifies dev.sectors
    ensures bytesWritten == (if denyWriteCnt > 0 then 0 else Moved(x, size, offset, bounce)) <= |buffer|
    ensures bytesWritten == 0 ==> dev.Contents() == old(dev.Contents())
    ensures bytesWritten > 0
            ==> Written(old(dev.Contents()), dev.Contents(), 512 * x.start + offset, buffer[..bytesWritten])
  {
    hide DiskByte, Written, Moved, Chunk, OnDevice;
    bytesWritten := 0;
    if denyWriteCnt > 0 {
      return;
    }
    var left, at := size, offset;
    ghost var before := dev.Contents();
    while left > 0
      invariant bytesWritten + left == size && bytesWritten <= |buffer| && at == offset + bytesWritten
      invariant Moved(x, size, offset, bounce) == bytesWritten + Moved(x, left, at, bounce)
      invariant |dev.Contents()| == |before|
      invariant bytesWritten == 0 ==> dev.Contents() == before
      invariant bytesWritten > 0 ==> Written(before, dev.Contents(), 512 * x.start + offset, buffer[..bytesWritten])
    {
      var chunk := Chunk(x, left, at);
      if chunk <= 0 {
        break;
      }
      if at % 512 == 0 && chunk == 512 {
        // No bounce buffer is needed.
      } else if !bounce {
        break;
      }
      ChunkPlace(x, left, at, before, dev.Contents());
      if bytesWritten == 0 {
        WrittenNothing(before, 512 * x.start + offset);
        assert buffer[..0] == [];
      }
      ghost var mid := dev.Contents();
      var data := buffer[bytesWritten..bytesWritten + chunk];
      WriteChunk(dev, x.start + at / 512, at % 512, data);
      WrittenMore(before, mid, dev.Contents(), 512 * x.start + offset, buffer[..bytesWritten], data);
      assert buffer[..bytesWritten] + data == buffer[..bytesWritten + chunk];
      MovedStep(x, left, at, bounce);
      left, at, bytesWritten := left - chunk, at + chunk, bytesWritten + chunk;
    }
    MovedEnd(x, left, at, bounce);
  }

  lemma ChunkPlace(x: Extent, size: int, offset: nat, before: seq<Sector>, disk: seq<Sector>)
    requires OnDevice(x, before) && |disk| == |before| && Chunk(x, size, offset) > 0
    ensures Chunk(x, size, offset) <= size && offset % 512 + Chunk(x, size, offset) <= 512
    ensures x.start + offset / 512 < |disk|
    ensures 512 * (x.start + offset / 512) + offset % 512 == 512 * x.start + offset
    ensures 512 * x.start + offset <= 512 * |before|
  {
    ChunkFits(x, size, offset, before);
  }

  // ---- the flat byte array ----

  /** A file as the array of its bytes. */
  ghost function FileBytes(disk: seq<Sector>, x: Extent): (f: seq<Byte>)
    requires OnDevice(x, disk)
    ensures |f| == x.length
  {
    seq(x.length, i requires 0 <= i < x.length => DiskByte(disk, 512 * x.start + i))
  }

  function Sectors(length: nat): nat { (length + 511) / 512 }

  /** No sector in common. */
  predicate Apart(x: Extent, y: Extent) {
    x.start + Sectors(x.length) <= y.start || y.start + Sectors(y.length) <= x.start
  }

  /** What a read brings back is a slice of the file. */
  lemma ReadIsSlice(disk: seq<Sector>, x: Extent, offset: nat, to: seq<Byte>, n: nat)
    requires OnDevice(x, disk) && offset + n <= x.length && Copied(disk, x, offset, to, n)
    ensures to[..n] == FileBytes(disk, x)[offset..offset + n]
  {
    hide DiskByte;
  }

  /** A write replaces a slice of its file, byte for byte, and leaves every other file alone. */
  lemma WriteIsUpdate(before: seq<Sector>, after: seq<Sector>, x: Extent, offset: nat, data: seq<Byte>)
    requires OnDevice(x, before) && offset + |data| <= x.length
    requires Written(before, after, 512 * x.start + offset, data)
    ensures OnDevice(x, after)
    ensures var f := FileBytes(before, x);
      FileBytes(after, x) == f[..offset] + data + f[offset + |data|..]
    ensures forall y | OnDevice(y, before) && Apart(x, y) ::
        OnDevice(y, after) && FileBytes(after, y) == FileBytes(before, y)
  {
    hide DiskByte;
    var f, g := FileBytes(before, x), FileBytes(after, x);
    var h := f[..offset] + data + f[offset + |data|..];
    forall i | 0 <= i < x.length ensures g[i] == h[i] {
      assert g[i] == DiskByte(after, 512 * x.start + i);
    }
    forall y | OnDevice(y, before) && Apart(x, y) ensures FileBytes(after, y) == FileBytes(before, y) {
      forall i | 0 <= i < y.length ensures FileBytes(after, y)[i] == FileBytes(before, y)[i] {
        assert FileBytes(after, y)[i] == DiskByte(after, 512 * y.start + i);
      }
    }
  }

  /** A read after a write: inside what was written it returns what was written, and outside it
      returns what was there, whatever the alignment of either. */
  lemma ReadAfterWrite(before: seq<Sector>, after: seq<Sector>, x: Extent, at: nat, data: seq<Byte>,
                       offset: nat, to: seq<Byte>, n: nat, i: nat)
    requires OnDevice(x, before) && at + |data| <= x.length && Written(before, after, 512 * x.start + at, data)
    requires offset + n <= x.length && Copied(after, x, offset, to, n) && i < n
    ensures to[i] == if at <= offset + i < at + |data| then data[offset + i - at] else FileBytes(before, x)[offset + i]
  {
    WriteIsUpdate(before, after, x, at, data);
    ReadIsSlice(after, x, offset, to, n);
    assert to[i] == to[..n][i];
  }

  // ---- new files ----

  /** The sectors that inode_create fills. */
  method ZeroData(dev: Block, x: Extent)
    requires x.start + Sectors(x.length) <= dev.sectors.Length
    modifies dev.sectors
    ensures forall k | 0 <= k < dev.sectors.Length ::
      dev.sectors[k] == if x.start <= k < x.start + Sectors(x.length) then ZEROS else old(dev.sectors[k])
  {
    for i := 0 to Sectors(x.length)
      invariant forall k | 0 <= k < dev.sectors.Length ::
        dev.sectors[k] == if x.start <= k < x.start + i then ZEROS else old(dev.sectors[k])
    {
      dev.sectors[x.start + i] := ZEROS;
    }
  }

  /** A new file reads as zeros, and every file that shares no sector with it reads as before. */
  lemma NewFileIsZeros(before: seq<Sector>, after: seq<Sector>, x: Extent, y: Extent)
    requires |before| == |after| && x.start + Sectors(x.length) <= |before|
    requires forall k | 0 <= k < |before| ::
      after[k] == if x.start <= k < x.start + Sectors(x.length) then ZEROS else before[k]
    requires OnDevice(y, before) && Apart(x, y)
    ensures OnDevice(x, after) && OnDevice(y, after)
    ensures forall i | 0 <= i < x.length :: FileBytes(after, x)[i] == 0
    ensures FileBytes(after, y) == FileBytes(before, y)
  {
    forall i | 0 <= i < x.length ensures FileBytes(after, x)[i] == 0 {
      InSector(x, i);
    }
    forall i | 0 <= i < y.length ensures FileBytes(after, y)[i] == FileBytes(before, y)[i] {
      InSector(y, i);
    }
  }

  lemma InSector(x: Extent, i: nat)
    requires i < x.length
    ensures x.start <= (512 * x.start + i) / 512 < x.start + Sectors(x.length)
  {
  }
}
