/** How inodes (filesys/inode.c), directory entries (filesys/directory.c) and the free map
    (bitmap.c) lie on the device. */
module DiskFormat {
  import opened Bytes
  import opened Nonlinear
  import opened InodeIO

  // ---- inodes ----

  const INODE_MAGIC: nat := 0x494e_4f44

  /** A value as it is kept in 32 bits. */
  function Word32(v: nat): (r: nat)
    ensures r < 0x1_0000_0000 && (v < 0x1_0000_0000 ==> r == v)
  {
    v % 0x1_0000_0000
  }

  /** struct inode_disk, as inode_create fills it in */
  function InodeSector(x: Extent): Sector {
    WordBytes(Word32(x.start)) + WordBytes(Word32(x.length)) + WordBytes(INODE_MAGIC) + seq(500, i => 0)
  }

  /** What inode_open reads. */
  function InodeOn(s: Sector): Extent {
    Extent(LoadWord(s, 0), LoadWord(s, 4))
  }

  lemma InodeRoundTrip(x: Extent)
    requires x.start < 0x1_0000_0000 && x.length < 0x1_0000_0000
    ensures InodeOn(InodeSector(x)) == x && LoadWord(InodeSector(x), 8) == INODE_MAGIC
    ensures LoadWord(InodeSector(x), 0) == x.start && LoadWord(InodeSector(x), 4) == x.length
    ensures forall i | 12 <= i < 512 :: InodeSector(x)[i] == 0
  {
    hide LoadWord, WordBytes;
    var a, b, c := WordBytes(x.start), WordBytes(x.length), WordBytes(INODE_MAGIC);
    var z: seq<Byte> := seq(500, i => 0);
    WordLengths(x.start, x.length);
    assert InodeSector(x)[0..4] == a && InodeSector(x)[4..8] == b && InodeSector(x)[8..12] == c by {
      ThreeFields(a, b, c, z);
    }
    WordRoundTrip(InodeSector(x), 0, x.start);
    WordRoundTrip(InodeSector(x), 4, x.length);
    WordRoundTrip(InodeSector(x), 8, INODE_MAGIC);
  }

  lemma WordLengths(v: nat, w: nat)
    requires v < 0x1_0000_0000 && w < 0x1_0000_0000
    ensures |WordBytes(v)| == |WordBytes(w)| == |WordBytes(INODE_MAGIC)| == 4
  {
  }

  lemma ThreeFields(a: seq<Byte>, b: seq<Byte>, c: seq<Byte>, z: seq<Byte>)
    requires |a| == |b| == |c| == 4
    ensures (a + b + c + z)[0..4] == a && (a + b + c + z)[4..8] == b && (a + b + c + z)[8..12] == c
  {
  }

  // ---- directory entries ----

  const ENTRY: nat := 20
  const NAME_MAX: nat := 14

  /** struct dir_entry */
  datatype Entry = Entry(inUse: bool, name: seq<Byte>, sector: nat)

  const UNUSED: Entry := Entry(false, [], 0)

  /** What is in the bytes of an entry. */
  function EntryOn(b: seq<Byte>): Entry
    requires |b| == ENTRY
  {
    Entry(b[19] != 0, StringIn(b[4..19]), LoadWord(b, 0))
  }

  /** The bytes dir_add writes; those of the name's field that are behind its null byte are
      whatever the entry read last had there. */
  function EntryBytes(name: seq<Byte>, sector: nat, rest: seq<Byte>): (b: seq<Byte>)
    requires |name| <= NAME_MAX && |rest| == NAME_MAX - |name|
    ensures |b| == ENTRY
  {
    WordBytes(Word32(sector)) + (name + [0] + rest) + [1]
  }

  lemma EntryRoundTrip(name: seq<Byte>, sector: nat, rest: seq<Byte>)
    requires |name| <= NAME_MAX && |rest| == NAME_MAX - |name| && NoNulls(name) && sector < 0x1_0000_0000
    ensures EntryOn(EntryBytes(name, sector, rest)) == Entry(true, name, sector)
    ensures var b := EntryBytes(name, sector, rest);
      LoadWord(b, 0) == sector && b[4..4 + |name|] == name && b[4 + |name|] == 0 && b[19] == 1
  {
    hide LoadWord, WordBytes, StringIn;
    var b := EntryBytes(name, sector, rest);
    WordLengths(sector, sector);
    var w, field := WordBytes(sector), name + [0] + rest;
    assert b == w + field + [1] && b[0..4] == w && b[4..19] == field && b[19] == 1;
    WordRoundTrip(b, 0, sector);
    StringInPrefix(name, rest);
  }

  /** The bytes dir_remove writes: those of the entry, no longer in use. */
  function ErasedBytes(b: seq<Byte>): (r: seq<Byte>)
    requires |b| == ENTRY
    ensures |r| == ENTRY
  {
    b[19 := 0]
  }

  lemma ErasedEntry(b: seq<Byte>)
    requires |b| == ENTRY
    ensures EntryOn(ErasedBytes(b)) == EntryOn(b).(inUse := false)
  {
    assert ErasedBytes(b)[4..19] == b[4..19];
  }

  lemma ZeroEntry(b: seq<Byte>)
    requires |b| == ENTRY && forall i | 0 <= i < ENTRY :: b[i] == 0
    ensures EntryOn(b) == UNUSED
  {
    assert b[4..19][0] == 0;
  }

  // ---- the free map ----

  /** bitmap_file_size */
  function MapBytes(size: nat): nat { (size + 31) / 32 * 4 }

  /** Bit `j` of a byte. */
  function BitOf(v: nat, j: nat): bool {
    if j == 0 then v % 2 == 1 else BitOf(v / 2, j - 1)
  }

  /** The number with these bits, the lowest first. */
  function Packed(bits: seq<bool>): nat {
    if bits == [] then 0 else (if bits[0] then 1 else 0) + 2 * Packed(bits[1..])
  }

  lemma {:induction false} PackedBits(bits: seq<bool>, j: nat)
    requires j < |bits|
    ensures BitOf(Packed(bits), j) == bits[j] && Packed(bits) < Pow2(|bits|)
  {
    if j > 0 {
      assert Packed(bits) / 2 == Packed(bits[1..]);
      PackedBits(bits[1..], j - 1);
    } else if |bits| > 1 {
      PackedBits(bits[1..], 0);
    } else {
      assert bits[1..] == [];
    }
  }

  /** The bits of byte `b` of the map; those past the last are clear. */
  function EightBits(m: seq<bool>, b: nat): (r: seq<bool>)
    ensures |r| == 8
  {
    seq(8, j requires 0 <= j < 8 => 8 * b + j < |m| && m[8 * b + j])
  }

  lemma EightFit(m: seq<bool>, b: nat)
    ensures Packed(EightBits(m, b)) < 256
  {
    hide Packed;
    PackedBits(EightBits(m, b), 0);
    assert Pow2(4) == 16;
    assert Pow2(8) == 256;
  }

  /** What bitmap_write writes. */
  function MapImage(m: seq<bool>): (r: seq<Byte>)
    ensures |r| == MapBytes(|m|)
  {
    seq(MapBytes(|m|), b requires 0 <= b < MapBytes(|m|) => MapByte(m, b))
  }

  function MapByte(m: seq<bool>, b: nat): Byte {
    EightFit(m, b);
    Packed(EightBits(m, b)) as Byte
  }

  /** Bit `k` of a map on the device, as bitmap_read finds it. */
  function BitOn(image: seq<Byte>, k: nat): bool
    requires k / 8 < |image|
  {
    BitOf(image[k / 8] as nat, k % 8)
  }

  lemma ByteOfBit(size: nat, k: nat)
    requires k < size
    ensures k / 8 < MapBytes(size) && 8 * (k / 8) + k % 8 == k
  {
  }

  lemma MapRoundTrip(m: seq<bool>, k: nat)
    requires k < |m|
    ensures k / 8 < |MapImage(m)| && BitOn(MapImage(m), k) == m[k]
  {
    hide Packed, BitOf;
    ByteOfBit(|m|, k);
    var b, j := k / 8, k % 8;
    PackedBits(EightBits(m, b), j);
    assert EightBits(m, b)[j] == m[8 * b + j];
  }
}
