/** The ustar header byte by byte (lib/ustar.c): where each field lies, what ustar_make_header puts
    there, and which headers ustar_parse_header accepts. The offsets and texts are those of the
    interchange format that the pax utility defines. */
module UstarLaws {
  import opened Bytes
  import opened Options
  import opened Formatting
  import opened Ustar

  /** The bytes from `at` on hold a text and nulls up to the end of the field. */
  predicate TextAt(h: seq<Byte>, at: nat, length: nat, s: seq<Byte>) {
    && |h| == 512 && at + length <= 512 && |s| <= length
    && h[at..at + |s|] == s && forall i | at + |s| <= i < at + length :: h[i] == 0
  }

  /** And octal digits of a number, `w` of them. */
  ghost predicate OctalAt(h: seq<Byte>, at: nat, length: nat, w: nat, n: nat) {
    exists s ::
      |s| == w && (forall i | 0 <= i < w :: IsOctal(s[i])) && OctalValue(s, 0) == n && TextAt(h, at, length, s)
  }

  lemma FieldText(h: seq<Byte>, t: seq<seq<Byte>>, f: nat)
    requires Laid(h, t) && f < FIELDS
    ensures TextAt(h, Offset(f), LENGTHS[f], t[f])
  {
    OffsetsAdd(f);
    var field := Field(h, f);
    assert Holds(field, t[f]);
    assert field[..|t[f]|] == h[Offset(f)..Offset(f) + |t[f]|];
    assert forall i | Offset(f) <= i < Offset(f) + LENGTHS[f] :: h[i] == field[i - Offset(f)];
  }

  lemma NumberText(h: seq<Byte>, t: seq<seq<Byte>>, f: nat, n: nat, w: nat)
    requires Laid(h, t) && f < FIELDS && 0 < w && n < Pow8(w) && t[f] == FormatO(n, w)
    ensures OctalAt(h, Offset(f), LENGTHS[f], w, n)
  {
    hide Laid, Offset, FormatO, OctalValue, Pow8;
    FieldText(h, t, f);
    FormatOReads(n, w);
  }

  /** Where everything is in a header: the mode is 0644 for a file and 0755 for a directory, the time
      2006-01-01, the owner root. */
  lemma HeaderBytes(h: seq<Byte>, name: seq<Byte>, kind: Byte, size: nat)
    requires IsHeader(h, name, kind, size) && size <= 0x7FFF_FFFF
    ensures TextAt(h, 0, 100, name)
    ensures OctalAt(h, 100, 8, 7, if kind == 48 then 0x1A4 else 0x1ED)
    ensures OctalAt(h, 108, 8, 7, 0) && OctalAt(h, 116, 8, 7, 0)
    ensures OctalAt(h, 124, 12, 11, size) && OctalAt(h, 136, 12, 11, 1136102400)
    ensures OctalAt(h, 148, 8, 7, Checksum(h)) && h[156] == kind
    ensures TextAt(h, 157, 100, []) && TextAt(h, 257, 6, [117, 115, 116, 97, 114]) && TextAt(h, 263, 2, [48, 48])
    ensures TextAt(h, 265, 32, [114, 111, 111, 116]) && TextAt(h, 297, 32, [114, 111, 111, 116])
    ensures TextAt(h, 329, 183, [])
  {
    hide FormatO, Checksum, Pow8, OctalValue, Laid, OctalAt;
    var t := Entries(name, kind, size, FormatO(Checksum(h), 7));
    ChecksumSmall(h);
    Lengths();
    NumberText(h, t, MODE, if kind == REGULAR then 420 else 493, 7);
    NumberText(h, t, SIZE, size, 11);
    NumberText(h, t, MTIME, 1136102400, 11);
    NumberText(h, t, CHKSUM, Checksum(h), 7);
    FieldText(h, t, NAME);
    ZeroText(h, t, UID);
    ZeroText(h, t, GID);
    FieldText(h, t, TYPEFLAG);
    FieldText(h, t, 8);
    FieldText(h, t, MAGIC);
    FieldText(h, t, VERSION);
    FieldText(h, t, UNAME);
    FieldText(h, t, GNAME);
    FieldText(h, t, 13);
    FieldText(h, t, 14);
    FieldText(h, t, PREFIX);
    FieldText(h, t, 16);
  }

  lemma ZeroText(h: seq<Byte>, t: seq<seq<Byte>>, f: nat)
    requires Laid(h, t) && f < FIELDS && t[f] == ZEROS7
    ensures OctalAt(h, Offset(f), LENGTHS[f], 7, 0)
  {
    hide Laid, Offset;
    FieldText(h, t, f);
    LeadingZeros(7);
    assert Repeat(ZERO, 7) == ZEROS7;
  }

  /** The octal number in a field, ended by a blank or a null byte. */
  function NumberAt(h: seq<Byte>, at: nat, length: nat): Option<nat>
    requires |h| == 512 && at + length <= 512
  {
    OctalFrom(h[at..at + length], 0, 0)
  }

  /** The header of a file whose size field is a number that fits. */
  predicate SizeFits(h: seq<Byte>)
    requires |h| == 512
  {
    h[156] == 48 && NumberAt(h, 124, 12).Some? && NumberAt(h, 124, 12).value < 0x8000_0000
  }

  /** A header is accepted exactly if it is not all nulls, has the format's magic and version, a
      checksum that is right, a name that ends within its field and no prefix, and is of a directory, or
      of a file with a size that fits; the name is stripped, and a directory's size is 0. */
  lemma ParsesExactly(h: seq<Byte>)
    requires |h| == 512
    ensures Parse(h).Eof? <==> forall i | 0 <= i < 512 :: h[i] == 0
    ensures Parse(h).File?
            <==> && (exists i :: 0 <= i < 512 && h[i] != 0)
                 && h[257..263] == [117, 115, 116, 97, 114, 0] && h[263..265] == [48, 48]
                 && NumberAt(h, 148, 8) == Some(Checksum(h)) && h[99] == 0 && h[345] == 0
                 && (h[156] == 53 || SizeFits(h))
    ensures Parse(h).File? ==>
      Parse(h) == File(Stripped(StringIn(h[..100])), h[156], if h[156] == 48 then NumberAt(h, 124, 12).value else 0)
  {
    hide Checksum, OctalFrom, Stripped, StringIn;
    assert Field(h, NAME) == h[..100] && Field(h, MAGIC) == h[257..263] && Field(h, VERSION) == h[263..265];
    assert Field(h, CHKSUM) == h[148..156] && Field(h, SIZE) == h[124..136];
    assert Field(h, TYPEFLAG)[0] == h[156] && Field(h, PREFIX)[0] == h[345] && Field(h, NAME)[99] == h[99];
  }

  /** The checksum is the sum of the bytes, those of its own field taken for blanks. */
  lemma ChecksumIs(h: seq<Byte>)
    requires |h| == 512
    ensures Checksum(h) == Sum(h[..148]) + 8 * 32 + Sum(h[156..])
  {
    hide Sum;
    var blanks: seq<Byte> := seq(8, i => 32);
    BlankedIs(h, blanks);
    SumConcat(h[..148] + blanks, h[156..]);
    SumConcat(h[..148], blanks);
    SumOfBlanks(8);
  }

  lemma BlankedIs(h: seq<Byte>, blanks: seq<Byte>)
    requires |h| == 512 && blanks == seq(8, i => 32)
    ensures Blanked(h) == h[..148] + blanks + h[156..]
  {
    var r := h[..148] + blanks + h[156..];
    assert Offset(CHKSUM) == 148;
    forall i | 0 <= i < 512 ensures Blanked(h)[i] == r[i] {
      assert r[i] == if i < 148 then h[i] else if i < 156 then 32 else h[i];
    }
  }

  lemma {:induction false} SumConcat(a: seq<Byte>, b: seq<Byte>)
    ensures Sum(a + b) == Sum(a) + Sum(b)
  {
    if b == [] {
      assert a + b == a;
    } else {
      assert (a + b)[..|a + b| - 1] == a + b[..|b| - 1];
      SumConcat(a, b[..|b| - 1]);
    }
  }

  lemma {:induction false} SumOfBlanks(n: nat)
    ensures Sum(seq(n, i => 32)) == 32 * n
  {
    if n > 0 {
      SumOfBlanks(n - 1);
      var s: seq<Byte> := seq(n, i => 32);
      assert s[..n - 1] == seq(n - 1, i => 32);
    }
  }
}
