/** Headers of ustar archives (lib/ustar.c), in the ustar Interchange Format of the pax utility,
    IEEE Std 1003.1. */
module Ustar {
  import opened Bytes
  import opened Options
  import opened Nonlinear
  import opened Formatting
  import Printf

  const SLASH: Byte := 47
  const DOT: Byte := 46
  const REGULAR: Byte := 48
  const DIRECTORY: Byte := 53

  // ---- file names ----

  predicate Prefixed(name: seq<Byte>) {
    [SLASH] <= name || [DOT, SLASH] <= name || [DOT, DOT, SLASH] <= name
  }

  /** What is after the first slash. */
  function AfterSlash(name: seq<Byte>): (r: seq<Byte>)
    requires SLASH in name
    ensures |r| < |name|
  {
    if name[0] == SLASH then name[1..] else AfterSlash(name[1..])
  }

  lemma PrefixedHasSlash(name: seq<Byte>)
    requires Prefixed(name)
    ensures SLASH in name
  {
    if [SLASH] <= name {
      assert name[0] == SLASH;
    } else if [DOT, SLASH] <= name {
      assert name[1] == SLASH;
    } else {
      assert name[2] == SLASH;
    }
  }

  function Stripped(name: seq<Byte>): seq<Byte>
    decreases |name|
  {
    if Prefixed(name) then (PrefixedHasSlash(name); Stripped(AfterSlash(name)))
    else if name == [] || name == [DOT, DOT] then [DOT]
    else name
  }

  /** strip_antisocial_prefixes */
  method StripPrefixes(name: seq<Byte>) returns (r: seq<Byte>)
    ensures r == Stripped(name)
  {
    r := name;
    while Prefixed(r)
      invariant Stripped(r) == Stripped(name)
      decreases |r|
    {
      PrefixedHasSlash(r);
      r := AfterSlash(r);
    }
    if r == [] || r == [DOT, DOT] {
      r := [DOT];
    }
  }

  /** A row of "/", "./" and "../", which a stripped name does not begin with. */
  predicate Antisocial(p: seq<Byte>)
    decreases |p|
  {
    || p == []
    || (p[0] == SLASH && Antisocial(p[1..]))
    || (|p| >= 2 && p[..2] == [DOT, SLASH] && Antisocial(p[2..]))
    || (|p| >= 3 && p[..3] == [DOT, DOT, SLASH] && Antisocial(p[3..]))
  }

  /** What is stripped is all of the name's antisocial beginning and no more; a name of which nothing or
      ".." is left becomes ".". */
  lemma {:induction false} StrippedIs(name: seq<Byte>) returns (k: nat)
    ensures k <= |name| && Antisocial(name[..k])
    ensures var rest := name[k..];
      && !([SLASH] <= rest) && !([DOT, SLASH] <= rest) && !([DOT, DOT, SLASH] <= rest)
      && Stripped(name) == if rest == [] || rest == [DOT, DOT] then [DOT] else rest
    decreases |name|
  {
    hide Antisocial, AfterSlash;
    if Prefixed(name) {
      PrefixedHasSlash(name);
      var n := PieceIs(name);
      var m := StrippedIs(name[n..]);
      k := n + m;
      TwoCuts(name, n, m);
      PieceInFront(name[..n], name[n..][..m]);
    } else {
      k := 0;
      assert name[0..] == name && name[..0] == [];
      NothingAntisocial();
    }
  }

  lemma PieceIs(name: seq<Byte>) returns (n: nat)
    requires Prefixed(name) && SLASH in name
    ensures 0 < n <= |name| && AfterSlash(name) == name[n..]
    ensures name[..n] in {[SLASH], [DOT, SLASH], [DOT, DOT, SLASH]}
  {
    n := if [SLASH] <= name then 1 else if [DOT, SLASH] <= name then 2 else 3;
    assert name[..n] == if n == 1 then [SLASH] else if n == 2 then [DOT, SLASH] else [DOT, DOT, SLASH];
    assert forall i | 0 <= i < n :: name[i] == name[..n][i];
    AfterSlashAt(name, n - 1);
  }

  lemma {:induction false} AfterSlashAt(name: seq<Byte>, n: nat)
    requires n < |name| && name[n] == SLASH && forall i | 0 <= i < n :: name[i] != SLASH
    ensures SLASH in name && AfterSlash(name) == name[n + 1..]
  {
    if n > 0 {
      assert forall i | 0 <= i < n :: name[1..][i] == name[i + 1];
      AfterSlashAt(name[1..], n - 1);
      assert name[1..][n..] == name[n + 1..];
    }
  }

  lemma TwoCuts(s: seq<Byte>, n: nat, m: nat)
    requires n + m <= |s|
    ensures s[..n + m] == s[..n] + s[n..][..m] && s[n..][m..] == s[n + m..]
  {
  }

  lemma NothingAntisocial()
    ensures Antisocial([])
  {
  }

  lemma PieceInFront(a: seq<Byte>, b: seq<Byte>)
    requires a in {[SLASH], [DOT, SLASH], [DOT, DOT, SLASH]} && Antisocial(b)
    ensures Antisocial(a + b)
  {
    assert (a + b)[|a|..] == b && (a + b)[..|a|] == a;
  }

  /** A stripped name has nothing left to strip, and is not empty. */
  lemma {:induction false} StripTwice(name: seq<Byte>)
    ensures Stripped(Stripped(name)) == Stripped(name) && Stripped(name) != []
    ensures (forall i | 0 <= i < |name| :: name[i] != 0) ==>
        forall i | 0 <= i < |Stripped(name)| :: Stripped(name)[i] != 0
    decreases |name|
  {
    if Prefixed(name) {
      PrefixedHasSlash(name);
      NoNewBytes(name);
      StripTwice(AfterSlash(name));
    }
  }

  lemma {:induction false} NoNewBytes(name: seq<Byte>)
    requires SLASH in name
    ensures (forall i | 0 <= i < |name| :: name[i] != 0)
            ==> forall i | 0 <= i < |AfterSlash(name)| :: AfterSlash(name)[i] != 0
  {
    if name[0] != SLASH {
      NoNewBytes(name[1..]);
    }
  }

  // ---- octal fields ----

  predicate IsOctal(c: Byte) { 48 <= c <= 55 }

  /** parse_octal_field, from position `ofs` on. */
  function OctalFrom(s: seq<Byte>, ofs: nat, value: nat): Option<nat>
    decreases |s| - ofs
  {
    if ofs >= |s| then None
    else if IsOctal(s[ofs]) then
      if value > 0xFFFF_FFFF / 8 then None else OctalFrom(s, ofs + 1, s[ofs] as nat - 48 + value * 8)
    else if s[ofs] == 32 || s[ofs] == 0 then if ofs > 0 then Some(value) else None
    else None
  }

  method ParseOctalField(s: seq<Byte>) returns (r: Option<nat>)
    ensures r == OctalFrom(s, 0, 0)
  {
    var value: nat := 0;
    var ofs := 0;
    while ofs < |s|
      invariant ofs <= |s| && OctalFrom(s, 0, 0) == OctalFrom(s, ofs, value)
    {
      var c := s[ofs];
      if 48 <= c <= 55 {
        if value > 0xFFFF_FFFF / 8 {
          return None;
        }
        value := c as nat - 48 + value * 8;
      } else if c == 32 || c == 0 {
        return if ofs > 0 then Some(value) else None;
      } else {
        return None;
      }
      ofs := ofs + 1;
    }
    return None;
  }

  /** The value of octal digits, after `value`. */
  function OctalValue(digits: seq<Byte>, value: nat): nat
    requires forall i | 0 <= i < |digits| :: IsOctal(digits[i])
  {
    if digits == [] then value
    else assert IsOctal(digits[0]); OctalValue(digits[1..], digits[0] as nat - 48 + value * 8)
  }

  lemma {:induction false} OctalGrows(digits: seq<Byte>, value: nat)
    requires forall i | 0 <= i < |digits| :: IsOctal(digits[i])
    ensures OctalValue(digits, value) >= value
  {
    if digits != [] {
      OctalGrows(digits[1..], digits[0] as nat - 48 + value * 8);
    }
  }

  lemma {:induction false} OctalThen(a: seq<Byte>, b: seq<Byte>, value: nat)
    requires forall i | 0 <= i < |a| :: IsOctal(a[i])
    requires forall i | 0 <= i < |b| :: IsOctal(b[i])
    ensures OctalValue(a + b, value) == OctalValue(b, OctalValue(a, value))
  {
    if a == [] {
      assert a + b == b;
    } else {
      assert (a + b)[1..] == a[1..] + b;
      OctalThen(a[1..], b, a[0] as nat - 48 + value * 8);
    }
  }

  /** A field of digits and a null byte is read as their value, if that fits 32 bits. */
  lemma {:induction false} OctalReads(s: seq<Byte>, ofs: nat, value: nat, digits: seq<Byte>)
    requires forall i | 0 <= i < |digits| :: IsOctal(digits[i])
    requires ofs + |digits| < |s| && s[ofs..ofs + |digits|] == digits && s[ofs + |digits|] == 0
    requires ofs + |digits| > 0 && OctalValue(digits, value) <= 0xFFFF_FFFF
    ensures OctalFrom(s, ofs, value) == Some(OctalValue(digits, value))
    decreases |digits|
  {
    if digits != [] {
      assert s[ofs] == s[ofs..ofs + |digits|][0] == digits[0];
      var next := digits[0] as nat - 48 + value * 8;
      OctalGrows(digits[1..], next);
      assert s[ofs + 1..ofs + 1 + |digits[1..]|] == s[ofs..ofs + |digits|][1..];
      OctalReads(s, ofs + 1, next, digits[1..]);
    }
  }

  /** "%0wo" for the width `w` */
  function FormatO(n: nat, w: nat): seq<Byte> {
    Formatted(n, false, false, OCTAL, Conversion(false, false, false, false, true, false, w, -1))
  }

  function Pow8(k: nat): nat { if k == 0 then 1 else 8 * Pow8(k - 1) }

  /** The digits of a number below 8^k: at most k, and they read back as the number. */
  lemma {:induction false} OctalDigits(n: nat, cnt: nat, k: nat)
    requires n < Pow8(k)
    ensures var s := Flip(Reversed(n, OCTAL, false, cnt));
      && |s| <= k && (forall i | 0 <= i < |s| :: IsOctal(s[i])) && OctalValue(s, 0) == n
    decreases k
  {
    hide Flip;
    var s := Flip(Reversed(n, OCTAL, false, cnt));
    if n == 0 {
      assert |s| == 0 by { FlipLength([]); }
    } else {
      var d, m := LastDigit(n, OCTAL), OtherDigits(n, OCTAL);
      var rest := Reversed(m, OCTAL, false, cnt + 1);
      OctalDigits(m, cnt + 1, k - 1);
      FlipStep(rest, Digit(d, OCTAL));
      assert s == Flip(rest) + [Digit(d, OCTAL)];
      OctalThen(Flip(rest), [Digit(d, OCTAL)], 0);
      assert [Digit(d, OCTAL)][1..] == [];
    }
  }

  lemma {:induction false} LeadingZeros(z: nat)
    ensures OctalValue(Repeat(ZERO, z), 0) == 0
  {
    if z > 0 {
      LeadingZeros(z - 1);
      assert Repeat(ZERO, z)[1..] == Repeat(ZERO, z - 1);
    }
  }

  /** A number below 8^w takes exactly w digits, and they read back as the number. */
  lemma FormatOReads(n: nat, w: nat)
    requires 0 < w && n < Pow8(w)
    ensures var s := FormatO(n, w);
      |s| == w && (forall i | 0 <= i < |s| :: IsOctal(s[i])) && OctalValue(s, 0) == n
  {
    hide Reversed, Flip, OctalValue, Pow8;
    var digits := Flip(Reversed(n, OCTAL, false, 0));
    OctalDigits(n, 0, w);
    FormatOIs(n, w);
    var body := if n == 0 then [ZERO] else digits;
    var zeros := Repeat(ZERO, w - |body|);
    LeadingZeros(|zeros|);
    OctalThen(zeros, body, 0);
    OneZero();
  }

  /** "%07o" and "%011o", the formats of the numbers in a header */
  lemma OctalFormats(n: nat)
    requires n < 0x1_0000_0000
    ensures Printf.Print([37, 48, 55, 111], [Printf.Number(n)]) == Some(Printf.Printed(FormatO(n, 7), []))
    ensures Printf.Print([37, 48, 49, 49, 111], [Printf.Number(n)]) == Some(Printf.Printed(FormatO(n, 11), []))
  {
    hide Formatted, Printf.ParseConversion, Printf.Print, Printf.Digits;
    var args := [Printf.Number(n)];
    var f, g := [48, 55, 111], [48, 49, 49, 111];
    var c := Conversion(false, false, false, false, true, false, 7, -1);
    TwoWidths();
    assert f[1..] == [55, 111] && g[1..] == [49, 49, 111] && args[1..] == [];
    Printf.FlagAndWidth(f, 7, 111, args);
    Printf.FlagAndWidth(g, 11, 111, args);
    Printf.OneDirective(f, args, Printf.Directive(c, Printf.INT, [111], args));
    Printf.OneDirective(g, args, Printf.Directive(c.(width := 11), Printf.INT, [111], args));
    assert [37] + f == [37, 48, 55, 111] && [37] + g == [37, 48, 49, 49, 111];
    assert Printf.Unsigned(n, Printf.INT) == n;
  }

  lemma TwoWidths()
    ensures Printf.Digits([55, 111], 0) == (7, [111])
    ensures Printf.Digits([49, 49, 111], 0) == (11, [111])
  {
    hide Printf.Digits;
    var o, one, zero: nat := [111], [49], 0;
    Printf.OneDigit(55, o, zero);
    Printf.NoDigit(o, 7);
    assert [55] + o == [55, 111];
    Printf.OneDigit(49, one + o, zero);
    Printf.OneDigit(49, o, 1);
    Printf.NoDigit(o, 11);
    assert [49] + (one + o) == [49, 49, 111] && one + o == [49] + o;
  }

  lemma OneZero()
    ensures OctalValue([ZERO], 0) == 0
  {
    assert [ZERO][1..] == [];
  }

  lemma FormatOIs(n: nat, w: nat)
    requires |Reversed(n, OCTAL, false, 0)| <= w && 0 < w
    ensures var digits := Flip(Reversed(n, OCTAL, false, 0)); var body := if n == 0 then [ZERO] else digits;
      FormatO(n, w) == Repeat(ZERO, w - |body|) + body
  {
    var c := Conversion(false, false, false, false, true, false, w, -1);
    var body := Body(n, OCTAL, c);
    if n == 0 {
      assert body == [ZERO];
    } else {
      assert |Reversed(n, OCTAL, false, 0)| >= 1;
      assert body == Reversed(n, OCTAL, false, 0);
    }
  }

  // ---- headers ----

  /** The lengths of the fields of struct ustar_header, first to last: name, mode, uid, gid, size,
      mtime, chksum, typeflag, linkname, magic, version, uname, gname, devmajor, devminor, prefix,
      padding. */
  const LENGTHS: seq<nat> := [100, 8, 8, 8, 12, 12, 8, 1, 100, 6, 2, 32, 32, 8, 8, 155, 12]
  const FIELDS: nat := 17
  const NAME: nat := 0
  const MODE: nat := 1
  const UID: nat := 2
  const GID: nat := 3
  const SIZE: nat := 4
  const MTIME: nat := 5
  const CHKSUM: nat := 6
  const TYPEFLAG: nat := 7
  const MAGIC: nat := 9
  const VERSION: nat := 10
  const UNAME: nat := 11
  const GNAME: nat := 12
  const PREFIX: nat := 15

  /** offsetof: where field `f` starts */
  function Offset(f: nat): nat
    requires f <= FIELDS
  {
    [0, 100, 108, 116, 124, 136, 148, 156, 157, 257, 263, 265, 297, 329, 337, 345, 500, 512][f]
  }

  lemma OffsetsAdd(f: nat)
    requires f < FIELDS
    ensures Offset(f) + LENGTHS[f] == Offset(f + 1) <= 512 == Offset(FIELDS)
  {
  }

  lemma {:induction false} OffsetsGrow(f: nat, g: nat)
    requires f < g <= FIELDS
    ensures Offset(f) + LENGTHS[f] <= Offset(g)
    decreases g - f
  {
    OffsetsAdd(f);
    if f + 1 < g {
      OffsetsGrow(f + 1, g);
    }
  }

  function Field(h: seq<Byte>, f: nat): seq<Byte>
    requires |h| == 512 && f < FIELDS
  {
    OffsetsAdd(f);
    h[Offset(f)..Offset(f) + LENGTHS[f]]
  }

  /** A field holds a string, and null bytes after it. */
  ghost predicate Holds(field: seq<Byte>, s: seq<Byte>) {
    |s| <= |field| && field[..|s|] == s && forall i | |s| <= i < |field| :: field[i] == 0
  }

  /** Every field holds its entry of `t`. */
  ghost predicate Laid(h: seq<Byte>, t: seq<seq<Byte>>) {
    |h| == 512 && |t| == FIELDS && forall f: nat | f < FIELDS :: Holds(Field(h, f), t[f])
  }

  /** strlcpy or snprintf into an empty field */
  method Put(header: array<Byte>, f: nat, s: seq<Byte>, ghost t: seq<seq<Byte>>)
    requires header.Length == 512 && f < FIELDS && |s| <= LENGTHS[f] && Laid(header[..], t) && t[f] == []
    modifies header
    ensures Laid(header[..], t[f := s])
  {
    hide Laid, Offset, Field;
    OffsetsAdd(f);
    ghost var before := header[..];
    forall i | 0 <= i < |s| {
      header[Offset(f) + i] := s[i];
    }
    FieldPut(before, header[..], f, s, t);
  }

  lemma FieldPut(before: seq<Byte>, after: seq<Byte>, f: nat, s: seq<Byte>, t: seq<seq<Byte>>)
    requires f < FIELDS && |s| <= LENGTHS[f] && Laid(before, t) && t[f] == [] && |after| == 512
    requires Offset(f) + |s| <= 512
    requires forall k | 0 <= k < 512 ::
      after[k] == if Offset(f) <= k < Offset(f) + |s| then s[k - Offset(f)] else before[k]
    ensures Laid(after, t[f := s])
  {
    hide Offset;
    forall g: nat | g < FIELDS ensures Holds(Field(after, g), t[f := s][g]) {
      OffsetsAdd(g);
      assert Holds(Field(before, g), t[g]);
      if g < f {
        OffsetsGrow(g, f);
        assert Field(after, g) == Field(before, g);
      } else if g > f {
        OffsetsGrow(f, g);
        assert Field(after, g) == Field(before, g);
      } else {
        var was, now := Field(before, f), Field(after, f);
        assert now[..|s|] == s;
        assert forall i | |s| <= i < LENGTHS[f] :: now[i] == was[i];
      }
    }
  }

  function Sum(s: seq<Byte>): nat {
    if s == [] then 0 else Sum(s[..|s| - 1]) + s[|s| - 1] as nat
  }

  /** The header as the checksum sees it: with blanks in the checksum's own field. */
  function Blanked(h: seq<Byte>): (r: seq<Byte>)
    requires |h| == 512
    ensures |r| == 512
  {
    seq(512, i requires 0 <= i < 512 => if Offset(CHKSUM) <= i < Offset(CHKSUM) + 8 then BLANK else h[i])
  }

  function Checksum(h: seq<Byte>): nat
    requires |h| == 512
  {
    Sum(Blanked(h))
  }

  method CalculateChksum(h: array<Byte>) returns (chksum: nat)
    requires h.Length == 512
    ensures chksum == Checksum(h[..])
  {
    hide Sum;
    EmptySum();
    chksum := 0;
    ghost var b := Blanked(h[..]);
    for i := 0 to 512
      invariant chksum == Sum(b[..i])
    {
      var inChksum := Offset(CHKSUM) <= i < Offset(CHKSUM) + 8;
      SumStep(b, i);
      chksum := chksum + if inChksum then 32 else h[i] as nat;
    }
    assert b[..512] == b;
  }

  lemma EmptySum()
    ensures Sum([]) == 0
  {
  }

  lemma SumStep(s: seq<Byte>, i: nat)
    requires i < |s|
    ensures Sum(s[..i + 1]) == Sum(s[..i]) + s[i] as nat
  {
    assert s[..i + 1][..i] == s[..i];
  }

  lemma {:induction false} SumBound(s: seq<Byte>)
    ensures Sum(s) <= 255 * |s|
  {
    if s != [] {
      SumBound(s[..|s| - 1]);
    }
  }

  /** The checksum does not depend on the checksum's field. */
  lemma ChecksumIgnoresItself(h: seq<Byte>, h': seq<Byte>)
    requires |h| == |h'| == 512
    requires forall i | 0 <= i < 512 && !(Offset(CHKSUM) <= i < Offset(CHKSUM) + 8) :: h[i] == h'[i]
    ensures Checksum(h) == Checksum(h')
  {
    assert Blanked(h) == Blanked(h');
  }

  // ---- making a header ----

  const USTAR_MAGIC: seq<Byte> := [117, 115, 116, 97, 114]
  const ROOT: seq<Byte> := [114, 111, 111, 116]
  const ZEROS7: seq<Byte> := [48, 48, 48, 48, 48, 48, 48]

  /** The contents of the fields, the checksum's apart. */
  function Entries(name: seq<Byte>, kind: Byte, size: nat, chksum: seq<Byte>): (t: seq<seq<Byte>>)
    ensures |t| == FIELDS
  {
    [name, FormatO(if kind == REGULAR then 420 else 493, 7), ZEROS7, ZEROS7, FormatO(size, 11), FormatO(1136102400, 11),
     chksum, [kind], [], USTAR_MAGIC, [48, 48], ROOT, ROOT, [], [], [], []]
  }

  /** A header for a file, as ustar_make_header leaves it. */
  ghost predicate IsHeader(h: seq<Byte>, name: seq<Byte>, kind: Byte, size: nat) {
    |h| == 512 && Laid(h, Entries(name, kind, size, FormatO(Checksum(h), 7)))
  }

  lemma Lengths()
    ensures Pow8(7) == 2097152 && Pow8(11) == 8589934592
  {
    assert Pow8(4) == 4096;
    assert Pow8(7) == 512 * Pow8(4);
    assert Pow8(11) == 4096 * Pow8(7);
  }

  /** ustar_make_header, for a regular file or a directory: it fails only for a name that is still
      too long when stripped. */
  method MakeHeader(fileName: seq<Byte>, kind: Byte, size: nat, header: array<Byte>) returns (ok: bool)
    requires header.Length == 512 && (kind == REGULAR || kind == DIRECTORY) && size <= 0x7FFF_FFFF
    modifies header
    ensures ok <==> |Stripped(fileName)| <= 99
    ensures ok ==> IsHeader(header[..], Stripped(fileName), kind, size)
    ensures !ok ==> header[..] == old(header[..])
  {
    hide Laid, FormatO, Stripped, Pow8, Checksum, Entries, Numbered, Worded;
    var name := StripPrefixes(fileName);
    if |name| > 99 {
      return false;
    }
    forall i | 0 <= i < 512 {
      header[i] := 0;
    }
    ghost var t := seq(FIELDS, i => []);
    AllEmpty(header[..], t);
    Put(header, NAME, name, t);
    t := t[NAME := name];
    OtherEntries(t, kind, size);
    PutNumbers(header, kind, size, t);
    t := Numbered(t, kind, size);
    PutWords(header, kind, t);
    t := Worded(t, kind);
    var chksum := CalculateChksum(header);
    ghost var before := header[..];
    ChecksumSmall(before);
    FormatOReads(chksum, 7);
    Put(header, CHKSUM, FormatO(chksum, 7), t);
    EntriesAre(name, kind, size, FormatO(chksum, 7));
    SameChecksum(before, header[..], t, FormatO(chksum, 7));
    ok := true;
  }

  function Numbered(t: seq<seq<Byte>>, kind: Byte, size: nat): seq<seq<Byte>>
    requires |t| == FIELDS
  {
    t[MODE := FormatO(if kind == REGULAR then 420 else 493, 7)][UID := ZEROS7][GID := ZEROS7]
     [SIZE := FormatO(size, 11)][MTIME := FormatO(1136102400, 11)]
  }

  function Worded(t: seq<seq<Byte>>, kind: Byte): seq<seq<Byte>>
    requires |t| == FIELDS
  {
    t[TYPEFLAG := [kind]][MAGIC := USTAR_MAGIC][VERSION := [48, 48]][GNAME := ROOT][UNAME := ROOT]
  }

  lemma OtherEntries(t: seq<seq<Byte>>, kind: Byte, size: nat)
    requires |t| == FIELDS
    ensures var n := Numbered(t, kind, size); var w := Worded(n, kind);
      && |n| == |w| == FIELDS && w[CHKSUM] == t[CHKSUM]
      && n[TYPEFLAG] == t[TYPEFLAG] && n[MAGIC] == t[MAGIC] && n[VERSION] == t[VERSION]
      && n[GNAME] == t[GNAME] && n[UNAME] == t[UNAME]
  {
    hide FormatO;
  }

  method PutNumbers(header: array<Byte>, kind: Byte, size: nat, ghost t: seq<seq<Byte>>)
    requires header.Length == 512 && Laid(header[..], t) && size <= 0x7FFF_FFFF
    requires t[MODE] == t[UID] == t[GID] == t[SIZE] == t[MTIME] == []
    modifies header
    ensures Laid(header[..], Numbered(t, kind, size))
  {
    hide Laid, FormatO, Pow8;
    LaidLength(header[..], t);
    Lengths();
    FormatOReads(if kind == REGULAR then 420 else 493, 7);
    FormatOReads(size, 11);
    FormatOReads(1136102400, 11);
    ghost var r := t;
    Put(header, MODE, FormatO(if kind == REGULAR then 420 else 493, 7), r);
    r := r[MODE := FormatO(if kind == REGULAR then 420 else 493, 7)];
    Put(header, UID, ZEROS7, r);
    r := r[UID := ZEROS7];
    Put(header, GID, ZEROS7, r);
    r := r[GID := ZEROS7];
    Put(header, SIZE, FormatO(size, 11), r);
    r := r[SIZE := FormatO(size, 11)];
    Put(header, MTIME, FormatO(1136102400, 11), r);
  }

  method PutWords(header: array<Byte>, kind: Byte, ghost t: seq<seq<Byte>>)
    requires header.Length == 512 && Laid(header[..], t)
    requires t[TYPEFLAG] == t[MAGIC] == t[VERSION] == t[GNAME] == t[UNAME] == []
    modifies header
    ensures Laid(header[..], Worded(t, kind))
  {
    hide Laid;
    LaidLength(header[..], t);
    ghost var r := t;
    Put(header, TYPEFLAG, [kind], r);
    r := r[TYPEFLAG := [kind]];
    Put(header, MAGIC, USTAR_MAGIC, r);
    r := r[MAGIC := USTAR_MAGIC];
    Put(header, VERSION, [48, 48], r);
    r := r[VERSION := [48, 48]];
    Put(header, GNAME, ROOT, r);
    r := r[GNAME := ROOT];
    Put(header, UNAME, ROOT, r);
  }

  lemma LaidLength(h: seq<Byte>, t: seq<seq<Byte>>)
    requires Laid(h, t)
    ensures |h| == 512 && |t| == FIELDS
  {
  }

  lemma AllEmpty(h: seq<Byte>, t: seq<seq<Byte>>)
    requires |h| == 512 && |t| == FIELDS
    requires (forall i | 0 <= i < 512 :: h[i] == 0) && forall f | 0 <= f < FIELDS :: t[f] == []
    ensures Laid(h, t)
  {
    hide Offset;
    forall f: nat | f < FIELDS ensures Holds(Field(h, f), t[f]) {
      OffsetsAdd(f);
    }
  }

  lemma ChecksumSmall(h: seq<Byte>)
    requires |h| == 512
    ensures Checksum(h) < Pow8(7)
  {
    hide Sum, Pow8;
    Lengths();
    SumBound(Blanked(h));
  }

  lemma EntriesAre(name: seq<Byte>, kind: Byte, size: nat, text: seq<Byte>)
    ensures var t: seq<seq<Byte>> := seq(FIELDS, i => []);
      Worded(Numbered(t[NAME := name], kind, size), kind)[CHKSUM := text] == Entries(name, kind, size, text)
  {
    hide FormatO;
  }

  lemma SameChecksum(before: seq<Byte>, after: seq<Byte>, t: seq<seq<Byte>>, text: seq<Byte>)
    requires Laid(before, t) && Laid(after, t[CHKSUM := text]) && |text| <= 8
    ensures Checksum(before) == Checksum(after)
  {
    hide Offset, Sum;
    forall i | 0 <= i < 512 && !(Offset(CHKSUM) <= i < Offset(CHKSUM) + 8) ensures before[i] == after[i] {
      var f := FieldOf(i);
      SameField(before, after, t, text, f);
      ByteInField(before, f, i);
      ByteInField(after, f, i);
    }
    ChecksumIgnoresItself(before, after);
  }

  lemma ByteInField(h: seq<Byte>, f: nat, i: nat)
    requires |h| == 512 && f < FIELDS && Offset(f) <= i < Offset(f) + LENGTHS[f]
    ensures 0 <= i - Offset(f) < |Field(h, f)| && Field(h, f)[i - Offset(f)] == h[i]
  {
    hide Offset;
    OffsetsAdd(f);
  }

  /** The field a byte is in. */
  lemma FieldOf(i: nat) returns (f: nat)
    requires i < 512
    ensures f < FIELDS && Offset(f) <= i < Offset(f) + LENGTHS[f]
    ensures f == CHKSUM <==> Offset(CHKSUM) <= i < Offset(CHKSUM) + 8
  {
    f := 0;
    while i >= Offset(f + 1)
      invariant f < FIELDS && Offset(f) <= i
      decreases FIELDS - f
    {
      OffsetsAdd(f);
      f := f + 1;
    }
    OffsetsAdd(f);
  }

  lemma SameField(before: seq<Byte>, after: seq<Byte>, t: seq<seq<Byte>>, text: seq<Byte>, f: nat)
    requires Laid(before, t) && Laid(after, t[CHKSUM := text]) && f < FIELDS && f != CHKSUM
    ensures Field(before, f) == Field(after, f)
  {
    hide Offset, Field;
    var a, b := Field(before, f), Field(after, f);
    assert Holds(a, t[f]) && Holds(b, t[CHKSUM := text][f]);
    FieldLength(before, f);
    FieldLength(after, f);
    forall i | 0 <= i < |a| ensures a[i] == b[i] {
      if i < |t[f]| {
        assert a[i] == a[..|t[f]|][i] && b[i] == b[..|t[f]|][i];
      }
    }
  }

  lemma FieldLength(h: seq<Byte>, f: nat)
    requires |h| == 512 && f < FIELDS
    ensures |Field(h, f)| == LENGTHS[f]
  {
  }

  // ---- parsing a header ----

  datatype Problem = NotUstar | BadVersion | CorruptChksum | ChksumMismatch | NameTooLong
    | BadType | CorruptSize | TooLarge
  datatype Parsed = Eof | Bad(problem: Problem) | File(name: seq<Byte>, kind: Byte, size: nat)

  /** ustar_parse_header */
  function Parse(h: seq<Byte>): Parsed
    requires |h| == 512
  {
    if forall i | 0 <= i < 512 :: h[i] == 0 then Eof
    else if Field(h, MAGIC) != USTAR_MAGIC + [0] then Bad(NotUstar)
    else if Field(h, VERSION) != [48, 48] then Bad(BadVersion)
    else
      var chksum := OctalFrom(Field(h, CHKSUM), 0, 0);
      if chksum.None? then Bad(CorruptChksum)
      else if chksum.value != Checksum(h) then Bad(ChksumMismatch)
      else if Field(h, NAME)[99] != 0 || Field(h, PREFIX)[0] != 0 then Bad(NameTooLong)
      else
        var kind := Field(h, TYPEFLAG)[0];
        if kind != REGULAR && kind != DIRECTORY then Bad(BadType)
        else
          var size := if kind == REGULAR then OctalFrom(Field(h, SIZE), 0, 0) else Some(0);
          if size.None? then Bad(CorruptSize)
          else if size.value > 0x7FFF_FFFF then Bad(TooLarge)
          else File(Stripped(StringIn(Field(h, NAME))), kind, size.value)
  }

  method ParseHeader(header: array<Byte>) returns (r: Parsed)
    requires header.Length == 512
    ensures r == Parse(header[..])
  {
    hide Checksum, OctalFrom, Stripped, StringIn, Offset;
    ghost var h := header[..];
    var zeros := true;
    for i := 0 to 512
      invariant zeros <==> forall k | 0 <= k < i :: header[k] == 0
    {
      if header[i] != 0 {
        zeros := false;
      }
    }
    if zeros {
      return Eof;
    }
    if Field(header[..], MAGIC) != USTAR_MAGIC + [0] {
      return Bad(NotUstar);
    }
    if Field(header[..], VERSION) != [48, 48] {
      return Bad(BadVersion);
    }
    var chksum := ParseOctalField(Field(header[..], CHKSUM));
    if chksum == None {
      return Bad(CorruptChksum);
    }
    var sum := CalculateChksum(header);
    if chksum.value != sum {
      return Bad(ChksumMismatch);
    }
    FieldLength(header[..], NAME);
    FieldLength(header[..], PREFIX);
    FieldLength(header[..], TYPEFLAG);
    if Field(header[..], NAME)[99] != 0 || Field(header[..], PREFIX)[0] != 0 {
      return Bad(NameTooLong);
    }
    var kind := Field(header[..], TYPEFLAG)[0];
    if kind != REGULAR && kind != DIRECTORY {
      return Bad(BadType);
    }
    var size := Some(0);
    if kind == REGULAR {
      size := ParseOctalField(Field(header[..], SIZE));
      if size == None {
        return Bad(CorruptSize);
      }
      if size.value > 0x7FFF_FFFF {
        return Bad(TooLarge);
      }
    }
    var name := StripPrefixes(StringIn(Field(header[..], NAME)));
    return File(name, kind, size.value);
  }

  // ---- there and back ----

  lemma {:induction false} StringInHolds(field: seq<Byte>, s: seq<Byte>)
    requires Holds(field, s) && |s| < |field| && forall i | 0 <= i < |s| :: s[i] != 0
    ensures StringIn(field) == s
    decreases |s|
  {
    if s == [] {
      assert field[0] == 0;
    } else {
      assert field[..|s|][0] == field[0] == s[0];
      assert field[1..][..|s| - 1] == field[..|s|][1..] == s[1..];
      StringInHolds(field[1..], s[1..]);
    }
  }

  /** A field that holds a number in `w` octal digits, with room for the null byte, reads as it. */
  lemma NumberReads(field: seq<Byte>, n: nat, w: nat)
    requires 0 < w < |field| && n < Pow8(w) && n <= 0xFFFF_FFFF && Holds(field, FormatO(n, w))
    ensures OctalFrom(field, 0, 0) == Some(n)
  {
    hide FormatO, Pow8, OctalValue;
    FormatOReads(n, w);
    var digits := FormatO(n, w);
    assert field[0..0 + |digits|] == digits;
    OctalReads(field, 0, 0, digits);
  }

  /** What ustar_parse_header finds in a header made by ustar_make_header: the stripped name, the
      type, and the size, or 0 for a directory. */
  lemma ParseOfHeader(h: seq<Byte>, fileName: seq<Byte>, kind: Byte, size: nat)
    requires (kind == REGULAR || kind == DIRECTORY) && size <= 0x7FFF_FFFF
    requires (forall i | 0 <= i < |fileName| :: fileName[i] != 0) && |Stripped(fileName)| <= 99
    requires IsHeader(h, Stripped(fileName), kind, size)
    ensures Parse(h) == File(Stripped(fileName), kind, if kind == REGULAR then size else 0)
  {
    hide FormatO, Stripped, Checksum, OctalFrom, StringIn, Offset, Field, Laid, Pow8;
    var name := Stripped(fileName);
    StripTwice(fileName);
    HeaderFields(h, name, kind, size);
    StringInHolds(Field(h, NAME), name);
    ChecksumSmall(h);
    Lengths();
    NumberReads(Field(h, CHKSUM), Checksum(h), 7);
    NumberReads(Field(h, SIZE), size, 11);
    NotAllZeros(h);
  }

  lemma NotAllZeros(h: seq<Byte>)
    requires |h| == 512 && Field(h, MAGIC) == USTAR_MAGIC + [0]
    ensures exists i :: 0 <= i < 512 && h[i] != 0
  {
    OffsetsAdd(MAGIC);
    assert Field(h, MAGIC)[0] == h[Offset(MAGIC)];
  }

  lemma HeaderFields(h: seq<Byte>, name: seq<Byte>, kind: Byte, size: nat)
    requires IsHeader(h, name, kind, size) && |name| <= 99
    ensures Field(h, MAGIC) == USTAR_MAGIC + [0] && Field(h, VERSION) == [48, 48] && Field(h, TYPEFLAG) == [kind]
    ensures |Field(h, NAME)| == 100 && Field(h, NAME)[99] == 0 && Holds(Field(h, NAME), name)
    ensures |Field(h, PREFIX)| == 155 && Field(h, PREFIX)[0] == 0
    ensures |Field(h, CHKSUM)| == 8 && Holds(Field(h, CHKSUM), FormatO(Checksum(h), 7))
    ensures |Field(h, SIZE)| == 12 && Holds(Field(h, SIZE), FormatO(size, 11))
  {
    hide FormatO, Checksum, Offset, Field;
    var t := Entries(name, kind, size, FormatO(Checksum(h), 7));
    FieldLength(h, NAME);
    FieldLength(h, MAGIC);
    FieldLength(h, VERSION);
    FieldLength(h, TYPEFLAG);
    FieldLength(h, PREFIX);
    FieldLength(h, CHKSUM);
    FieldLength(h, SIZE);
    assert Holds(Field(h, MAGIC), t[MAGIC]) && Holds(Field(h, VERSION), t[VERSION]);
    assert Holds(Field(h, TYPEFLAG), t[TYPEFLAG]) && Holds(Field(h, PREFIX), t[PREFIX]);
    assert Holds(Field(h, NAME), t[NAME]) && Holds(Field(h, CHKSUM), t[CHKSUM]) && Holds(Field(h, SIZE), t[SIZE]);
    assert Field(h, VERSION)[..2] == Field(h, VERSION) && Field(h, TYPEFLAG)[..1] == Field(h, TYPEFLAG);
    assert Field(h, MAGIC)[..5] == USTAR_MAGIC && Field(h, MAGIC) == Field(h, MAGIC)[..5] + [Field(h, MAGIC)[5]];
  }

  // ---- corruption ----

  lemma {:induction false} SumOneByte(s: seq<Byte>, k: nat, c: Byte)
    requires k < |s|
    ensures Sum(s[k := c]) == Sum(s) - s[k] as nat + c as nat
  {
    var last := |s| - 1;
    if k == last {
      assert s[k := c][..last] == s[..last];
    } else {
      SumOneByte(s[..last], k, c);
      assert s[k := c][..last] == s[..last][k := c];
    }
  }

  /** A header that is accepted is not accepted any more once one byte of it, other than the
      checksum's own, has changed. */
  lemma CorruptionDetected(h: seq<Byte>, k: nat, c: Byte)
    requires |h| == 512 && Parse(h).File? && k < 512 && c != h[k]
    requires !(Offset(CHKSUM) <= k < Offset(CHKSUM) + 8)
    ensures !Parse(h[k := c]).File?
  {
    hide Sum, OctalFrom, Stripped, StringIn;
    SumOneByte(Blanked(h), k, c);
    assert Blanked(h[k := c]) == Blanked(h)[k := c];
    assert Field(h[k := c], CHKSUM) == Field(h, CHKSUM);
  }
}
