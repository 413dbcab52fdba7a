/** What the conversions of printf() (lib/stdio.c) put out, said without the functions that compute
    it: flags, width and precision by their characters, strings by their place in the text, numbers by
    reading their digits back. */
module PrintfLaws {
  import opened Bytes
  import opened Nonlinear
  import opened Options
  import opened Formatting
  import opened Printf

  // ---- the options of a conversion ----

  /** The number that decimal digits stand for. */
  function NumberOf(ds: seq<Byte>): nat
    requires AllDigits(ds)
  {
    if ds == [] then 0 else 10 * NumberOf(ds[..|ds| - 1]) + ds[|ds| - 1] as nat - 48
  }

  predicate AllDigits(ds: seq<Byte>) {
    forall i | 0 <= i < |ds| :: IsDigit(ds[i])
  }

  lemma {:induction false} DigitsFrom(ds: seq<Byte>, rest: seq<Byte>, done: seq<Byte>)
    requires AllDigits(ds) && AllDigits(done) && (rest == [] || !IsDigit(rest[0]))
    ensures Digits(ds + rest, NumberOf(done)) == (NumberOf(done + ds), rest)
  {
    if ds == [] {
      assert ds + rest == rest && done + ds == done;
    } else {
      assert (ds + rest)[0] == ds[0] && (ds + rest)[1..] == ds[1..] + rest;
      assert (done + [ds[0]])[..|done|] == done;
      DigitsFrom(ds[1..], rest, done + [ds[0]]);
      assert done + [ds[0]] + ds[1..] == done + ds;
    }
  }

  /** Flags, each by its character. */
  function WithFlags(c: Conversion, fs: seq<Byte>): Conversion {
    c.(minus := c.minus || 45 in fs, plus := c.plus || 43 in fs, space := c.space || 32 in fs,
       pound := c.pound || 35 in fs, zero := c.zero || 48 in fs, group := c.group || 39 in fs)
  }

  lemma OneFlagMore(c: Conversion, ch: Byte, fs: seq<Byte>)
    requires IsFlag(ch)
    ensures WithFlags(SetFlag(c, ch), fs) == WithFlags(c, [ch] + fs)
  {
    assert forall x :: x in [ch] + fs <==> x == ch || x in fs;
  }

  lemma {:induction false} FlagsAre(fs: seq<Byte>, rest: seq<Byte>, c: Conversion)
    requires (forall i | 0 <= i < |fs| :: IsFlag(fs[i])) && (rest == [] || !IsFlag(rest[0]))
    ensures Flags(fs + rest, c) == (WithFlags(c, fs), rest)
  {
    if fs == [] {
      assert fs + rest == rest;
    } else {
      hide WithFlags, SetFlag, IsFlag;
      assert (fs + rest)[0] == fs[0] && (fs + rest)[1..] == fs[1..] + rest;
      FlagsAre(fs[1..], rest, SetFlag(c, fs[0]));
      OneFlagMore(c, fs[0], fs[1..]);
      assert fs == [fs[0]] + fs[1..];
    }
  }

  /** A conversion: flags, then digits for a width, then perhaps a period and digits for a precision,
      then letters for the type of the argument, then its character. */
  datatype Spec = Spec(flags: seq<Byte>, width: seq<Byte>, precision: Option<seq<Byte>>, kind: seq<Byte>, ch: Byte)

  predicate SpecOk(s: Spec) {
    && (forall i | 0 <= i < |s.flags| :: IsFlag(s.flags[i])) && AllDigits(s.width)
    && (s.width != [] ==> s.width[0] != 48) && (s.precision.Some? ==> AllDigits(s.precision.value))
    && s.kind in {[], [104], [104, 104], [106], [108], [108, 108], [116], [122]}
    && s.ch in {99, 100, 105, 111, 112, 115, 117, 120, 88}
  }

  /** How many values the type of the argument has. */
  function Values(kind: seq<Byte>): nat {
    if kind == [104, 104] then 0x100
    else if kind == [104] then 0x1_0000
    else if kind == [106] || kind == [108, 108] then 0x1_0000_0000_0000_0000
    else 0x1_0000_0000
  }

  function LengthOf(kind: seq<Byte>): Length {
    if kind == [104, 104] then CHAR
    else if kind == [104] then SHORT
    else if kind == [106] then INTMAX
    else if kind == [108] then LONG
    else if kind == [108, 108] then LONGLONG
    else if kind == [116] then PTRDIFFT
    else if kind == [122] then SIZET
    else INT
  }

  function PrecisionText(s: Spec): seq<Byte> {
    if s.precision.Some? then [46] + s.precision.value else []
  }

  /** The format that it is, after the percent sign. */
  function SpecText(s: Spec): seq<Byte> {
    s.flags + (s.width + (PrecisionText(s) + (s.kind + [s.ch])))
  }

  /** What it asks for: a minus flag overrides a zero flag, and so does a precision; a plus flag
      overrides a blank. */
  function Asked(s: Spec): Conversion
    requires SpecOk(s)
  {
    Conversion(45 in s.flags, 43 in s.flags, 32 in s.flags && 43 !in s.flags, 35 in s.flags,
               48 in s.flags && 45 !in s.flags && s.precision.None?, 39 in s.flags, NumberOf(s.width),
               if s.precision.Some? then NumberOf(s.precision.value) else -1)
  }

  lemma SpecParses(s: Spec, args: seq<Arg>)
    requires SpecOk(s)
    ensures ParseConversion(SpecText(s), args) == Some(Directive(Asked(s), LengthOf(s.kind), [s.ch], args))
    ensures SpecText(s) != [] && SpecText(s)[0] != PERCENT
  {
    hide Flags, Digits, NumberOf, Width, Precision, IsFlag, PrecisionText, WithFlags, TypeOf, Cleared, Asked, Precise,
      SpecOk,
      LengthOf;
    var after := PrecisionText(s) + (s.kind + [s.ch]);
    RestIsNoFlag(s);
    FlagsAre(s.flags, s.width + after, PLAIN);
    WidthParses(s, after, args);
    PrecisionParses(s, args);
    AskedIs(s);
    assert (s.kind + [s.ch])[|s.kind|..] == [s.ch];
  }

  lemma AskedIs(s: Spec)
    requires SpecOk(s)
    ensures Asked(s) == Precise(s, Cleared(WithFlags(PLAIN, s.flags)).(width := NumberOf(s.width)))
  {
    hide NumberOf;
  }

  lemma TypeIs(s: Spec)
    requires SpecOk(s)
    ensures TypeOf(s.kind + [s.ch]) == (LengthOf(s.kind), |s.kind|) && !IsDigit((s.kind + [s.ch])[0])
    ensures (s.kind + [s.ch])[0] != 42 && (s.kind + [s.ch])[0] != 46 && !IsFlag((s.kind + [s.ch])[0])
    ensures (s.kind + [s.ch])[0] != PERCENT
  {
    var f := s.kind + [s.ch];
    assert |s.kind| == 0 ==> f == [s.ch];
    assert |s.kind| == 1 ==> f == [s.kind[0], s.ch];
    assert |s.kind| == 2 ==> f == [s.kind[0], s.kind[1], s.ch];
  }

  lemma RestIsNoFlag(s: Spec)
    requires SpecOk(s)
    ensures var rest := s.width + (PrecisionText(s) + (s.kind + [s.ch])); rest != [] && !IsFlag(rest[0])
    ensures forall i | 0 <= i < |s.flags| :: IsFlag(s.flags[i])
    ensures TypeOf(s.kind + [s.ch]) == (LengthOf(s.kind), |s.kind|)
    ensures SpecText(s) != [] && SpecText(s)[0] != PERCENT
  {
    TypeIs(s);
    var after := PrecisionText(s) + (s.kind + [s.ch]);
    assert (s.width + after)[0] == if s.width != [] then s.width[0] else after[0];
    assert SpecText(s)[0] == if s.flags != [] then s.flags[0] else (s.width + after)[0];
  }

  lemma WidthParses(s: Spec, after: seq<Byte>, args: seq<Arg>)
    requires SpecOk(s) && after == PrecisionText(s) + (s.kind + [s.ch])
    ensures forall c :: Width(Directive(c, INT, s.width + after, args))
                        == Some(Directive(c.(width := NumberOf(s.width)), INT, after, args))
  {
    hide Digits, NumberOf;
    TypeIs(s);
    assert after[0] == if s.precision.Some? then 46 else (s.kind + [s.ch])[0];
    DigitsFrom(s.width, after, []);
    NothingIsZero();
    assert [] + s.width == s.width;
    assert (s.width + after)[0] == if s.width != [] then s.width[0] else after[0];
  }

  lemma NothingIsZero()
    ensures NumberOf([]) == 0
  {
  }

  function Precise(s: Spec, c: Conversion): Conversion
    requires SpecOk(s)
  {
    if s.precision.Some? then c.(precision := NumberOf(s.precision.value), zero := false) else c.(precision := -1)
  }

  lemma PrecisionParses(s: Spec, args: seq<Arg>)
    requires SpecOk(s)
    ensures forall c :: 
      Precision(Directive(c, INT, PrecisionText(s) + (s.kind + [s.ch]), args))
      == Some(Directive(Precise(s, c), INT, s.kind + [s.ch], args))
  {
    hide Digits, NumberOf;
    TypeIs(s);
    var after := s.kind + [s.ch];
    if s.precision.Some? {
      var ds := s.precision.value;
      var f := PrecisionText(s) + after;
      assert f[0] == 46 && f[1..] == ds + after;
      DigitsFrom(ds, after, []);
      NothingIsZero();
      assert [] + ds == ds;
      assert (ds + after)[0] == if ds != [] then ds[0] else after[0];
    } else {
      assert PrecisionText(s) + after == after;
    }
  }

  /** So a format that is one conversion prints what that conversion puts out. */
  lemma OneSpec(s: Spec, args: seq<Arg>)
    requires SpecOk(s)
    ensures Print([PERCENT] + SpecText(s), args) == Convert(s.ch, Directive(Asked(s), LengthOf(s.kind), [s.ch], args))
  {
    hide ParseConversion, Print, Convert, SpecText;
    SpecParses(s, args);
    OneDirective(SpecText(s), args, Directive(Asked(s), LengthOf(s.kind), [s.ch], args));
  }

  // ---- strings ----

  /** `t` is `shown`, with blanks up to the width, behind it under a minus flag and else in front. */
  predicate Padded(t: seq<Byte>, shown: seq<Byte>, width: nat, minus: bool) {
    && |t| == (if width > |shown| then width else |shown|)
    && if minus then t[..|shown|] == shown && forall i | |shown| <= i < |t| :: t[i] == BLANK
       else t[|t| - |shown|..] == shown && forall i | 0 <= i < |t| - |shown| :: t[i] == BLANK
  }

  /** %s shows the string, or as much of it as the precision says, if there is one. */
  lemma PercentS(s: Spec, str: seq<Byte>)
    requires SpecOk(s) && s.ch == 115
    ensures var r := Print([PERCENT] + SpecText(s), [Text(str)]);
      && r.Some? && r.value.args == []
      && var n :=
           if s.precision.Some? && NumberOf(s.precision.value) < |str| then NumberOf(s.precision.value) else |str|;
         Padded(r.value.text, str[..n], NumberOf(s.width), 45 in s.flags)
  {
    hide Print, SpecText, NumberOf;
    OneSpec(s, [Text(str)]);
    assert [Text(str)][1..] == [];
    assert str[..|str|] == str;
  }

  /** A plain %s puts out just the string. */
  lemma PlainPercentS(str: seq<Byte>)
    ensures Print([PERCENT, 115], [Text(str)]) == Some(Printed(str, []))
  {
    hide Print;
    var s := Spec([], [], None, [], 115);
    assert [PERCENT] + SpecText(s) == [PERCENT, 115];
    PercentS(s, str);
    var t := Print([PERCENT, 115], [Text(str)]).value.text;
    assert t == t[|t| - |str|..] && str[..|str|] == str;
  }

  /** A null pointer prints as (null). */
  lemma PercentSOfNull(s: Spec)
    requires SpecOk(s) && s.ch == 115
    ensures Print([PERCENT] + SpecText(s), [NullText])
            == Print([PERCENT] + SpecText(s), [Text([40, 110, 117, 108, 108, 41])])
  {
    hide Print, SpecText, NumberOf;
    OneSpec(s, [NullText]);
    OneSpec(s, [Text([40, 110, 117, 108, 108, 41])]);
    assert [NullText][1..] == [Text([40, 110, 117, 108, 108, 41])][1..];
  }

  /** %c shows the lowest byte of its argument. */
  lemma PercentC(s: Spec, n: int)
    requires SpecOk(s) && s.ch == 99
    ensures var r := Print([PERCENT] + SpecText(s), [Number(n)]);
      r.Some? && r.value.args == [] && Padded(r.value.text, [(n % 256) as Byte], NumberOf(s.width), 45 in s.flags)
  {
    hide Print, SpecText, NumberOf;
    OneSpec(s, [Number(n)]);
    assert [Number(n)][1..] == [];
  }

  /** A format without a percent sign prints itself. */
  lemma {:induction false} PlainText(f: seq<Byte>, args: seq<Arg>)
    requires PERCENT !in f
    ensures Print(f, args) == Some(Printed(f, args))
  {
    if f != [] {
      PlainText(f[1..], args);
      assert [f[0]] + f[1..] == f;
    }
  }

  // ---- numbers ----

  /** The value of a digit, in either case. */
  function DigitValue(ch: Byte): int {
    if IsDigit(ch) then ch as int - 48 else if ch >= 97 then ch as int - 87 else ch as int - 55
  }

  /** A digit of a base, capital letters if `large`. */
  predicate IsDigitOf(ch: Byte, base: nat, large: bool) {
    0 <= DigitValue(ch) < base && (IsDigit(ch) || if large then 65 <= ch <= 70 else 97 <= ch <= 102)
  }

  /** What digits stand for in a base. */
  function ReadIn(ds: seq<Byte>, base: nat): int {
    if ds == [] then 0 else base * ReadIn(ds[..|ds| - 1], base) + DigitValue(ds[|ds| - 1])
  }

  lemma DigitIs(d: nat, b: Base)
    requires BaseOk(b) && d < b.base
    ensures IsDigitOf(Digit(d, b), b.base, b.x == LARGE_X) && DigitValue(Digit(d, b)) == d
    ensures d > 0 ==> Digit(d, b) != ZERO
  {
  }

  /** The digits of a number read back as it, and there is no zero in front. */
  lemma {:induction false} DigitsRead(v: nat, b: Base, cnt: nat)
    requires BaseOk(b)
    ensures var ds := Flip(Reversed(v, b, false, cnt));
      && (forall i | 0 <= i < |ds| :: IsDigitOf(ds[i], b.base, b.x == LARGE_X)) && ReadIn(ds, b.base) == v
      && (v > 0 ==> ds != [] && ds[0] != ZERO) && (v == 0 ==> ds == [])
    decreases v
  {
    hide Flip, Digit, IsDigitOf, DigitValue, LastDigit, OtherDigits;
    if v == 0 {
      NoDigits(b, false, cnt);
      FlipLength([]);
    } else {
      Formatting.OneDigit(v, b, false, cnt);
      NoCommas(b, cnt);
      var d: nat, m: nat := LastDigit(v, b), OtherDigits(v, b);
      var rest := Reversed(m, b, false, cnt + 1);
      DigitsRead(m, b, cnt + 1);
      DigitIs(d, b);
      FlipStep(rest, Digit(d, b));
      var ds := Flip(rest) + [Digit(d, b)];
      assert Reversed(v, b, false, cnt) == [Digit(d, b)] + rest;
      assert ds[..|ds| - 1] == Flip(rest);
      if m == 0 {
        MulZero(b.base);
        assert v == d;
      }
    }
  }

  lemma MulZero(x: int)
    ensures x * 0 == 0
  {
  }

  lemma NoCommas(b: Base, cnt: nat)
    requires BaseOk(b)
    ensures !CommaDue(b, false, cnt)
  {
  }

  lemma {:induction false} ZerosInFront(k: nat, ds: seq<Byte>, base: nat)
    ensures ReadIn(Repeat(ZERO, k) + ds, base) == ReadIn(ds, base)
    decreases |ds|, k
  {
    var s := Repeat(ZERO, k) + ds;
    if ds != [] {
      ZerosInFront(k, ds[..|ds| - 1], base);
      assert s[..|s| - 1] == Repeat(ZERO, k) + ds[..|ds| - 1];
    } else if k > 0 {
      ZerosInFront(k - 1, [], base);
      assert s[..|s| - 1] == Repeat(ZERO, k - 1) + [];
      MulZero(base);
    }
  }

  /** Digits of `v` in a base: at least so many, and no zero in front of more. */
  predicate Shows(ds: seq<Byte>, v: nat, base: nat, large: bool, atLeast: nat) {
    && (forall i | 0 <= i < |ds| :: IsDigitOf(ds[i], base, large)) && ReadIn(ds, base) == v
    && |ds| >= atLeast && (|ds| > atLeast ==> ds[0] != ZERO)
  }

  /** At least one digit, or as many as the precision says, up to 63. */
  function AtLeast(c: Conversion): nat {
    if c.precision < 0 then 1 else if c.precision < 63 then c.precision else 63
  }

  lemma BodyShows(v: nat, b: Base, c: Conversion)
    requires BaseOk(b) && !c.group && !(c.pound && b.base == 8)
    ensures Shows(Flip(Body(v, b, c)), v, b.base, b.x == LARGE_X, AtLeast(c))
  {
    hide Reversed, Flip, IsDigitOf, ReadIn;
    var digits := Reversed(v, b, false, 0);
    DigitsRead(v, b, 0);
    FlipLength(digits);
    var k := AtLeast(c) - |digits|;
    FlipZeros(digits, k);
    BodyIs(v, b, c);
    if k > 0 {
      ZerosInFront(k, Flip(digits), b.base);
      ZeroIsDigit(b);
    } else {
      assert digits + [] == digits && digits + Repeat(ZERO, k) == digits;
    }
  }

  lemma BodyIs(v: nat, b: Base, c: Conversion)
    requires BaseOk(b) && !c.group && !(c.pound && b.base == 8)
    ensures var digits := Reversed(v, b, false, 0); Body(v, b, c) == digits + Repeat(ZERO, AtLeast(c) - |digits|)
  {
    hide Reversed;
  }

  lemma ZeroIsDigit(b: Base)
    requires BaseOk(b)
    ensures IsDigitOf(ZERO, b.base, b.x == LARGE_X)
  {
  }

  lemma FlipZeros(s: seq<Byte>, k: int)
    ensures Flip(s + Repeat(ZERO, k)) == Repeat(ZERO, k) + Flip(s)
  {
    assert forall i | 0 <= i < |s| + |Repeat(ZERO, k)| ::
      Flip(s + Repeat(ZERO, k))[i] == (Repeat(ZERO, k) + Flip(s))[i];
  }

  /** The text of a number: sign, prefix and digits, in a field of the width, on the left of it under a
      minus flag, and with zeros instead of blanks, behind the prefix, under a zero flag. */
  predicate InField(t: seq<Byte>, sign: seq<Byte>, prefix: seq<Byte>, ds: seq<Byte>, c: Conversion) {
    var pad := c.width - |sign| - |prefix| - |ds|;
    if c.minus then t == sign + prefix + ds + Repeat(BLANK, pad)
    else if c.zero then t == sign + prefix + Repeat(ZERO, pad) + ds
    else t == Repeat(BLANK, pad) + sign + prefix + ds
  }

  lemma FormattedIs(v: nat, signed: bool, negative: bool, b: Base, c: Conversion)
    requires BaseOk(b) && !(c.zero && c.minus)
    ensures InField(Formatted(v, signed, negative, b, c), Sign(signed, negative, c), HexPrefix(v, b, c),
                    Flip(Body(v, b, c)), c)
  {
    hide Body, Flip, Sign, HexPrefix;
    FlipLength(Body(v, b, c));
  }

  /** A number of the type, which is the argument but for a multiple of the number of its values. */
  predicate InType(v: int, n: int, values: nat, signed: bool)
    requires values > 0
  {
    (v - n) % values == 0 && if signed then 0 <= 2 * v + values < 2 * values else 0 <= v < values
  }

  lemma TypesCut(n: int, kind: seq<Byte>)
    requires kind in {[], [104], [104, 104], [106], [108], [108, 108], [116], [122]}
    ensures InType(Signed(n, LengthOf(kind)), n, Values(kind), true)
    ensures InType(Unsigned(n, LengthOf(kind)), n, Values(kind), false)
  {
    hide InType;
    BytesCut(n);
    WordsCut(n);
  }

  lemma Cut(n: int, values: nat)
    requires values > 0
    ensures var u := n % values; 0 <= u < values && (u - n) % values == 0 && (u - values - n) % values == 0
  {
    DivBounds(n, values);
    Multiple(0 - n / values, values, n % values - n);
    Multiple(0 - n / values - 1, values, n % values - values - n);
  }

  lemma Multiple(k: int, d: nat, x: int)
    requires d > 0 && x == k * d
    ensures x % d == 0
  {
    DivUnique(x, d, k);
    DivBounds(x, d);
  }

  lemma BytesCut(n: int)
    ensures InType(Signed(n, CHAR), n, 0x100, true) && InType(Unsigned(n, CHAR), n, 0x100, false)
    ensures InType(Signed(n, SHORT), n, 0x1_0000, true) && InType(Unsigned(n, SHORT), n, 0x1_0000, false)
  {
    Cut(n, 0x100);
    Cut(n, 0x1_0000);
  }

  lemma WordsCut(n: int)
    ensures InType(Signed(n, INT), n, 0x1_0000_0000, true) && InType(Unsigned(n, INT), n, 0x1_0000_0000, false)
    ensures InType(Signed(n, LONGLONG), n, 0x1_0000_0000_0000_0000, true)
    ensures InType(Unsigned(n, LONGLONG), n, 0x1_0000_0000_0000_0000, false)
    ensures forall l | l in {INT, LONG, PTRDIFFT, SIZET} ::
      Signed(n, l) == Signed(n, INT) && Unsigned(n, l) == Unsigned(n, INT)
    ensures Signed(n, INTMAX) == Signed(n, LONGLONG) && Unsigned(n, INTMAX) == Unsigned(n, LONGLONG)
  {
    Cut(n, 0x1_0000_0000);
    Cut(n, 0x1_0000_0000_0000_0000);
  }

  /** The sign of %d and %i. */
  function SignShown(s: Spec, v: int): seq<Byte> {
    if v < 0 then [MINUS] else if 43 in s.flags then [PLUS] else if 32 in s.flags then [BLANK] else []
  }

  /** %d and %i show the argument, cut to its type, in decimal. */
  lemma PercentSigned(s: Spec, n: int) returns (v: int, ds: seq<Byte>)
    requires SpecOk(s) && s.ch in {100, 105} && 39 !in s.flags
    ensures InType(v, n, Values(s.kind), true)
    ensures Shows(ds, if v < 0 then -v else v, 10, false, AtLeast(Asked(s)))
    ensures var r := Print([PERCENT] + SpecText(s), [Number(n)]);
      r.Some? && r.value.args == [] && InField(r.value.text, SignShown(s, v), [], ds, Asked(s))
  {
    hide Print, SpecText, NumberOf, Formatted, Body, Shows, InField, InType, Signed, LengthOf, Values, Flip, AtLeast;
    v := Signed(n, LengthOf(s.kind));
    TypesCut(n, s.kind);
    var m: nat := if v < 0 then -v else v;
    OneSpec(s, [Number(n)]);
    assert [Number(n)][1..] == [];
    FormattedIs(m, true, v < 0, DECIMAL, Asked(s));
    BodyShows(m, DECIMAL, Asked(s));
    ds := Flip(Body(m, DECIMAL, Asked(s)));
  }

  /** The prefix of %#x and %#X. */
  function PrefixShown(s: Spec, v: int): seq<Byte> {
    if 35 in s.flags && v != 0 && s.ch in {120, 88} then [ZERO, s.ch] else []
  }

  function BaseOf(ch: Byte): nat {
    if ch == 111 then 8 else if ch == 117 then 10 else 16
  }

  /** %o, %u, %x and %X show the argument, cut to its type, in their base and case. */
  lemma PercentUnsigned(s: Spec, n: int) returns (v: int, ds: seq<Byte>)
    requires SpecOk(s) && s.ch in {111, 117, 120, 88} && 39 !in s.flags && !(s.ch == 111 && 35 in s.flags)
    ensures InType(v, n, Values(s.kind), false) && v >= 0
    ensures Shows(ds, v, BaseOf(s.ch), s.ch == 88, AtLeast(Asked(s)))
    ensures var r := Print([PERCENT] + SpecText(s), [Number(n)]);
      r.Some? && r.value.args == [] && InField(r.value.text, [], PrefixShown(s, v), ds, Asked(s))
  {
    hide Print, SpecText, NumberOf, Formatted, Body, Shows, InField, InType, Unsigned, LengthOf, Values, Flip, AtLeast;
    v := Unsigned(n, LengthOf(s.kind));
    TypesCut(n, s.kind);
    OneSpec(s, [Number(n)]);
    assert [Number(n)][1..] == [];
    var b := if s.ch == 111 then OCTAL else if s.ch == 117 then DECIMAL else if s.ch == 120 then HEX else LARGE_HEX;
    FormattedIs(v, false, false, b, Asked(s));
    BodyShows(v, b, Asked(s));
    ds := Flip(Body(v, b, Asked(s)));
  }

  /** %p shows what %#x does, with the same width and precision. */
  lemma PercentP(s: Spec, n: int)
    requires SpecOk(s) && s.ch == 112
    ensures var x := s.(flags := [35], kind := [], ch := 120);
      Print([PERCENT] + SpecText(s), [Number(n)]) == Print([PERCENT] + SpecText(x), [Number(n)])
  {
    hide Print, SpecText, NumberOf, Formatted, Unsigned;
    var x := s.(flags := [35], kind := [], ch := 120);
    OneSpec(s, [Number(n)]);
    OneSpec(x, [Number(n)]);
  }

  /** A flag # under %o puts a zero in front where there is none. */
  lemma OctalZero(v: nat, c: Conversion)
    requires c.pound
    ensures var ds, plain := Flip(Body(v, OCTAL, c)), Flip(Body(v, OCTAL, c.(pound := false)));
      ds == if plain != [] && plain[0] == ZERO then plain else [ZERO] + plain
  {
    hide Reversed;
    var body := Body(v, OCTAL, c.(pound := false));
    if body == [] || body[|body| - 1] != ZERO {
      FlipBack(body, ZERO);
    }
  }

  lemma FlipBack(s: seq<Byte>, ch: Byte)
    ensures Flip(s + [ch]) == [ch] + Flip(s)
  {
  }

  // ---- groups of digits ----

  /** Without the commas. */
  function NoComma(s: seq<Byte>): seq<Byte> {
    if s == [] then [] else (if s[0] == COMMA then [] else [s[0]]) + NoComma(s[1..])
  }

  /** How many digits come before the next comma, when `cnt` have been written. */
  function Ahead(b: Base, cnt: nat): nat
    requires b.group in {3, 4}
  {
    if cnt == 0 then b.group else if b.group == 3 then (3 - cnt % 3) % 3 else (4 - cnt % 4) % 4
  }

  lemma AheadStep(b: Base, cnt: nat)
    requires BaseOk(b) && b.group in {3, 4}
    ensures CommaDue(b, true, cnt) <==> Ahead(b, cnt) == 0
    ensures Ahead(b, cnt) <= b.group
    ensures Ahead(b, cnt + 1) == if Ahead(b, cnt) == 0 then b.group - 1 else Ahead(b, cnt) - 1
  {
  }

  /** The place of a character in its group and the comma in front of that. */
  function Place(i: nat, group: nat): nat {
    if group == 3 then i % 4 else i % 5
  }

  lemma PlaceStep(i: nat, group: nat)
    requires group in {3, 4}
    ensures Place(0, group) == 0 && Place(i + 1, group) == if Place(i, group) == group then 0 else Place(i, group) + 1
  {
  }

  predicate CommasAt(s: seq<Byte>, group: nat, o: nat) {
    forall i: nat | i < |s| :: s[i] == COMMA <==> Place(i, group) == o
  }

  lemma DigitInFront(ch: Byte, s: seq<Byte>, group: nat, o: nat)
    requires group in {3, 4} && 0 < o <= group && ch != COMMA && CommasAt(s, group, o - 1)
    ensures CommasAt([ch] + s, group, o)
  {
    hide Place;
    PlaceStep(0, group);
    forall i: nat | i < 1 + |s| ensures ([ch] + s)[i] == COMMA <==> Place(i, group) == o {
      if i > 0 {
        PlaceStep(i - 1, group);
        assert ([ch] + s)[i] == s[i - 1];
      }
    }
  }

  lemma CommaInFront(s: seq<Byte>, group: nat)
    requires group in {3, 4} && CommasAt(s, group, group)
    ensures CommasAt([COMMA] + s, group, 0)
  {
    hide Place;
    PlaceStep(0, group);
    forall i: nat | i < 1 + |s| ensures ([COMMA] + s)[i] == COMMA <==> Place(i, group) == 0 {
      if i > 0 {
        PlaceStep(i - 1, group);
        assert ([COMMA] + s)[i] == s[i - 1];
      }
    }
  }

  /** Under a flag ', commas stand between groups of digits, counted from the last digit, and the digits
      are those without the flag. */
  lemma {:induction false} GroupsAre(v: nat, b: Base, cnt: nat)
    requires BaseOk(b) && b.group in {3, 4}
    ensures var s := Reversed(v, b, true, cnt);
      && NoComma(s) == Reversed(v, b, false, cnt) && (s != [] ==> s[|s| - 1] != COMMA)
      && CommasAt(s, b.group, Ahead(b, cnt))
    decreases v
  {
    hide Digit, LastDigit, OtherDigits, NoComma, Ahead, CommasAt, CommaDue;
    if v == 0 {
      NoDigits(b, true, cnt);
      NoDigits(b, false, cnt);
      EmptyNoComma();
      NoneAt(b.group, Ahead(b, cnt));
    } else {
      var s := Reversed(v, b, true, cnt);
      Formatting.OneDigit(v, b, true, cnt);
      Formatting.OneDigit(v, b, false, cnt);
      NoCommas(b, cnt);
      var d, m := LastDigit(v, b), OtherDigits(v, b);
      var rest := Reversed(m, b, true, cnt + 1);
      GroupsAre(m, b, cnt + 1);
      AheadStep(b, cnt);
      DigitNoComma(d, b);
      OneMoreNoComma(Digit(d, b), rest);
      if CommaDue(b, true, cnt) {
        assert s == [COMMA] + ([Digit(d, b)] + rest);
        OneMoreNoComma(COMMA, [Digit(d, b)] + rest);
        DigitInFront(Digit(d, b), rest, b.group, b.group);
        CommaInFront([Digit(d, b)] + rest, b.group);
      } else {
        assert s == [Digit(d, b)] + rest;
        DigitInFront(Digit(d, b), rest, b.group, Ahead(b, cnt));
      }
    }
  }

  lemma NoneAt(group: nat, o: nat)
    ensures CommasAt([], group, o)
  {
  }

  lemma EmptyNoComma()
    ensures NoComma([]) == []
  {
  }

  lemma DigitNoComma(d: nat, b: Base)
    requires d < 16
    ensures Digit(d, b) != COMMA
  {
  }

  lemma OneMoreNoComma(ch: Byte, s: seq<Byte>)
    ensures NoComma([ch] + s) == (if ch == COMMA then [] else [ch]) + NoComma(s)
  {
    assert ([ch] + s)[1..] == s;
  }

  // ---- a width from the arguments ----

  /** A star takes the width from the arguments; a negative one asks for a minus flag. */
  lemma StarWidth(c: Conversion, rest: seq<Byte>, w: int, args: seq<Arg>)
    requires -0x8000_0000 <= w < 0x8000_0000
    ensures Width(Directive(c, INT, [42] + rest, [Number(w)] + args))
            == Some(Directive(c.(width := if w < 0 then -w else w, minus := c.minus || w < 0), INT, rest, args))
  {
    assert ([42] + rest)[1..] == rest && ([Number(w)] + args)[1..] == args;
    InRange(w);
  }

  /** A number takes its width, or what it needs if that is more, except when the zero flag meets a minus
      that comes from a negative argument: then it is padded twice, with zeros and with blanks. */
  lemma FieldWidth(v: nat, signed: bool, negative: bool, b: Base, c: Conversion)
    requires BaseOk(b)
    ensures var core := |Sign(signed, negative, c)| + |HexPrefix(v, b, c)| + |Body(v, b, c)|;
      var pad := if c.width > core then c.width - core else 0;
      |Formatted(v, signed, negative, b, c)| == core + pad + if c.zero && c.minus then pad else 0
  {
    hide Body, Sign, HexPrefix;
  }

  /** "%0*d" of -3 and 7: five characters. */
  lemma PaddedTwice()
    ensures Print([PERCENT, 48, 42, 100], [Number(-3), Number(7)]) == Some(Printed([48, 48, 55, 32, 32], []))
  {
    hide Formatted, Print, ParseConversion, Reversed;
    var f, args := [48, 42, 100], [Number(-3), Number(7)];
    var c := PLAIN.(zero := true, minus := true, width := 3);
    StarParses(f, args, c);
    OneDirective(f, args, Directive(c, INT, [100], [Number(7)]));
    assert [PERCENT] + f == [PERCENT, 48, 42, 100] && [Number(7)][1..] == [];
    InRange(7);
    SevenIs(c);
  }

  lemma StarParses(f: seq<Byte>, args: seq<Arg>, c: Conversion)
    requires f == [48, 42, 100] && args == [Number(-3), Number(7)]
    requires c == PLAIN.(zero := true, minus := true, width := 3)
    ensures ParseConversion(f, args) == Some(Directive(c, INT, [100], [Number(7)]))
  {
    var z := PLAIN.(zero := true);
    assert f[1..] == [42, 100] && f == [48] + [42, 100];
    FlagsAre([48], [42, 100], PLAIN);
    assert [48] + [42, 100] == f && WithFlags(PLAIN, [48]) == z;
    StarWidth(z, [100], -3, [Number(7)]);
    assert [42] + [100] == [42, 100] && [Number(-3)] + [Number(7)] == args;
    assert [100][0..] == [100];
  }

  lemma SevenIs(c: Conversion)
    requires c == PLAIN.(zero := true, minus := true, width := 3)
    ensures Formatted(7, true, false, DECIMAL, c) == [48, 48, 55, 32, 32]
  {
    Formatting.OneDigit(7, DECIMAL, false, 0);
    NoDigits(DECIMAL, false, 1);
    assert LastDigit(7, DECIMAL) == 7 && OtherDigits(7, DECIMAL) == 0;
    assert Reversed(7, DECIMAL, false, 0) == [55];
    assert Body(7, DECIMAL, c) == [55];
    assert Flip([55]) == [55];
  }

  // ---- atoi ----

  /** Wrapping forgets multiples of 2^32. */
  lemma WrapPeriod(x: int, k: int)
    ensures Wrap32(x + k * 0x1_0000_0000) == Wrap32(x)
  {
    var b := 0x1_0000_0000;
    var y := x + 0x8000_0000;
    DivBounds(y, b);
    DivUnique(y + k * b, b, y / b + k);
    DivBounds(y + k * b, b);
  }

  lemma WrapInside(x: int, m: int, d: int)
    ensures Wrap32(Wrap32(x) * m - d) == Wrap32(x * m - d)
  {
    var b := 0x1_0000_0000;
    var y := x + 0x8000_0000;
    DivBounds(y, b);
    var k := 0 - y / b;
    assert Wrap32(x) == x + k * b;
    MulDistribute(x, k * b, m);
    MulAssoc(m, k, b);
    WrapPeriod(x * m - d, m * k);
  }

  lemma {:induction false} DigitsSubtract(ds: seq<Byte>, rest: seq<Byte>, done: seq<Byte>)
    requires AllDigits(ds) && AllDigits(done) && (rest == [] || !IsDigit(rest[0]))
    ensures DigitsValue(ds + rest, Wrap32(0 - NumberOf(done))) == Wrap32(0 - NumberOf(done + ds))
  {
    hide Wrap32;
    if ds == [] {
      assert ds + rest == rest && done + ds == done;
    } else {
      var more := done + [ds[0]];
      assert (ds + rest)[0] == ds[0] && (ds + rest)[1..] == ds[1..] + rest;
      assert more[..|done|] == done;
      WrapInside(0 - NumberOf(done), 10, ds[0] as int - 48);
      DigitsSubtract(ds[1..], rest, more);
      assert more + ds[1..] == done + ds;
    }
  }

  lemma {:induction false} SpacesSkipped(spaces: seq<Byte>, rest: seq<Byte>)
    requires (forall i | 0 <= i < |spaces| :: IsSpace(spaces[i])) && (rest == [] || !IsSpace(rest[0]))
    ensures AfterSpaces(spaces + rest) == rest
  {
    if spaces == [] {
      assert spaces + rest == rest;
    } else {
      assert (spaces + rest)[1..] == spaces[1..] + rest;
      SpacesSkipped(spaces[1..], rest);
    }
  }

  /** atoi skips white space, takes a sign, and reads the digits that follow, up to whatever else comes;
      the value wraps around in 32 bits. */
  lemma AtoiReads(spaces: seq<Byte>, sign: seq<Byte>, ds: seq<Byte>, rest: seq<Byte>)
    requires (forall i | 0 <= i < |spaces| :: IsSpace(spaces[i])) && sign in {[], [PLUS], [MINUS]} && AllDigits(ds)
    requires rest == [] ||
      (!IsDigit(rest[0]) && (sign + ds == [] ==> !IsSpace(rest[0]) && rest[0] != PLUS && rest[0] != MINUS))
    ensures AtoiValue(spaces + (sign + (ds + rest)))
            == Wrap32(if sign == [MINUS] then 0 - NumberOf(ds) else NumberOf(ds))
  {
    hide Wrap32, DigitsValue, NumberOf, AfterSpaces;
    var t, digits := sign + (ds + rest), ds + rest;
    assert digits != [] ==> digits[0] == if ds != [] then ds[0] else rest[0];
    assert t != [] ==> t[0] == if sign != [] then sign[0] else digits[0];
    SpacesSkipped(spaces, t);
    NothingIsZero();
    InRange(0);
    DigitsSubtract(ds, rest, []);
    assert [] + ds == ds;
    WrapInside(0 - NumberOf(ds), -1, 0);
    if sign == [] {
      assert t == digits;
    } else {
      assert t[1..] == digits;
    }
  }
}
