/** printf() (lib/stdio.c): the conversion parser, the conversions, and output into a buffer of
    bounded size. The arguments of a call are a sequence; a pointer argument is its address. */
module Printf {
  import opened Bytes
  import opened Options
  import opened Formatting

  const PERCENT: Byte := 37

  // ---- conversions ----

  datatype Length = CHAR | SHORT | INT | INTMAX | LONG | LONGLONG | PTRDIFFT | SIZET
  datatype Arg = Number(n: int) | Text(s: seq<Byte>) | NullText

  /** struct printf_conversion, and what parse_conversion leaves of the format and of the arguments. */
  datatype Directive = Directive(c: Conversion, length: Length, rest: seq<Byte>, args: seq<Arg>)

  predicate IsFlag(ch: Byte) { ch == 45 || ch == 43 || ch == 32 || ch == 35 || ch == 48 || ch == 39 }

  function SetFlag(c: Conversion, ch: Byte): Conversion {
    if ch == 45 then c.(minus := true)
    else if ch == 43 then c.(plus := true)
    else if ch == 32 then c.(space := true)
    else if ch == 35 then c.(pound := true)
    else if ch == 48 then c.(zero := true)
    else c.(group := true)
  }

  function Flags(f: seq<Byte>, c: Conversion): (r: (Conversion, seq<Byte>))
    ensures |r.1| <= |f|
  {
    if f != [] && IsFlag(f[0]) then Flags(f[1..], SetFlag(c, f[0])) else (c, f)
  }

  function Digits(f: seq<Byte>, value: nat): (r: (nat, seq<Byte>))
    ensures |r.1| <= |f|
  {
    if f != [] && IsDigit(f[0]) then Digits(f[1..], value * 10 + f[0] as nat - 48) else (value, f)
  }

  /** The `int` that a `*` takes from the arguments. */
  function StarArg(args: seq<Arg>): Option<int> {
    if args != [] && args[0].Number? then Some(Wrap32(args[0].n)) else None
  }

  function Cleared(c: Conversion): Conversion {
    c.(zero := c.zero && !c.minus, space := c.space && !c.plus)
  }

  /** The field width; a negative one, which only `*` can give, asks for MINUS too. */
  function Width(d: Directive): (r: Option<Directive>)
    ensures r.Some? ==> |r.value.rest| <= |d.rest|
  {
    if d.rest != [] && d.rest[0] == 42 then
      var w := StarArg(d.args);
      if w == None then None
      else if w.value < 0 then Some(d.(c := d.c.(width := -w.value, minus := true),
                                        rest := d.rest[1..], args := d.args[1..]))
      else Some(d.(c := d.c.(width := w.value), rest := d.rest[1..], args := d.args[1..]))
    else
      var (w, rest) := Digits(d.rest, 0);
      Some(d.(c := d.c.(width := w), rest := rest))
  }

  function SetPrecision(c: Conversion, p: int): Conversion {
    if p < 0 then c.(precision := -1) else c.(precision := p, zero := false)
  }

  function Precision(d: Directive): (r: Option<Directive>)
    ensures r.Some? ==> |r.value.rest| <= |d.rest|
  {
    if d.rest != [] && d.rest[0] == 46 then
      var f := d.rest[1..];
      if f != [] && f[0] == 42 then
        var p := StarArg(d.args);
        if p == None then None
        else Some(d.(c := SetPrecision(d.c, p.value), rest := f[1..], args := d.args[1..]))
      else
        var (p, rest) := Digits(f, 0);
        Some(d.(c := SetPrecision(d.c, p), rest := rest))
    else Some(d.(c := SetPrecision(d.c, -1)))
  }

  function Doubled(f: seq<Byte>, ch: Byte): bool { |f| > 1 && f[1] == ch }

  /** The type of the argument, and how many characters say so. */
  function TypeOf(f: seq<Byte>): (r: (Length, nat))
    ensures r.1 <= |f|
  {
    if f == [] then (INT, 0)
    else if f[0] == 104 then if Doubled(f, 104) then (CHAR, 2) else (SHORT, 1)
    else if f[0] == 106 then (INTMAX, 1)
    else if f[0] == 108 then if Doubled(f, 108) then (LONGLONG, 2) else (LONG, 1)
    else if f[0] == 116 then (PTRDIFFT, 1)
    else if f[0] == 122 then (SIZET, 1)
    else (INT, 0)
  }

  /** parse_conversion; None if a `*` finds no `int` argument. */
  function ParseConversion(f: seq<Byte>, args: seq<Arg>): (r: Option<Directive>)
    ensures r.Some? ==> |r.value.rest| <= |f|
  {
    var (c, rest) := Flags(f, PLAIN);
    var d := Width(Directive(Cleared(c), INT, rest, args));
    if d == None then None
    else
      var e := Precision(d.value);
      if e == None then None
      else
        var (length, n) := TypeOf(e.value.rest);
        Some(e.value.(length := length, rest := e.value.rest[n..]))
  }

  // ---- one conversion ----

  function Bits(length: Length): nat {
    match length
    case CHAR => 0x100
    case SHORT => 0x1_0000
    case INTMAX | LONGLONG => 0x1_0000_0000_0000_0000
    case INT | LONG | PTRDIFFT | SIZET => 0x1_0000_0000
  }

  /** The value of an unsigned argument of a type. */
  function Unsigned(n: int, length: Length): nat { n % Bits(length) }

  function Signed(n: int, length: Length): int {
    var u := Unsigned(n, length);
    if u < Bits(length) / 2 then u else u - Bits(length)
  }

  const HEX: Base := Base(16, 120, 4)
  const LARGE_HEX: Base := Base(16, LARGE_X, 4)

  function FormatString(s: seq<Byte>, c: Conversion): seq<Byte> {
    if c.minus then s + Repeat(BLANK, c.width - |s|) else Repeat(BLANK, c.width - |s|) + s
  }

  const NULL_TEXT: seq<Byte> := [40, 110, 117, 108, 108, 41]
  const NO: seq<Byte> := [60, 60, 110, 111, 32, 37]
  const IN_KERNEL: seq<Byte> := [32, 105, 110, 32, 107, 101, 114, 110, 101, 108, 62, 62]
  const CONVERSION: seq<Byte> := [32, 99, 111, 110, 118, 101, 114, 115, 105, 111, 110, 62, 62]

  /** strnlen with a precision of -1 taken as SIZE_MAX */
  function Limited(s: seq<Byte>, precision: int): seq<Byte> {
    if precision < 0 || |s| <= precision then s else s[..precision]
  }

  datatype Printed = Printed(text: seq<Byte>, args: seq<Arg>)

  predicate TakesNumber(ch: Byte) { ch in {100, 105, 111, 117, 120, 88, 99, 112} }

  /** What a conversion character puts out; None if its argument is missing or of the wrong type. */
  function Convert(ch: Byte, d: Directive): (r: Option<Printed>) {
    var args := d.args;
    if TakesNumber(ch) then
      if args == [] || !args[0].Number? then None
      else Some(Printed(ConvertNumber(ch, d.c, d.length, args[0].n), args[1..]))
    else if ch == 115 then
      if args == [] || args[0].Number? then None
      else
        var s := if args[0].Text? then args[0].s else NULL_TEXT;
        Some(Printed(FormatString(Limited(s, d.c.precision), d.c), args[1..]))
    else if ch in {102, 101, 69, 103, 71, 110} then Some(Printed(NO + [ch] + IN_KERNEL, args))
    else Some(Printed(NO + [ch] + CONVERSION, args))
  }

  function ConvertNumber(ch: Byte, c: Conversion, length: Length, n: int): seq<Byte>
    requires TakesNumber(ch)
  {
    if ch == 100 || ch == 105 then
      var v := Signed(n, length);
      Formatted(if v < 0 then -v else v, true, v < 0, DECIMAL, c)
    else if ch == 111 then Formatted(Unsigned(n, length), false, false, OCTAL, c)
    else if ch == 117 then Formatted(Unsigned(n, length), false, false, DECIMAL, c)
    else if ch == 120 then Formatted(Unsigned(n, length), false, false, HEX, c)
    else if ch == 88 then Formatted(Unsigned(n, length), false, false, LARGE_HEX, c)
    else if ch == 99 then FormatString([(n % 256) as Byte], c)
    else Formatted(Unsigned(n, INT), false, false, HEX,
                   PLAIN.(pound := true, width := c.width, precision := c.precision))
  }

  /** __vprintf; None if the arguments do not match the format, or the format ends inside a
      conversion, which are the caller's errors. */
  function Print(f: seq<Byte>, args: seq<Arg>): Option<Printed>
    decreases |f|
  {
    if f == [] then Some(Printed([], args))
    else if f[0] != PERCENT then Before([f[0]], Print(f[1..], args))
    else if |f| == 1 then None
    else if f[1] == PERCENT then Before([PERCENT], Print(f[2..], args))
    else
      var d := ParseConversion(f[1..], args);
      if d == None || d.value.rest == [] then None
      else
        var p := Convert(d.value.rest[0], d.value);
        if p == None then None else Before(p.value.text, Print(d.value.rest[1..], p.value.args))
  }

  function Before(text: seq<Byte>, p: Option<Printed>): Option<Printed> {
    if p == None then None else Some(p.value.(text := text + p.value.text))
  }

  // ---- two formats in a row ----

  lemma {:induction false} FlagsThen(f: seq<Byte>, g: seq<Byte>, c: Conversion)
    requires Flags(f, c).1 != []
    ensures Flags(f + g, c) == (Flags(f, c).0, Flags(f, c).1 + g)
  {
    if IsFlag(f[0]) {
      assert (f + g)[1..] == f[1..] + g;
      FlagsThen(f[1..], g, SetFlag(c, f[0]));
    }
  }

  lemma {:induction false} DigitsThen(f: seq<Byte>, g: seq<Byte>, value: nat)
    requires Digits(f, value).1 != []
    ensures Digits(f + g, value) == (Digits(f, value).0, Digits(f, value).1 + g)
  {
    if IsDigit(f[0]) {
      assert (f + g)[1..] == f[1..] + g;
      DigitsThen(f[1..], g, value * 10 + f[0] as nat - 48);
    }
  }

  /** The directive, with more format and more arguments behind it. */
  function More(d: Directive, g: seq<Byte>, args: seq<Arg>): Directive {
    d.(rest := d.rest + g, args := d.args + args)
  }

  lemma WidthThen(d: Directive, g: seq<Byte>, args: seq<Arg>)
    requires Width(d).Some? && Width(d).value.rest != []
    ensures Width(More(d, g, args)) == Some(More(Width(d).value, g, args))
  {
    hide Digits;
    var e := More(d, g, args);
    assert e.rest[0] == d.rest[0];
    assert (d.rest + g)[1..] == d.rest[1..] + g;
    if d.rest[0] == 42 {
      assert e.args[0] == d.args[0] && e.args[1..] == d.args[1..] + args;
    } else {
      DigitsThen(d.rest, g, 0);
    }
  }

  lemma PrecisionThen(d: Directive, g: seq<Byte>, args: seq<Arg>)
    requires Precision(d).Some? && Precision(d).value.rest != []
    ensures Precision(More(d, g, args)) == Some(More(Precision(d).value, g, args))
  {
    hide Digits;
    var e := More(d, g, args);
    assert e.rest[0] == d.rest[0];
    assert (d.rest + g)[1..] == d.rest[1..] + g;
    if d.rest[0] == 46 {
      var f := d.rest[1..];
      DigitsEmpty(0);
      assert f != [];
      assert (f + g)[0] == f[0] && (f + g)[1..] == f[1..] + g;
      if f[0] == 42 {
        assert e.args[0] == d.args[0] && e.args[1..] == d.args[1..] + args;
      } else {
        DigitsThen(f, g, 0);
      }
    }
  }

  lemma DigitsEmpty(value: nat)
    ensures Digits([], value) == (value, [])
  {
  }

  lemma TypeThen(f: seq<Byte>, g: seq<Byte>)
    requires TypeOf(f).1 < |f|
    ensures TypeOf(f + g) == TypeOf(f) && (f + g)[TypeOf(f).1..] == f[TypeOf(f).1..] + g
  {
  }

  lemma ParseThen(f: seq<Byte>, g: seq<Byte>, xs: seq<Arg>, ys: seq<Arg>)
    requires ParseConversion(f, xs).Some? && ParseConversion(f, xs).value.rest != []
    ensures ParseConversion(f + g, xs + ys) == Some(More(ParseConversion(f, xs).value, g, ys))
  {
    hide Width, Precision, TypeOf, Flags;
    var (c, rest) := Flags(f, PLAIN);
    var d := Directive(Cleared(c), INT, rest, xs);
    var w := Width(d).value;
    var p := Precision(w).value;
    PartsNonEmpty(d, w, p);
    FlagsThen(f, g, PLAIN);
    WidthThen(d, g, ys);
    PrecisionThen(w, g, ys);
    TypeThen(p.rest, g);
  }

  lemma PartsNonEmpty(d: Directive, w: Directive, p: Directive)
    requires Width(d) == Some(w) && Precision(w) == Some(p) && p.rest != []
    ensures w.rest != [] && d.rest != []
  {
  }

  lemma ConvertThen(ch: Byte, d: Directive, g: seq<Byte>, ys: seq<Arg>)
    requires Convert(ch, d).Some?
    ensures var p := Convert(ch, d).value; Convert(ch, More(d, g, ys)) == Some(p.(args := p.args + ys))
  {
    hide ConvertNumber, FormatString, Limited, TakesNumber;
    var e := More(d, g, ys);
    if d.args != [] {
      assert e.args[0] == d.args[0] && e.args[1..] == d.args[1..] + ys;
    }
  }

  /** A format that takes exactly its arguments, and then another: the texts in a row. */
  lemma {:induction false} PrintThen(f: seq<Byte>, g: seq<Byte>, xs: seq<Arg>, ys: seq<Arg>)
    requires Print(f, xs).Some?
    ensures Print(f + g, xs + ys) == Before(Print(f, xs).value.text, Print(g, Print(f, xs).value.args + ys))
    decreases |f|
  {
    hide ParseConversion, Convert;
    if f == [] {
      assert f + g == g;
      BeforeNothing(Print(g, xs + ys));
    } else if f[0] != PERCENT {
      assert (f + g)[1..] == f[1..] + g;
      PrintThen(f[1..], g, xs, ys);
      BeforeTwice([f[0]], Print(f[1..], xs).value.text, Print(g, Print(f, xs).value.args + ys));
    } else if f[1] == PERCENT {
      assert (f + g)[2..] == f[2..] + g && (f + g)[1] == f[1];
      PrintThen(f[2..], g, xs, ys);
      BeforeTwice([PERCENT], Print(f[2..], xs).value.text, Print(g, Print(f, xs).value.args + ys));
    } else {
      var d := ParseConversion(f[1..], xs).value;
      var p := Convert(d.rest[0], d).value;
      assert (f + g)[1..] == f[1..] + g && (f + g)[1] == f[1];
      ParseThen(f[1..], g, xs, ys);
      assert (d.rest + g)[0] == d.rest[0] && (d.rest + g)[1..] == d.rest[1..] + g;
      ConvertThen(d.rest[0], d, g, ys);
      PrintThen(d.rest[1..], g, p.args, ys);
      BeforeTwice(p.text, Print(d.rest[1..], p.args).value.text, Print(g, Print(f, xs).value.args + ys));
    }
  }

  lemma BeforeNothing(p: Option<Printed>)
    ensures Before([], p) == p
  {
    assert p.Some? ==> [] + p.value.text == p.value.text;
  }

  lemma BeforeTwice(a: seq<Byte>, b: seq<Byte>, p: Option<Printed>)
    ensures Before(a, Before(b, p)) == Before(a + b, p)
  {
    assert p.Some? ==> a + (b + p.value.text) == a + b + p.value.text;
  }

  // ---- what the directives in use mean ----

  /** "%d" of an `int` */
  lemma PercentD(n: int)
    requires -0x8000_0000 <= n < 0x8000_0000
    ensures Print([PERCENT, 100], [Number(n)]) == Some(Printed(FormatD(n), []))
  {
    hide Formatted, Wrap32, ParseConversion, Print;
    NoOptions([100], [Number(n)]);
    OneDirective([100], [Number(n)], Directive(PLAIN, INT, [100], [Number(n)]));
    assert [PERCENT] + [100] == [PERCENT, 100] && [Number(n)][1..] == [];
    assert Signed(n, INT) == n;
  }

  /** A format that is one conversion. */
  lemma OneDirective(f: seq<Byte>, args: seq<Arg>, d: Directive)
    requires f != [] && f[0] != PERCENT && ParseConversion(f, args) == Some(d) && |d.rest| == 1
    ensures Print([PERCENT] + f, args) == Convert(d.rest[0], d)
  {
    hide ParseConversion, Convert;
    var g := [PERCENT] + f;
    assert g[1..] == f && d.rest[1..] == [];
    var p := Convert(d.rest[0], d);
    if p.Some? {
      NothingMore(p.value.args);
      assert p.value.text + [] == p.value.text;
    }
  }

  lemma OneFlag(f: seq<Byte>, c: Conversion)
    requires |f| > 1 && IsFlag(f[0]) && !IsFlag(f[1])
    ensures Flags(f, c) == (SetFlag(c, f[0]), f[1..])
  {
  }

  lemma OneDigit(ch: Byte, f: seq<Byte>, value: nat)
    requires IsDigit(ch)
    ensures Digits([ch] + f, value) == Digits(f, value * 10 + ch as nat - 48)
  {
    assert ([ch] + f)[1..] == f;
  }

  lemma NoDigit(f: seq<Byte>, value: nat)
    requires f != [] && !IsDigit(f[0])
    ensures Digits(f, value) == (value, f)
  {
  }

  /** A flag, a width and a conversion character. */
  lemma FlagAndWidth(f: seq<Byte>, w: nat, ch: Byte, args: seq<Arg>)
    requires |f| > 2 && f[0] == 48 && !IsFlag(f[1]) && f[1] != 42 && Digits(f[1..], 0) == (w, [ch])
    requires ch != 46 && TypeOf([ch]) == (INT, 0)
    ensures ParseConversion(f, args) == Some(Directive(PLAIN.(zero := true, width := w), INT, [ch], args))
  {
    hide Flags, Digits, TypeOf;
    OneFlag(f, PLAIN);
    assert [ch][0..] == [ch];
  }

  lemma NothingMore(args: seq<Arg>)
    ensures Print([], args) == Some(Printed([], args))
  {
  }

  /** So atoi reads back what snprintf of "%d" puts out. */
  lemma AtoiOfPercentD(n: int)
    requires -0x8000_0000 <= n < 0x8000_0000
    ensures exists p :: Print([PERCENT, 100], [Number(n)]) == Some(p) && AtoiValue(p.text) == n
  {
    hide Print, FormatD, AtoiValue;
    PercentD(n);
    AtoiOfFormatD(n);
  }

  lemma NoOptions(f: seq<Byte>, args: seq<Arg>)
    requires f != [] && !IsFlag(f[0]) && !IsDigit(f[0]) && f[0] != 42 && f[0] != 46 && TypeOf(f) == (INT, 0)
    ensures ParseConversion(f, args) == Some(Directive(PLAIN, INT, f, args))
  {
    assert Flags(f, PLAIN) == (PLAIN, f) && Digits(f, 0) == (0, f);
    assert f[0..] == f;
  }

  // ---- output ----

  /** struct vsnprintf_aux. The ghost fields have everything put out so far, and what the buffer
      held before. */
  class Sink {
    const buffer: array<Byte>
    const maxLength: nat
    var p: nat
    var length: nat
    ghost var written: seq<Byte>
    ghost const before: seq<Byte>

    constructor (buffer: array<Byte>, maxLength: nat)
      requires maxLength <= buffer.Length
      ensures this.buffer == buffer && this.maxLength == maxLength
      ensures written == [] && before == buffer[..] && Valid()
    {
      this.buffer, this.maxLength, p, length, written, before := buffer, maxLength, 0, 0, [], buffer[..];
    }

    /** What was put out is counted, and as much of it as fits is at the front of the buffer, which
        is otherwise as it was. */
    ghost predicate Valid()
      reads this, buffer
    {
      && maxLength <= buffer.Length == |before|
      && length == |written|
      && p == (if length < maxLength then length else maxLength)
      && buffer[..] == written[..p] + before[p..]
    }

    /** vsnprintf_helper */
    method Put(ch: Byte)
      requires Valid()
      modifies this`p, this`length, this`written, buffer
      ensures Valid() && written == old(written) + [ch]
    {
      if length < maxLength {
        buffer[p] := ch;
        p := p + 1;
      }
      length := length + 1;
      written := written + [ch];
    }

    /** A conversion's output, a character at a time. */
    method PutAll(text: seq<Byte>)
      requires Valid()
      modifies this`p, this`length, this`written, buffer
      ensures Valid() && written == old(written) + text
    {
      for i := 0 to |text|
        invariant Valid() && written == old(written) + text[..i]
      {
        Put(text[i]);
      }
    }

    /** output_dup, which format_string calls for a positive count only */
    method OutputDup(ch: Byte, cnt: int)
      requires Valid()
      modifies this`p, this`length, this`written, buffer
      ensures Valid() && written == old(written) + Repeat(ch, cnt)
    {
      var left := cnt;
      while left > 0
        invariant (cnt >= left >= 0 || cnt == left < 0) && Valid()
        invariant written == old(written) + Repeat(ch, cnt - left)
      {
        Put(ch);
        left := left - 1;
        assert Repeat(ch, cnt - left) == Repeat(ch, cnt - left - 1) + [ch];
      }
    }

    /** format_string */
    method PutString(s: seq<Byte>, length: nat, c: Conversion)
      requires Valid() && length <= |s|
      modifies this`p, this`length, this`written, buffer
      ensures Valid() && written == old(written) + FormatString(s[..length], c)
    {
      hide Valid, Repeat;
      NoPadding(c.width - length);
      if c.width > length && !c.minus {
        OutputDup(BLANK, c.width - length);
      }
      PutAll(s[..length]);
      if c.width > length && c.minus {
        OutputDup(BLANK, c.width - length);
      }
    }

    /** format_integer, with what it puts out */
    method PutInteger(value: nat, signed: bool, negative: bool, b: Base, c: Conversion)
      requires Valid() && BaseOk(b)
      modifies this`p, this`length, this`written, buffer
      ensures Valid() && written == old(written) + Formatted(value, signed, negative, b, c)
    {
      hide Valid, Formatted;
      var output := FormatInteger(value, signed, negative, b, c);
      PutAll(output);
    }

    /** The conversions of __vprintf that take a number: its value is cut to the argument's type. */
    method PutNumber(ch: Byte, c: Conversion, type_: Length, n: int)
      requires Valid() && TakesNumber(ch)
      modifies this`p, this`length, this`written, buffer
      ensures Valid() && written == old(written) + ConvertNumber(ch, c, type_, n)
    {
      hide Valid, Formatted, FormatString, Unsigned, Signed;
      if ch == 100 || ch == 105 {
        var value := Signed(n, type_);
        PutInteger(if value < 0 then -value else value, true, value < 0, DECIMAL, c);
      } else if ch == 99 {
        var text: seq<Byte> := [(n % 256) as Byte];
        PutString(text, 1, c);
        assert text[..1] == text;
      } else if ch == 112 {
        PutInteger(Unsigned(n, INT), false, false, HEX,
                   PLAIN.(pound := true, width := c.width, precision := c.precision));
      } else {
        var b := if ch == 111 then OCTAL else if ch == 117 then DECIMAL else if ch == 120 then HEX else LARGE_HEX;
        PutInteger(Unsigned(n, type_), false, false, b, c);
      }
    }

    /** One conversion of __vprintf, and the arguments it leaves */
    method PutConversion(ch: Byte, d: Directive) returns (left: seq<Arg>)
      requires Valid() && Convert(ch, d).Some?
      modifies this`p, this`length, this`written, buffer
      ensures Valid() && written == old(written) + Convert(ch, d).value.text && left == Convert(ch, d).value.args
    {
      hide Valid, ConvertNumber, FormatString, Limited, TakesNumber;
      left := d.args;
      if TakesNumber(ch) {
        PutNumber(ch, d.c, d.length, left[0].n);
        left := left[1..];
      } else if ch == 115 {
        var s := if left[0].Text? then left[0].s else NULL_TEXT;
        var n := StringLength(s, d.c.precision);
        PutString(s, n, d.c);
        left := left[1..];
      } else {
        PutAll(NO + [ch] + if ch in {102, 101, 69, 103, 71, 110} then IN_KERNEL else CONVERSION);
      }
    }
  }

  lemma NoPadding(n: int)
    ensures n <= 0 ==> Repeat(BLANK, n) == []
  {
  }

  /** strnlen, with a precision of -1 for no limit */
  method StringLength(s: seq<Byte>, precision: int) returns (n: nat)
    ensures n <= |s| && s[..n] == Limited(s, precision)
  {
    n := 0;
    while n < |s| && (precision < 0 || n < precision)
      invariant n <= |s| && (precision < 0 || n <= precision)
    {
      n := n + 1;
    }
    assert s[..|s|] == s;
  }

  method ReadFlags(f: seq<Byte>) returns (c: Conversion, rest: seq<Byte>)
    ensures Flags(f, PLAIN) == (c, rest)
  {
    c, rest := PLAIN, f;
    while rest != [] && IsFlag(rest[0])
      invariant Flags(f, PLAIN) == Flags(rest, c)
    {
      c := SetFlag(c, rest[0]);
      rest := rest[1..];
    }
  }

  method ReadDigits(f: seq<Byte>) returns (value: nat, rest: seq<Byte>)
    ensures Digits(f, 0) == (value, rest)
  {
    value, rest := 0, f;
    while rest != [] && IsDigit(rest[0])
      invariant Digits(f, 0) == Digits(rest, value)
    {
      value := value * 10 + rest[0] as nat - 48;
      rest := rest[1..];
    }
  }

  method ReadWidth(d: Directive) returns (r: Option<Directive>)
    ensures r == Width(d)
  {
    hide Digits, Wrap32;
    if d.rest != [] && d.rest[0] == 42 {
      var w := StarArg(d.args);
      if w == None {
        return None;
      }
      var c := d.c;
      if w.value < 0 {
        c := c.(width := -w.value, minus := true);
      } else {
        c := c.(width := w.value);
      }
      return Some(d.(c := c, rest := d.rest[1..], args := d.args[1..]));
    }
    var w, rest := ReadDigits(d.rest);
    return Some(d.(c := d.c.(width := w), rest := rest));
  }

  method ReadPrecision(d: Directive) returns (r: Option<Directive>)
    ensures r == Precision(d)
  {
    hide Digits, Wrap32;
    var p: int, rest, args := -1, d.rest, d.args;
    if rest != [] && rest[0] == 46 {
      rest := rest[1..];
      if rest != [] && rest[0] == 42 {
        var star := StarArg(args);
        if star == None {
          return None;
        }
        p, rest, args := star.value, rest[1..], args[1..];
      } else {
        p, rest := ReadDigits(rest);
      }
      if p < 0 {
        p := -1;
      }
    }
    var c := d.c.(precision := p);
    if p >= 0 {
      c := c.(zero := false);
    }
    return Some(d.(c := c, rest := rest, args := args));
  }

  /** parse_conversion */
  method ReadConversion(f: seq<Byte>, args: seq<Arg>) returns (r: Option<Directive>)
    ensures r == ParseConversion(f, args)
  {
    hide Flags, Width, Precision, TypeOf;
    var c, rest := ReadFlags(f);
    if c.minus {
      c := c.(zero := false);
    }
    if c.plus {
      c := c.(space := false);
    }
    r := ReadWidth(Directive(c, INT, rest, args));
    if r == None {
      return;
    }
    r := ReadPrecision(r.value);
    if r == None {
      return;
    }
    var (length, n) := TypeOf(r.value.rest);
    r := Some(r.value.(length := length, rest := r.value.rest[n..]));
  }

  /** __vprintf */
  method Vprintf(f: seq<Byte>, args: seq<Arg>, sink: Sink)
    requires sink.Valid() && Print(f, args).Some?
    modifies sink`p, sink`length, sink`written, sink.buffer
    ensures sink.Valid() && sink.written == old(sink.written) + Print(f, args).value.text
  {
    hide Sink.Valid, ParseConversion, Convert;
    ghost var text := Print(f, args).value.text;
    var format, left := f, args;
    while format != []
      invariant sink.Valid() && Print(format, left).Some?
      invariant sink.written + Print(format, left).value.text == old(sink.written) + text
      decreases |format|
    {
      if format[0] != PERCENT {
        sink.Put(format[0]);
        format := format[1..];
      } else if format[1] == PERCENT {
        sink.Put(PERCENT);
        format := format[2..];
      } else {
        var d := ReadConversion(format[1..], left);
        left := sink.PutConversion(d.value.rest[0], d.value);
        format := d.value.rest[1..];
      }
    }
  }

  /** What is in a buffer of `size` bytes, `before` in it, after `text` was printed to it. */
  function Filled(before: seq<Byte>, size: nat, text: seq<Byte>): seq<Byte>
    requires size <= |before|
  {
    if size == 0 then before
    else
      var k := if |text| < size then |text| else size - 1;
      text[..k] + [0] + before[k + 1..]
  }

  lemma Terminate(before: seq<Byte>, k: nat, text: seq<Byte>)
    requires k < |before| && k <= |text|
    ensures (text[..k] + before[k..])[k := 0] == text[..k] + [0] + before[k + 1..]
  {
  }

  /** vsnprintf: the buffer gets as much of the text as fits before a null byte, and the result is
      the length of all of it. */
  method Vsnprintf(buffer: array<Byte>, bufSize: nat, f: seq<Byte>, args: seq<Arg>) returns (n: nat)
    requires bufSize <= buffer.Length && Print(f, args).Some?
    modifies buffer
    ensures var text := Print(f, args).value.text;
      n == |text| && buffer[..] == Filled(old(buffer[..]), bufSize, text)
  {
    hide Print, Filled, Sink.Valid;
    ghost var text := Print(f, args).value.text;
    var sink := new Sink(buffer, if bufSize > 0 then bufSize - 1 else 0);
    Vprintf(f, args, sink);
    assert [] + text == text;
    SinkHolds(sink, bufSize);
    if bufSize > 0 {
      buffer[sink.p] := 0;
    }
    n := sink.length;
  }

  lemma SinkHolds(sink: Sink, size: nat)
    requires sink.Valid() && size <= sink.buffer.Length && sink.maxLength == if size > 0 then size - 1 else 0
    ensures sink.length == |sink.written| && (size > 0 ==> sink.p < sink.buffer.Length) && size <= |sink.before|
    ensures Filled(sink.before, size, sink.written)
      == if size > 0 then sink.buffer[..][sink.p := 0] else sink.buffer[..]
  {
    if size > 0 {
      Terminate(sink.before, sink.p, sink.written);
    }
  }
}
