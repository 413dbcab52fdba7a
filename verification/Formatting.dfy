/** Integers to text and back: format_integer of lib/stdio.c, atoi of lib/stdlib.c. Characters are
    bytes. */
module Formatting {
  import opened Bytes
  import opened Nonlinear

  const ZERO: Byte := 48
  const MINUS: Byte := 45
  const PLUS: Byte := 43
  const BLANK: Byte := 32
  const COMMA: Byte := 44

  /** The parts of a printf() conversion that matter for integers; precision -1 if there is none. */
  datatype Conversion = Conversion(minus: bool, plus: bool, space: bool, pound: bool, zero: bool, group: bool,
                                   width: nat, precision: int)

  /** struct integer_base: `x` is 0 but for base 16 */
  datatype Base = Base(base: nat, x: Byte, group: nat)

  predicate BaseOk(b: Base) { 2 <= b.base <= 16 && b.group > 0 }

  const LARGE_X: Byte := 88

  /** b->digits[d]: in base 16, letters of the same case as the `x` */
  function Digit(d: nat, b: Base): (c: Byte)
    requires d < 16
  {
    if d < 10 then (48 + d) as Byte else if b.x == LARGE_X then (55 + d) as Byte else (87 + d) as Byte
  }

  function LastDigit(value: nat, b: Base): (d: nat)
    requires BaseOk(b)
    ensures d < b.base
  {
    DivBounds(value, b.base);
    value % b.base
  }

  function OtherDigits(value: nat, b: Base): (v: nat)
    requires BaseOk(b)
    ensures value > 0 ==> v < value
    ensures value == b.base * v + LastDigit(value, b)
  {
    DivBounds(value, b.base);
    Shrinks(value, b.base);
    value / b.base
  }

  lemma Shrinks(v: nat, d: nat)
    requires d >= 2
    ensures v / d >= 0 && (v > 0 ==> v / d < v) && v == d * (v / d) + v % d
  {
    DivNonNegative(v, d);
    DivBounds(v, d);
    if v > 0 && v / d >= v {
      MulMonotone(2, d, v / d);
    }
  }

  predicate CommaDue(b: Base, group: bool, cnt: nat)
    requires BaseOk(b)
  {
    group && cnt > 0 && cnt % b.group == 0
  }

  /** The digits of a number, the last one first, with a comma before every group but the first. */
  function Reversed(value: nat, b: Base, group: bool, cnt: nat): seq<Byte>
    requires BaseOk(b)
    decreases value
  {
    if value == 0 then []
    else
      (if CommaDue(b, group, cnt) then [COMMA] else [])
      + [Digit(LastDigit(value, b), b)] + Reversed(OtherDigits(value, b), b, group, cnt + 1)
  }

  function Flip(s: seq<Byte>): (r: seq<Byte>)
    ensures |r| == |s|
    ensures forall i | 0 <= i < |s| :: r[i] == s[|s| - 1 - i]
  {
    seq(|s|, i requires 0 <= i < |s| => s[|s| - 1 - i])
  }

  function Repeat(c: Byte, n: int): (r: seq<Byte>)
    ensures |r| == (if n < 0 then 0 else n) && forall i | 0 <= i < |r| :: r[i] == c
  {
    if n <= 0 then [] else seq(n, i => c)
  }

  function Sign(signed: bool, negative: bool, c: Conversion): seq<Byte> {
    if !signed then []
    else if negative then [MINUS]
    else if c.plus then [PLUS]
    else if c.space then [BLANK]
    else []
  }

  /** The digits, with the zeros that the precision and the # flag ask for. */
  function Body(value: nat, b: Base, c: Conversion): seq<Byte>
    requires BaseOk(b)
  {
    var digits := Reversed(value, b, c.group, 0);
    var precision := if c.precision < 0 then 1 else c.precision;
    var filled := digits + Repeat(ZERO, (if precision < 63 then precision else 63) - |digits|);
    filled + if c.pound && b.base == 8 && (filled == [] || filled[|filled| - 1] != ZERO) then [ZERO] else []
  }

  function HexPrefix(value: nat, b: Base, c: Conversion): seq<Byte> {
    if c.pound && value != 0 && b.x != 0 then [ZERO, b.x] else []
  }

  /** What format_integer puts out. */
  function Formatted(value: nat, signed: bool, negative: bool, b: Base, c: Conversion): seq<Byte>
    requires BaseOk(b)
  {
    var body, sign, x := Body(value, b, c), Sign(signed, negative, c), HexPrefix(value, b, c);
    var pad := c.width - |body| - |x| - |sign|;
    Joined(if !c.minus && !c.zero then Repeat(BLANK, pad) else [], sign, x,
           if c.zero then Repeat(ZERO, pad) else [], Flip(body), if c.minus then Repeat(BLANK, pad) else [])
  }

  function Joined(a: seq<Byte>, b: seq<Byte>, c: seq<Byte>, d: seq<Byte>, e: seq<Byte>, f: seq<Byte>): seq<Byte> {
    a + b + c + d + e + f
  }

  /** The buffer, with a digit at a time, last one first. */
  method GatherDigits(value: nat, b: Base, group: bool) returns (buf: seq<Byte>)
    requires BaseOk(b)
    ensures buf == Reversed(value, b, group, 0)
  {
    hide LastDigit, OtherDigits, Digit, CommaDue, Reversed;
    var v: nat, digitCnt: nat := value, 0;
    buf := [];
    while v > 0
      invariant Reversed(value, b, group, 0) == buf + Reversed(v, b, group, digitCnt)
    {
      OneDigit(v, b, group, digitCnt);
      ghost var rest := Reversed(OtherDigits(v, b), b, group, digitCnt + 1);
      if CommaDue(b, group, digitCnt) {
        buf := buf + [COMMA];
      }
      assert Reversed(value, b, group, 0) == buf + [Digit(LastDigit(v, b), b)] + rest;
      buf := buf + [Digit(LastDigit(v, b), b)];
      v := OtherDigits(v, b);
      digitCnt := digitCnt + 1;
    }
    NoDigits(b, group, digitCnt);
  }

  lemma OneDigit(v: nat, b: Base, group: bool, cnt: nat)
    requires BaseOk(b) && v > 0
    ensures OtherDigits(v, b) < v && LastDigit(v, b) < 16
    ensures Reversed(v, b, group, cnt)
            == (if CommaDue(b, group, cnt) then [COMMA] else []) + [Digit(LastDigit(v, b), b)]
               + Reversed(OtherDigits(v, b), b, group, cnt + 1)
  {
  }

  lemma NoDigits(b: Base, group: bool, cnt: nat)
    requires BaseOk(b)
    ensures Reversed(0, b, group, cnt) == []
  {
  }

  /** And then zeros, to match the precision. */
  method FillDigits(digits: seq<Byte>, value: nat, b: Base, c: Conversion) returns (buf: seq<Byte>)
    requires BaseOk(b) && digits == Reversed(value, b, c.group, 0)
    ensures buf == Body(value, b, c)
  {
    hide Reversed;
    buf := digits;
    var precision := if c.precision < 0 then 1 else c.precision;
    while |buf| < precision && |buf| < 63
      invariant |digits| <= |buf| && buf == digits + Repeat(ZERO, |buf| - |digits|)
      invariant |buf| > |digits| ==> |buf| <= precision && |buf| <= 63
    {
      buf := buf + [ZERO];
    }
    if c.pound && b.base == 8 && (|buf| == 0 || buf[|buf| - 1] != ZERO) {
      buf := buf + [ZERO];
    }
  }

  method OutputReversed(buf: seq<Byte>) returns (output: seq<Byte>)
    ensures output == Flip(buf)
  {
    output := [];
    var i := |buf|;
    while i > 0
      invariant 0 <= i <= |buf| && output == Flip(buf)[..|buf| - i]
    {
      i := i - 1;
      output := output + [buf[i]];
    }
  }

  /** The sign character, or 0. */
  method SignChar(signed: bool, negative: bool, c: Conversion) returns (sign: Byte)
    ensures Sign(signed, negative, c) == if sign != 0 then [sign] else []
  {
    sign := 0;
    if signed {
      if c.plus {
        sign := if negative then MINUS else PLUS;
      } else if c.space {
        sign := if negative then MINUS else BLANK;
      } else if negative {
        sign := MINUS;
      }
    }
  }

  /** format_integer: digits are gathered last one first, and put out in reverse. */
  method FormatInteger(value: nat, signed: bool, negative: bool, b: Base, c: Conversion) returns (output: seq<Byte>)
    requires BaseOk(b)
    ensures output == Formatted(value, signed, negative, b, c)
  {
    hide Reversed, Body, Flip, Joined, Sign;
    var sign := SignChar(signed, negative, c);
    var x: Byte := if c.pound && value != 0 then b.x else 0;
    var digits := GatherDigits(value, b, c.group);
    var buf := FillDigits(digits, value, b, c);
    var padCnt := c.width - |buf| - (if x != 0 then 2 else 0) - (if sign != 0 then 1 else 0);
    if padCnt < 0 {
      padCnt := 0;
    }
    var body := OutputReversed(buf);
    output := Joined(if !c.minus && !c.zero then Repeat(BLANK, padCnt) else [],
                     if sign != 0 then [sign] else [], if x != 0 then [ZERO, x] else [],
                     if c.zero then Repeat(ZERO, padCnt) else [], body,
                     if c.minus then Repeat(BLANK, padCnt) else []);
    assert HexPrefix(value, b, c) == if x != 0 then [ZERO, x] else [];
  }

  // ---- atoi ----

  predicate IsSpace(c: Byte) { c == 32 || 9 <= c <= 13 }

  predicate IsDigit(c: Byte) { 48 <= c <= 57 }

  /** Arithmetic on `int`. */
  function Wrap32(x: int): int {
    (x + 0x8000_0000) % 0x1_0000_0000 - 0x8000_0000
  }

  /** The digits at the front of a string, subtracted up. */
  function DigitsValue(s: seq<Byte>, value: int): int {
    if s == [] || !IsDigit(s[0]) then value else DigitsValue(s[1..], Wrap32(value * 10 - (s[0] as int - 48)))
  }

  function AfterSpaces(s: seq<Byte>): seq<Byte> {
    if s != [] && IsSpace(s[0]) then AfterSpaces(s[1..]) else s
  }

  function AtoiValue(s: seq<Byte>): int {
    var t := AfterSpaces(s);
    if t != [] && t[0] == MINUS then DigitsValue(t[1..], 0)
    else if t != [] && t[0] == PLUS then Wrap32(-DigitsValue(t[1..], 0))
    else Wrap32(-DigitsValue(t, 0))
  }

  method SkipSpaces(s: seq<Byte>) returns (t: seq<Byte>)
    ensures t == AfterSpaces(s)
  {
    t := s;
    while t != [] && IsSpace(t[0])
      invariant AfterSpaces(t) == AfterSpaces(s)
    {
      t := t[1..];
    }
  }

  method SubtractDigits(s: seq<Byte>) returns (value: int)
    ensures value == DigitsValue(s, 0)
  {
    hide Wrap32;
    var t := s;
    value := 0;
    while t != [] && IsDigit(t[0])
      invariant DigitsValue(s, 0) == DigitsValue(t, value)
    {
      value := Wrap32(value * 10 - (t[0] as int - 48));
      t := t[1..];
    }
  }

  /** atoi of the string before its null byte */
  method Atoi(s: seq<Byte>) returns (value: int)
    ensures value == AtoiValue(s)
  {
    hide Wrap32, AfterSpaces, DigitsValue;
    var t := SkipSpaces(s);
    var negative := false;
    if t != [] && t[0] == PLUS {
      t := t[1..];
    } else if t != [] && t[0] == MINUS {
      negative := true;
      t := t[1..];
    }
    value := SubtractDigits(t);
    if !negative {
      value := Wrap32(-value);
    }
  }

  // ---- there and back ----

  const DECIMAL: Base := Base(10, 0, 3)
  const OCTAL: Base := Base(8, 0, 3)
  const PLAIN: Conversion := Conversion(false, false, false, false, false, false, 0, -1)

  /** "%d" */
  function FormatD(v: int): seq<Byte> {
    Formatted(if v < 0 then -v else v, true, v < 0, DECIMAL, PLAIN)
  }

  lemma {:induction false} DigitsThen(s: seq<Byte>, t: seq<Byte>, value: int)
    requires forall i | 0 <= i < |s| :: IsDigit(s[i])
    ensures DigitsValue(s + t, value) == DigitsValue(t, DigitsValue(s, value))
  {
    if s == [] {
      assert s + t == t;
    } else {
      assert (s + t)[1..] == s[1..] + t;
      DigitsThen(s[1..], t, Wrap32(value * 10 - (s[0] as int - 48)));
    }
  }

  lemma FlipStep(s: seq<Byte>, c: Byte)
    ensures Flip([c] + s) == Flip(s) + [c]
  {
  }

  /** The digits of a number read back as its negative. */
  lemma {:induction false} DigitsBack(n: int, cnt: nat)
    requires 0 <= n <= 0x8000_0000
    ensures var s := Flip(Reversed(n, DECIMAL, false, cnt));
      (forall i | 0 <= i < |s| :: IsDigit(s[i])) && DigitsValue(s, 0) == -n
  {
    hide Flip, Wrap32;
    var s := Flip(Reversed(n, DECIMAL, false, cnt));
    if n == 0 {
      assert |s| == 0 by { FlipLength([]); }
    } else {
      var d: int, m: int := LastDigit(n, DECIMAL), OtherDigits(n, DECIMAL);
      var rest := Reversed(m, DECIMAL, false, cnt + 1);
      DigitsBack(m, cnt + 1);
      FlipStep(rest, Digit(d, DECIMAL));
      assert s == Flip(rest) + [Digit(d, DECIMAL)];
      DigitsThen(Flip(rest), [Digit(d, DECIMAL)], 0);
      InRange(-n);
      var acc: int := 0 - m;
      assert [Digit(d, DECIMAL)][1..] == [];
      assert DigitsValue([Digit(d, DECIMAL)], acc) == Wrap32(acc * 10 - d);
    }
  }

  lemma FlipLength(s: seq<Byte>)
    ensures |Flip(s)| == |s|
  {
  }

  lemma InRange(x: int)
    requires -0x8000_0000 <= x < 0x8000_0000
    ensures Wrap32(x) == x
  {
  }

  lemma FormatDIs(v: int)
    ensures var n := if v < 0 then -v else v; var digits := Flip(Reversed(n, DECIMAL, false, 0));
      FormatD(v) == (if v < 0 then [MINUS] else []) + (if v == 0 then [ZERO] else digits)
  {
    var n := if v < 0 then -v else v;
    var body := Body(n, DECIMAL, PLAIN);
    if v == 0 {
      assert body == [ZERO];
    } else {
      assert |Reversed(n, DECIMAL, false, 0)| >= 1;
      assert body == Reversed(n, DECIMAL, false, 0);
    }
  }

  /** atoi of "%d" gives back every 32-bit int. */
  lemma AtoiOfFormatD(v: int)
    requires -0x8000_0000 <= v < 0x8000_0000
    ensures AtoiValue(FormatD(v)) == v
  {
    hide Reversed, Flip, Formatted, Wrap32, FormatD;
    var n: int := if v < 0 then -v else v;
    var digits := Flip(Reversed(n, DECIMAL, false, 0));
    FormatDIs(v);
    DigitsBack(n, 0);
    InRange(v);
    InRange(0);
    var s := FormatD(v);
    if v < 0 {
      assert s[0] == MINUS && s[1..] == digits;
    } else if v > 0 {
      assert digits != [];
      assert IsDigit(digits[0]) && s == digits;
    } else {
      assert s == [ZERO] && [ZERO][1..] == [];
      assert DigitsValue([ZERO], 0) == Wrap32(0);
    }
  }
}
