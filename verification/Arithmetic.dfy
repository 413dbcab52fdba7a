/** Software 64-bit division on a 32-bit machine (lib/arithmetic.c).

    Machine integers are modelled as `int`; every place where the C types wrap or
    truncate goes through `Wrap32`, `Wrap64`, `ToInt32` or `ToInt64`. */
module Arithmetic {
  import opened Nonlinear

  type uint32 = x: int | 0 <= x < 0x1_0000_0000
  type uint64 = x: int | 0 <= x < 0x1_0000_0000_0000_0000
  type int32 = x: int | -0x8000_0000 <= x < 0x8000_0000
  type int64 = x: int | -0x8000_0000_0000_0000 <= x < 0x8000_0000_0000_0000

  const INT64_MIN: int64 := -0x8000_0000_0000_0000

  /** Outcome of a computation that may raise the divide error #DE. */
  datatype Result<+T> = Value(value: T) | DivideError {
    predicate IsFailure() {
      DivideError?
    }

    function PropagateFailure<U>(): Result<U>
      requires DivideError?
    {
      DivideError
    }

    function Extract(): T
      requires Value?
    {
      value
    }
  }

  function Wrap32(x: int): uint32 {
    x % 0x1_0000_0000
  }

  function Wrap64(x: int): uint64 {
    x % 0x1_0000_0000_0000_0000
  }

  /** Unary minus on 64-bit words. */
  function Negate64(x: int): uint64 {
    Wrap64(-x)
  }

  /** The upper 32 bits of a 64-bit word. */
  function High(x: uint64): uint32 {
    x / 0x1_0000_0000
  }

  /** A 64-bit pattern read as a two's complement value. */
  function ToInt64(x: uint64): int64 {
    if x < 0x8000_0000_0000_0000 then x else x - 0x1_0000_0000_0000_0000
  }

  /** The low 32 bits read as a two's complement value. */
  function ToInt32(x: int): int32 {
    var low := Wrap32(x);
    if low < 0x8000_0000 then low else low - 0x1_0000_0000
  }

  /** The DIVL instruction: 64-bit dividend, 32-bit divisor; it traps unless the
      quotient fits in 32 bits. */
  function Divl(n: uint64, d: uint32): Result<uint32> {
    if d == 0 then DivideError
    else if n / d >= 0x1_0000_0000 then DivideError
    else
      DivNonNegative(n, d);
      Value(n / d)
  }

  /** Number of leading zero bits of a nonzero word, bit by bit. */
  function LeadingZeros(x: uint32): nat
    requires x > 0
    decreases 0x1_0000_0000 - x
  {
    if x >= 0x8000_0000 then 0 else 1 + LeadingZeros(2 * x)
  }

  /** nlz: the range is halved five times, shifting left as it goes. */
  method Nlz(x0: uint32) returns (n: nat)
    requires x0 != 0
    ensures n == LeadingZeros(x0)
  {
    hide LeadingZeros;
    hide Wrap32;
    var x := x0;
    n := 0;
    if x <= 0x0000_FFFF {
      NlzStep(x, 16, 0x1_0000);
      n := n + 16;
      x := Wrap32(x * 0x1_0000);
    }
    assert x > 0x0000_FFFF && LeadingZeros(x0) == n + LeadingZeros(x);
    if x <= 0x00FF_FFFF {
      NlzStep(x, 8, 0x100);
      n := n + 8;
      x := Wrap32(x * 0x100);
    }
    assert x > 0x00FF_FFFF && LeadingZeros(x0) == n + LeadingZeros(x);
    if x <= 0x0FFF_FFFF {
      NlzStep(x, 4, 0x10);
      n := n + 4;
      x := Wrap32(x * 0x10);
    }
    assert x > 0x0FFF_FFFF && LeadingZeros(x0) == n + LeadingZeros(x);
    if x <= 0x3FFF_FFFF {
      NlzStep(x, 2, 4);
      n := n + 2;
      x := Wrap32(x * 4);
    }
    assert x > 0x3FFF_FFFF && LeadingZeros(x0) == n + LeadingZeros(x);
    if x <= 0x7FFF_FFFF {
      NlzStep(x, 1, 2);
      NlzDone(Wrap32(x * 2));
      n := n + 1;
    } else {
      NlzDone(x);
    }
  }

  /** udiv64 with a divisor of at most 32 bits. */
  function UdivShort(n: uint64, d0: uint32): Result<uint64>
    requires d0 != 0
  {
    var n1 := High(n);
    var n0 := Wrap32(n);
    var q :- Divl(Wrap64(0x1_0000_0000 * (n1 % d0) + n0), d0);
    Value(Wrap64(q + 0x1_0000_0000 * (n1 / d0)))
  }

  /** udiv64 with a wider divisor: estimate with one DIVL, then correct. `s` is below 32
      because `d >> 32` is nonzero. */
  function UdivLong(n: uint64, d: uint64): Result<uint64>
    requires High(d) != 0
  {
    var s := LeadingZeros(High(d));
    var estimate :- Divl(n / 2, High(Wrap64(d * Pow2(s))));
    LeadingZerosBracket(High(d));
    var q := estimate / Pow2(31 - s);
    DivNonNegative(estimate, Pow2(31 - s));
    Value(if Wrap64(n - Wrap64(q - 1) * d) < d then Wrap64(q - 1) else q)
  }

  function Udiv64(n: uint64, d: uint64): Result<uint64> {
    if High(d) == 0 then
      if Wrap32(d) == 0 then DivideError else UdivShort(n, Wrap32(d))
    else if n < d then Value(0)
    else UdivLong(n, d)
  }

  /** Gives a magnitude the sign of the quotient of `n` and `d`, in 64-bit arithmetic. */
  function ApplySign(n: int64, d: int64, qAbs: uint64): int64 {
    if (n < 0) == (d < 0) then ToInt64(qAbs) else ToInt64(Negate64(ToInt64(qAbs)))
  }

  /** sdiv64, including the wrapping negations. */
  function Sdiv64(n: int64, d: int64): Result<int64> {
    var nAbs: uint64 := if n >= 0 then n else Negate64(n);
    var dAbs: uint64 := if d >= 0 then d else Negate64(d);
    var qAbs :- Udiv64(nAbs, dAbs);
    Value(ApplySign(n, d, qAbs))
  }

  /** umod64 returns a 32-bit value, so the remainder is truncated. */
  function Umod64(n: uint64, d: uint64): Result<uint32> {
    var q :- Udiv64(n, d);
    Value(Wrap32(Wrap64(n - d * q)))
  }

  /** smod64 returns a signed 32-bit value. */
  function Smod64(n: int64, d: int64): Result<int32> {
    var q :- Sdiv64(n, d);
    Value(ToInt32(Wrap64(n - d * q)))
  }

  // ---- powers of two and the leading bit ----

  lemma {:induction false} Pow2Add(a: nat, b: nat)
    ensures Pow2(a + b) == Pow2(a) * Pow2(b)
  {
    if a > 0 {
      Pow2Add(a - 1, b);
      MulAssoc(2, Pow2(a - 1), Pow2(b));
    }
  }

  lemma Pow2Values()
    ensures Pow2(1) == 2 && Pow2(2) == 4 && Pow2(4) == 0x10 && Pow2(8) == 0x100
    ensures Pow2(16) == 0x1_0000 && Pow2(31) == 0x8000_0000 && Pow2(32) == 0x1_0000_0000
  {
    assert Pow2(1) == 2;
    Pow2Add(1, 1);
    Pow2Add(2, 2);
    Pow2Add(4, 4);
    Pow2Add(8, 8);
    Pow2Add(16, 16);
  }

  lemma {:induction false} LeadingZerosShift(x: uint32, k: nat, c: int)
    requires 0 < x && c == Pow2(k) && x * c < 0x1_0000_0000
    ensures 0 < x * c && LeadingZeros(x) == k + LeadingZeros(x * c)
    decreases k
  {
    MulMonotone(1, x, c);
    if k > 0 {
      MulAssoc(x, 2, Pow2(k - 1));
      MulMonotone(1, Pow2(k - 1), 2 * x);
      LeadingZerosShift(2 * x, k - 1, Pow2(k - 1));
    }
  }

  /** One halving step of `Nlz`: nothing is shifted out. */
  lemma NlzStep(x: uint32, k: nat, c: int)
    requires (k, c) in {(16, 0x1_0000), (8, 0x100), (4, 0x10), (2, 4), (1, 2)}
    requires 0 < x && x * c < 0x1_0000_0000
    ensures Wrap32(x * c) == x * c > 0
    ensures LeadingZeros(x) == k + LeadingZeros(Wrap32(x * c))
  {
    Pow2Values();
    LeadingZerosShift(x, k, c);
  }

  lemma NlzDone(x: uint32)
    requires x >= 0x8000_0000
    ensures LeadingZeros(x) == 0
  {
  }

  /** Shifting by the number of leading zeros puts the leading bit in bit 31, and the
      block of words that share it ends at a word boundary. */
  lemma LeadingZerosBracket(x: uint32)
    requires x > 0
    ensures LeadingZeros(x) < 32
    ensures 0x8000_0000 <= x * Pow2(LeadingZeros(x))
    ensures (x + 1) * Pow2(LeadingZeros(x)) <= 0x1_0000_0000
  {
    LeadingBit(x);
    BlockEnd(x, LeadingZeros(x));
  }

  lemma BlockEnd(x: nat, s: nat)
    requires s <= 32 && x * Pow2(s) < 0x1_0000_0000
    ensures (x + 1) * Pow2(s) <= 0x1_0000_0000
  {
    var m, p := Pow2(32 - s), Pow2(s);
    assert m * p == 0x1_0000_0000 by {
      Pow2Values();
      Pow2Add(32 - s, s);
    }
    CancelBound(x, m, p);
    MulMonotone(x + 1, m, p);
  }

  lemma {:induction false} LeadingBit(x: uint32)
    requires x > 0
    ensures LeadingZeros(x) < 32
    ensures 0x8000_0000 <= x * Pow2(LeadingZeros(x)) < 0x1_0000_0000
    decreases 0x1_0000_0000 - x
  {
    if x < 0x8000_0000 {
      LeadingBit(2 * x);
      var s := LeadingZeros(2 * x);
      MulAssoc(x, 2, Pow2(s));
      if s == 31 {
        Pow2Values();
        MulMonotone(2, 2 * x, 0x8000_0000);
      }
    }
  }

  // ---- the unsigned quotient ----

  /** Short divisor: long division in base 2^32, where DIVL cannot trap. */
  lemma UdivShortIsFloor(n: uint64, d: uint32)
    requires d != 0
    ensures UdivShort(n, d) == Value(n / d)
  {
    var n1, n0 := High(n), Wrap32(n);
    assert n == 0x1_0000_0000 * n1 + n0;
    LongDivision(n1, n0, d, 0x1_0000_0000);
    DivNonNegative(n, d);
    UdivShortUnfolded(n, d, 0x1_0000_0000 * (n1 % d) + n0, n1 / d);
  }

  lemma UdivShortUnfolded(n: uint64, d: uint32, partial: int, q1: int)
    requires d != 0
    requires partial == 0x1_0000_0000 * (High(n) % d) + Wrap32(n) && q1 == High(n) / d
    requires 0 <= partial < 0x1_0000_0000 * d && 0 <= partial / d < 0x1_0000_0000
    requires 0 <= partial / d + 0x1_0000_0000 * q1 < 0x1_0000_0000_0000_0000
    ensures UdivShort(n, d) == Value(partial / d + 0x1_0000_0000 * q1)
  {
    assert Wrap64(partial) == partial;
  }

  /** Long divisor: DIVL does not trap, and after the shift its estimate is the quotient
      or one more. */
  lemma UdivLongEstimate(n: uint64, d: uint64, s: nat, dd: int)
    requires High(d) != 0 && d <= n && s == LeadingZeros(High(d)) && s <= 31
    requires dd == High(Wrap64(d * Pow2(s)))
    ensures 0x8000_0000 <= dd && n / 2 / dd < 0x1_0000_0000
    ensures n / d <= n / 2 / dd / Pow2(31 - s) <= n / d + 1
  {
    var p, w := Pow2(s), Pow2(31 - s);
    TopWord(d, p) by {
      LeadingZerosBracket(High(d));
    }
    EstimateFits(n, dd);
    assert p * (2 * w) == 0x1_0000_0000 && (w == 1 || w >= 2) by {
      Pow2Add(s, 32 - s);
      Pow2Values();
      assert w == 1 || w == 2 * Pow2(30 - s);
    }
    ThreeDivisions(n, dd, w);
    TruncatedDivisor(d, p, dd, 2 * w);
    EstimateBounds(n, d, p, dd, 2 * w);
  }

  lemma EstimateFits(n: uint64, dd: int)
    requires 0x8000_0000 <= dd
    ensures n / 2 / dd < 0x1_0000_0000
  {
    DivBounds(n / 2, dd);
    MulMonotone(0x8000_0000, dd, 0x1_0000_0000);
    CancelBound(n / 2 / dd, 0x1_0000_0000, dd);
  }

  lemma EstimateBounds(n: uint64, d: uint64, p: nat, dd: int, k: int)
    requires 0 < d <= n && 0x8000_0000 <= dd
    requires (k == 2 || k >= 4) && p * k == 0x1_0000_0000
    requires dd * k <= d < dd * k + k
    ensures dd * k > 0
    ensures n / d <= n / (dd * k) <= n / d + 1
  {
    MulMonotone(0x8000_0000, dd, k);
    MulAssoc(2, p, k);
    EstimateWithinOne(n, d, dd * k, k, 2 * p, 0x8000_0000);
  }

  lemma TopWord(d: uint64, p: nat)
    requires p > 0
    requires 0x8000_0000 <= High(d) * p && (High(d) + 1) * p <= 0x1_0000_0000
    ensures 0x8000_0000_0000_0000 <= d * p < 0x1_0000_0000_0000_0000
    ensures 0x8000_0000 <= High(Wrap64(d * p)) < 0x1_0000_0000
    ensures High(Wrap64(d * p)) == d * p / 0x1_0000_0000
  {
    var d1: int := High(d);
    MulMonotone(0x1_0000_0000 * d1, d, p);
    MulMonotone(d + 1, 0x1_0000_0000 * (d1 + 1), p);
    MulAssoc(0x1_0000_0000, d1, p);
    MulAssoc(0x1_0000_0000, d1 + 1, p);
    MulDistribute(d, 1, p);
  }

  lemma ThreeDivisions(n: nat, dd: int, w: int)
    requires dd > 0 && w > 0
    ensures dd * (2 * w) > 0
    ensures n / 2 / dd / w == n / (dd * (2 * w))
  {
    DivDiv(n / 2, dd, w);
    DivDiv(n, 2, dd * w);
    MulAssoc(dd, 2, w);
    MulAssoc(2, dd, w);
  }

  /** `dd * k` is `d` with the bits below weight `k` cleared. */
  lemma TruncatedDivisor(d: uint64, p: nat, dd: int, k: int)
    requires p > 0 && k > 0 && p * k == 0x1_0000_0000 && dd == d * p / 0x1_0000_0000
    ensures dd * k <= d < dd * k + k
  {
    var b := 0x1_0000_0000;
    DivBounds(d * p, b);
    MulAssoc(dd, p, k);
    assert dd * b == (dd * k) * p by {
      MulAssoc(dd, k, p);
    }
    MulDistribute(dd * k, k, p);
    CancelBound(dd * k - 1, d, p) by {
      MulDistribute(dd * k, -1, p);
    }
    CancelBound(d, dd * k + k, p);
  }

  /** The single conditional correction, on exact integers. */
  lemma Correction(n: int, d: int, q: int)
    requires 0 < d <= n && n / d <= q <= n / d + 1
    ensures 1 <= n / d <= n && 0 <= n - (q - 1) * d <= n
    ensures n - (q - 1) * d < d <==> q == n / d + 1
  {
    DivBounds(n, d);
    DivNonNegative(n, d);
    CancelBound(0, n / d, d) by {
      if n / d <= 0 {
        MulMonotone(n / d, 0, d);
      }
    }
    MulDistribute(n / d, -1, d);
    MulMonotone(0, q - 1, d);
  }

  lemma UdivLongIsFloor(n: uint64, d: uint64)
    requires High(d) != 0 && d <= n
    ensures UdivLong(n, d) == Value(n / d)
  {
    LeadingZerosBracket(High(d));
    var s := LeadingZeros(High(d));
    var dd := High(Wrap64(d * Pow2(s)));
    UdivLongEstimate(n, d, s, dd);
    var q := n / 2 / dd / Pow2(31 - s);
    Correction(n, d, q);
    UdivLongUnfolded(n, d, s, dd, q);
  }

  lemma UdivLongUnfolded(n: uint64, d: uint64, s: nat, dd: int, q: int)
    requires High(d) != 0 && s == LeadingZeros(High(d)) && s <= 31
    requires dd == High(Wrap64(d * Pow2(s))) && dd > 0
    requires n / 2 / dd < 0x1_0000_0000 && q == n / 2 / dd / Pow2(31 - s)
    requires 1 <= q < 0x1_0000_0000_0000_0000 && 0 <= n - (q - 1) * d <= n
    ensures UdivLong(n, d) == Value(if n - (q - 1) * d < d then q - 1 else q)
  {
    hide LeadingZeros;
    hide Pow2;
    DivNonNegative(n / 2, dd);
    ModSmall(q - 1, 0x1_0000_0000_0000_0000);
    ModSmall(n - (q - 1) * d, 0x1_0000_0000_0000_0000);
  }

  /** udiv64 is floor division on all 64-bit inputs; the only trap is division by zero. */
  lemma Udiv64IsFloor(n: uint64, d: uint64)
    ensures Udiv64(n, d) == if d == 0 then DivideError else Value(n / d)
  {
    if High(d) == 0 {
      assert Wrap32(d) == d;
      if d != 0 {
        UdivShortIsFloor(n, d);
      }
    } else if n < d {
      DivUnique(n, d, 0);
    } else {
      UdivLongIsFloor(n, d);
    }
  }

  // ---- the signed quotient ----

  function Abs(x: int): nat {
    if x < 0 then -x else x
  }

  /** Division truncating toward zero, as C defines it. */
  function TruncDiv(n: int, d: int): int
    requires d != 0
  {
    var q := Abs(n) / Abs(d);
    if (n < 0) == (d < 0) then q else -q
  }

  function TruncMod(n: int, d: int): int
    requires d != 0
  {
    n - d * TruncDiv(n, d)
  }

  /** sdiv64 truncates toward zero exactly outside INT64_MIN / -1, where the quotient is
      not representable and the code returns INT64_MIN. */
  lemma Sdiv64Truncates(n: int64, d: int64)
    ensures d == 0 ==> Sdiv64(n, d) == DivideError
    ensures d != 0 ==> (Sdiv64(n, d) == Value(TruncDiv(n, d)) <==> !(n == INT64_MIN && d == -1))
    ensures n == INT64_MIN && d == -1 ==> Sdiv64(n, d) == Value(INT64_MIN)
  {
    hide Udiv64;
    hide ApplySign;
    Udiv64IsFloor(Abs(n), Abs(d));
    if d != 0 {
      var q := Abs(n) / Abs(d);
      DivNonNegative(Abs(n), Abs(d));
      ExtremeQuotient(Abs(n), Abs(d));
      if n == INT64_MIN && d == -1 {
        DivUnique(Abs(n), 1, 0x8000_0000_0000_0000);
      }
      ApplySignValue(n, d, q);
    }
  }

  lemma ApplySignValue(n: int64, d: int64, q: int)
    requires 0 <= q <= 0x8000_0000_0000_0000
    ensures ApplySign(n, d, q) == (if (n < 0) == (d < 0) then q else -q)
       <==> !(q == 0x8000_0000_0000_0000 && (n < 0) == (d < 0))
    ensures q == 0x8000_0000_0000_0000 ==> ApplySign(n, d, q) == INT64_MIN
  {
    hide Negate64;
    if q == 0x8000_0000_0000_0000 {
      NegateWord(-q);
    } else if 0 < q {
      NegateWord(q);
    } else {
      NegateZero();
    }
  }

  lemma NegateZero()
    ensures Negate64(0) == 0
  {
  }

  lemma NegateWord(x: int)
    requires x != 0 && -0x8000_0000_0000_0000 <= x < 0x8000_0000_0000_0000
    ensures Negate64(x) == if x > 0 then 0x1_0000_0000_0000_0000 - x else -x
  {
    DivUnique(-x, 0x1_0000_0000_0000_0000, if x > 0 then -1 else 0);
    DivBounds(-x, 0x1_0000_0000_0000_0000);
  }

  lemma ExtremeQuotient(n: int, d: int)
    requires 0 <= n <= 0x8000_0000_0000_0000 && 0 < d
    ensures n / d == 0x8000_0000_0000_0000 ==> n == 0x8000_0000_0000_0000 && d == 1
  {
    DivBounds(n, d);
    if n / d == 0x8000_0000_0000_0000 && d >= 2 {
      MulMonotone(2, d, n / d);
    }
  }

  /** The remainder is smaller than the divisor and takes the sign of the dividend. */
  lemma TruncModBounds(n: int, d: int)
    requires d != 0
    ensures Abs(TruncMod(n, d)) == Abs(n) % Abs(d)
    ensures TruncMod(n, d) == 0 || (TruncMod(n, d) < 0 <==> n < 0)
  {
    var q := Abs(n) / Abs(d);
    DivBounds(Abs(n), Abs(d));
    SignedProduct(n, d, q);
    assert TruncDiv(n, d) == if (n < 0) == (d < 0) then q else -q;
  }

  lemma SignedProduct(n: int, d: int, q: int)
    requires d != 0
    ensures d * (if (n < 0) == (d < 0) then q else -q) == if n < 0 then -(q * Abs(d)) else q * Abs(d)
  {
    assert d * -q == -(d * q) && q * -d == -(q * d) && d * q == q * d;
  }

  // ---- the remainders, which are narrower than their operands ----

  lemma Umod64Value(n: uint64, d: uint64)
    requires d != 0
    ensures Umod64(n, d) == Value(Wrap32(n % d))
  {
    hide Udiv64;
    Udiv64IsFloor(n, d);
    DivBounds(n, d);
    assert d * (n / d) == (n / d) * d;
    assert Wrap64(n - d * (n / d)) == n % d;
  }

  /** umod64 is the true remainder for every dividend exactly when the divisor is at most 2^32. */
  lemma Umod64Exact(d: uint64)
    requires d != 0
    ensures (forall n: uint64 :: Umod64(n, d) == Value(n % d)) <==> d <= 0x1_0000_0000
  {
    hide Umod64;
    if d <= 0x1_0000_0000 {
      forall n: uint64
        ensures Umod64(n, d) == Value(n % d)
      {
        Umod64Value(n, d);
      }
    } else {
      var n: uint64 := 0x1_0000_0000;
      Umod64Value(n, d);
      ModSmall(n, d);
    }
  }

  lemma WrapTwice(x: int)
    ensures ToInt32(Wrap64(x)) == ToInt32(x)
  {
    var b := 0x1_0000_0000;
    var k, w := x / 0x1_0000_0000_0000_0000, Wrap64(x);
    DivBounds(x, 0x1_0000_0000_0000_0000);
    DivBounds(w, b);
    DivUnique(x, b, b * k + w / b);
    DivBounds(x, b);
  }

  lemma Smod64Value(n: int64, d: int64)
    requires d != 0
    ensures Smod64(n, d) == Value(ToInt32(TruncMod(n, d)))
  {
    hide Sdiv64;
    Sdiv64Truncates(n, d);
    if n == INT64_MIN && d == -1 {
      assert TruncMod(n, d) == 0;
      assert Wrap64(n - d * n) == 0;
    } else {
      WrapTwice(TruncMod(n, d));
    }
  }

  lemma Smod64Small(n: int64, d: int64)
    requires 0 < Abs(d) <= 0x8000_0000
    ensures Smod64(n, d) == Value(TruncMod(n, d))
  {
    hide Smod64;
    hide TruncMod;
    Smod64Value(n, d);
    TruncModBounds(n, d);
    DivBounds(Abs(n), Abs(d));
    ToInt32Fits(TruncMod(n, d));
  }

  lemma ToInt32Fits(x: int)
    requires -0x8000_0000 <= x < 0x8000_0000
    ensures ToInt32(x) == x
  {
    DivUnique(x, 0x1_0000_0000, if x < 0 then -1 else 0);
    DivBounds(x, 0x1_0000_0000);
  }

  /** A remainder of 2^31, which does not fit. */
  lemma Smod64Wide(d: int64)
    requires Abs(d) > 0x8000_0000
    ensures TruncMod(0x8000_0000, d) == 0x8000_0000
    ensures Smod64(0x8000_0000, d) != Value(TruncMod(0x8000_0000, d))
  {
    hide Smod64;
    ModSmall(0x8000_0000, Abs(d));
    Smod64Value(0x8000_0000, d);
  }

  /** smod64 is the true remainder for every dividend exactly when |d| is at most 2^31. */
  lemma Smod64Exact(d: int64)
    requires d != 0
    ensures (forall n: int64 :: Smod64(n, d) == Value(TruncMod(n, d))) <==> Abs(d) <= 0x8000_0000
  {
    hide Smod64;
    hide TruncMod;
    if Abs(d) <= 0x8000_0000 {
      forall n: int64
        ensures Smod64(n, d) == Value(TruncMod(n, d))
      {
        Smod64Small(n, d);
      }
    } else {
      Smod64Wide(d);
    }
  }
}
