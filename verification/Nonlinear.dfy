module Nonlinear {

  function Min(a: int, b: int): int { if a < b then a else b }

  function Pow2(k: nat): (p: nat)
    ensures p > 0
  {
    if k == 0 then 1 else 2 * Pow2(k - 1)
  }

  lemma MulMonotone(a: int, b: int, c: int)
    requires a <= b && 0 <= c
    ensures a * c <= b * c
  {
  }

  lemma MulAssoc(a: int, b: int, c: int)
    ensures a * (b * c) == (a * b) * c
  {
  }

  lemma MulDistribute(a: int, b: int, c: int)
    ensures (a + b) * c == a * c + b * c
  {
  }

  lemma DivBounds(n: int, d: int)
    requires d > 0
    ensures (n / d) * d <= n < (n / d) * d + d
    ensures n == (n / d) * d + n % d
  {
  }

  lemma DivUnique(n: int, d: int, q: int)
    requires d > 0
    requires q * d <= n < q * d + d
    ensures n / d == q
  {
    var p := n / d;
    DivBounds(n, d);
    if p < q {
      MulMonotone(p + 1, q, d);
    } else if p > q {
      MulMonotone(q + 1, p, d);
    }
  }

  lemma ModSmall(n: int, d: int)
    requires 0 <= n < d
    ensures n / d == 0 && n % d == n
  {
    DivUnique(n, d, 0);
    DivBounds(n, d);
  }

  lemma DivNonNegative(n: int, d: int)
    requires 0 <= n && 0 < d
    ensures 0 <= n / d <= n
  {
    DivBounds(n, d);
    CancelBound(-1, n / d, d);
    if n / d >= 0 {
      MulMonotone(1, d, n / d);
    }
  }

  /** A bound on the product bounds the factor. */
  lemma CancelBound(a: int, b: int, d: int)
    requires d > 0 && a * d < b * d
    ensures a < b
  {
    if a >= b {
      MulMonotone(b, a, d);
    }
  }

  lemma DivDiv(n: int, a: int, b: int)
    requires n >= 0 && a > 0 && b > 0
    ensures a * b > 0
    ensures n / a / b == n / (a * b)
  {
    MulMonotone(1, b, a);
    var q := n / a / b;
    DivBounds(n, a);
    DivBounds(n / a, b);
    MulMonotone(q * b, n / a, a);
    MulAssoc(q, b, a);
    MulMonotone(n / a + 1, q * b + b, a);
    MulDistribute(q * b, b, a);
    DivUnique(n, a * b, q);
  }

  /** Schoolbook long division with two digits in base `b`. */
  lemma LongDivision(n1: int, n0: int, d: int, b: int)
    requires 0 < d && 0 <= n0 < b && 0 <= n1
    ensures 0 <= b * (n1 % d) + n0 < b * d
    ensures 0 <= (b * (n1 % d) + n0) / d < b
    ensures (b * n1 + n0) / d == (b * (n1 % d) + n0) / d + b * (n1 / d)
  {
    DivBounds(n1, d);
    PartialBounds(n1 % d, n0, d, b);
    var partial := b * (n1 % d) + n0;
    DivBounds(partial, d);
    CancelBound(partial / d, b, d);
    CancelBound(-1, partial / d, d);
    LongDivisionSum(n1, n0, d, b, n1 / d, n1 % d, partial / d, partial % d);
    MulDistribute(partial / d, b * (n1 / d), d);
    DivUnique(b * n1 + n0, d, partial / d + b * (n1 / d));
  }

  lemma PartialBounds(r1: int, n0: int, d: int, b: int)
    requires 0 <= r1 < d && 0 <= n0 < b
    ensures 0 <= b * r1 + n0 < b * d
  {
    MulMonotone(r1 + 1, d, b);
    MulMonotone(0, r1, b);
  }

  lemma LongDivisionSum(n1: int, n0: int, d: int, b: int, q1: int, r1: int, q0: int, r0: int)
    requires n1 == q1 * d + r1 && b * r1 + n0 == q0 * d + r0
    ensures b * n1 + n0 == (q0 + b * q1) * d + r0
  {
    calc {
      b * n1 + n0;
      b * (q1 * d + r1) + n0;
      b * (q1 * d) + (b * r1 + n0);
      { MulAssoc(b, q1, d); }
      (b * q1) * d + q0 * d + r0;
      { MulDistribute(q0, b * q1, d); }
      (q0 + b * q1) * d + r0;
    }
  }

  /** `E` is the divisor with its low bits cleared and `k` the weight of the lowest bit kept.
      Dividing by `E` instead of `d` overshoots the quotient by at most one.
      `h` is half the word base, `m` the number of multiples of `k` in four times `h`. */
  lemma EstimateWithinOne(n: int, d: int, E: int, k: int, m: int, h: int)
    requires 0 <= n < 4 * (h * h) && 0 < d <= n && 0 < h
    requires (k == 2 || k >= 4) && m * k == 4 * h
    requires h * k <= E <= d < E + k
    ensures n / d <= n / E <= n / d + 1
  {
    MulMonotone(2, k, h);
    var Q, q := n / d, n / E;
    DivBounds(n, d);
    DivBounds(n, E);
    CancelBound(-1, Q, d);
    MulMonotone(E, d, Q);
    CancelBound(Q, q + 1, E) by { MulDistribute(q, 1, E); }
    if q >= Q + 2 {
      OvershootImpossible(n, d, E, k, m, h, Q, q);
    }
  }

  lemma OvershootImpossible(n: int, d: int, E: int, k: int, m: int, h: int, Q: int, q: int)
    requires 0 <= n < 4 * (h * h) && 0 < h && 0 <= Q && E > 0
    requires (k == 2 || k >= 4) && m * k == 4 * h
    requires h * k <= E <= d < E + k
    requires Q * d <= n < Q * d + d && q * E <= n
    ensures q < Q + 2
  {
    if q >= Q + 2 {
      MulMonotone(Q + 2, q, E);
      GapTooWide(n, d, E, k, Q);
      QuotientFits(n, d, k, m, h, Q);
      GapTooNarrow(E, k, m, h, Q);
    }
  }

  lemma GapTooWide(n: int, d: int, E: int, k: int, Q: int)
    requires 0 <= Q && d < E + k
    requires n < Q * d + d && (Q + 2) * E <= n
    ensures E + 1 <= (k - 1) * (Q + 1)
  {
    MulMonotone(d, E + (k - 1), Q + 1);
    MulDistribute(E, k - 1, Q + 1);
    assert (Q + 2) * E == E * (Q + 1) + E;
    assert d * (Q + 1) == Q * d + d;
  }

  lemma GapTooNarrow(E: int, k: int, m: int, h: int, Q: int)
    requires 0 < h && 0 <= Q && (k == 2 || k >= 4) && m * k == 4 * h
    requires h * k <= E && Q + 1 <= m
    ensures (k - 1) * (Q + 1) < E + 1
  {
    MulMonotone(Q + 1, m, k);
    assert (k - 1) * (Q + 1) == (Q + 1) * k - (Q + 1);
    if k >= 4 {
      MulMonotone(4, k, h);
      assert k * h == h * k;
    }
  }

  lemma QuotientFits(n: int, d: int, k: int, m: int, h: int, Q: int)
    requires n < 4 * (h * h) && 0 < h && 0 <= Q && k > 0
    requires m * k == 4 * h && h * k <= d && Q * d <= n
    ensures Q + 1 <= m
  {
    MulMonotone(h * k, d, Q);
    MulAssoc(Q, k, h);
    MulAssoc(4, h, h);
    CancelBound(Q * k, 4 * h, h);
    CancelBound(Q, m, k);
  }
}
