/**
 * Conversion of a float to an integer type, as C performs it: the value is
 * truncated toward zero. Over the reals, i times a gradient (delta/depth)
 * is the quotient (i*delta)/depth, so each truncation the colour maps take
 * is an integer division; this module proves that bridge once.
 */
module FloatCast {
  import opened Flat

  /** The values of `uint8_t`, the target of the casts. */
  type Byte = b: int | 0 <= b < 0x100

  /** Truncation toward zero. */
  function Trunc(x: real): int
  {
    if x >= 0.0 then x.Floor else -((-x).Floor)
  }

  /** Integer division truncating toward zero, as C divides integers. */
  function TruncDiv(n: int, d: nat): int
    requires d > 0
  {
    if n >= 0 then n / d else -((-n) / d)
  }

  /** The floor of n/d over the reals is the (Euclidean) integer quotient. */
  lemma FloorQuotient(n: int, d: nat)
    requires d > 0
    ensures (n as real / d as real).Floor == n / d
  {
    var q, r := n / d, n % d;
    assert n == r + q * d;
    assert n as real == r as real + q as real * d as real;
    assert n as real / d as real == q as real + r as real / d as real;
    assert 0.0 <= r as real / d as real < 1.0;
  }

  /** Truncating i times the real quotient delta/depth truncates the integer quotient i*delta/depth. */
  lemma TruncStep(i: nat, depth: nat, delta: int)
    requires depth > 0
    ensures Trunc(i as real * (delta as real / depth as real)) == TruncDiv(i * delta, depth)
  {
    var n := i * delta;
    assert (i * delta) as real == i as real * delta as real;
    assert i as real * (delta as real / depth as real) == n as real / depth as real;
    if n >= 0 {
      FloorQuotient(n, depth);
    } else {
      FloorQuotient(-n, depth);
      assert -(n as real / depth as real) == (-n) as real / depth as real;
    }
  }

  /** A real whose product with d is n is the quotient n/d. */
  lemma RealQuotient(x: real, n: real, d: real)
    requires d > 0.0 && x * d == n
    ensures x == n / d
  {
  }

  /** a*d <= n gives a <= n/d. */
  lemma QuotientAtLeast(n: nat, d: nat, a: nat)
    requires d > 0 && a * d <= n
    ensures a <= n / d
  {
    var m: nat := n - a * d;
    DivMod(m, d);
    assert n == m % d + (a + m / d) * d;
    DivModOf(d, m % d, a + m / d);
  }

  /** n <= b*d gives n/d <= b, and n < b*d gives n/d < b. */
  lemma QuotientAtMost(n: nat, d: nat, b: nat)
    requires d > 0 && n <= b * d
    ensures n / d <= b
    ensures n < b * d ==> n / d < b
  {
    QuotientBound(n, d, b + 1);
    if n < b * d {
      QuotientBound(n, d, b);
    }
  }
}
