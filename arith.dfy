/**
 * C integer semantics the file core relies on, over unbounded integers:
 * truncating division, and the conversions into the 64-bit unsigned
 * `size_t` and signed `std::streamoff`. Also the quotient facts the
 * plane-count and section-offset proofs use.
 */
module Arithmetic {

  const TwoTo63: int := 0x8000_0000_0000_0000
  const TwoTo64: int := 0x1_0000_0000_0000_0000

  /** Conversion of any integer to `size_t`: reduction modulo 2^64. */
  function ToSize(x: int): (r: nat)
    ensures r < TwoTo64
    ensures 0 <= x < TwoTo64 ==> r == x
  {
    x % TwoTo64
  }

  /** Conversion of a `size_t` to the signed 64-bit `std::streamoff` (two's complement). */
  function ToOffset(u: nat): (r: int)
    requires u < TwoTo64
    ensures -TwoTo63 <= r < TwoTo63
    ensures (r - u) % TwoTo64 == 0
  {
    if u < TwoTo63 then u else u - TwoTo64
  }

  function Abs(x: int): int { if x < 0 then -x else x }

  /** C's `/` on int: the quotient truncates toward zero. */
  function TruncDiv(a: int, b: int): int
    requires b != 0
  {
    if b > 0 && a >= 0 then a / b
    else if b > 0 then -((-a) / b)
    else if a >= 0 then -(a / (-b))
    else (-a) / (-b)
  }

  /** A truncating quotient is never larger in magnitude than its dividend. */
  lemma QuotientShrinks(a: int, b: int)
    requires b != 0
    ensures Abs(TruncDiv(a, b)) <= Abs(a)
  {
    if b > 0 && a >= 0 {
      DivShrinks(a, b);
    } else if b > 0 {
      DivShrinks(-a, b);
    } else if a >= 0 {
      DivShrinks(a, -b);
    } else {
      DivShrinks(-a, -b);
    }
  }

  lemma DivShrinks(n: nat, d: nat)
    requires d > 0
    ensures n / d <= n
  {
    DivRem(n, d);
    MulMono(1, d, n / d);
  }

  lemma DivRem(n: nat, d: nat)
    requires d > 0
    ensures 0 <= n - (n / d) * d < d
  {
  }

  /** The remainder left by a truncating quotient is smaller than the divisor and takes the dividend's sign. */
  lemma {:induction false} TruncDivRemainder(a: int, b: int)
    requires b != 0
    ensures a >= 0 ==> 0 <= a - TruncDiv(a, b) * b < Abs(b)
    ensures a < 0 ==> -Abs(b) < a - TruncDiv(a, b) * b <= 0
  {
    if b > 0 && a >= 0 {
      DivRem(a, b);
    } else if b > 0 {
      var k := (-a) / b;
      DivRem(-a, b);
      assert a - (-k) * b == -((-a) - k * b);
    } else if a >= 0 {
      var k := a / (-b);
      DivRem(a, -b);
      assert a - (-k) * b == a - k * (-b);
    } else {
      var k := (-a) / (-b);
      DivRem(-a, -b);
      assert a - k * b == -((-a) - k * (-b));
    }
  }

  lemma MulMono(x: int, y: int, d: int)
    requires x <= y && 0 <= d
    ensures x * d <= y * d
  {
    assert y * d - x * d == (y - x) * d;
  }

  /** A quotient is determined by any exact decomposition with an in-range remainder. */
  lemma {:induction false} DivUnique(a: int, d: int, q: int, r: int)
    requires 0 < d && a == q * d + r && 0 <= r < d
    ensures a / d == q
  {
    var q0 := a / d;
    if q0 < q {
      MulMono(q0 + 1, q, d);
    } else if q < q0 {
      MulMono(q + 1, q0, d);
    }
  }

  /** Dividing by a nonzero divisor undoes multiplying by it, whatever the signs. */
  lemma {:induction false} TruncDivExact(q: int, b: int)
    requires b != 0
    ensures TruncDiv(q * b, b) == q
  {
    if b > 0 && q >= 0 {
      DivUnique(q * b, b, q, 0);
    } else if b > 0 {
      assert -(q * b) == (-q) * b;
      DivUnique(-(q * b), b, -q, 0);
    } else if q * b >= 0 {
      assert q * b == (-q) * (-b);
      DivUnique(q * b, -b, -q, 0);
    } else {
      assert -(q * b) == q * (-b);
      DivUnique(-(q * b), -b, q, 0);
    }
  }

  /** Two successive floor divisions are one division by the product. */
  lemma {:induction false} DivDiv(a: nat, b: int, c: int)
    requires 0 < b && 0 < c
    ensures a / b / c == a / (b * c)
  {
    var q, r := a / b, a % b;
    var q2, r2 := q / c, q % c;
    assert a == (q2 * c + r2) * b + r;
    assert a == q2 * (b * c) + (r2 * b + r);
    MulMono(r2, c - 1, b);
    assert (c - 1) * b == c * b - b;
    DivUnique(a, b * c, q2, r2 * b + r);
  }

}
