/** Facts about integer division by a positive divisor that the solver does
    not find on its own when the divisor is not a literal. */
module Arithmetic {

  lemma MulMonotone(a: int, b: int, c: int)
    requires a <= b && c >= 0
    ensures a * c <= b * c
  {
    assert b * c - a * c == (b - a) * c;
  }

  /** Quotient and remainder are the unique pair with `m == q * d + r` and `0 <= r < d`. */
  lemma DivModUnique(m: int, d: int, q: int, r: int)
    requires d > 0 && 0 <= r < d
    requires m == q * d + r
    ensures m / d == q && m % d == r
  {
    var q0 := m / d;
    var r0 := m % d;
    assert m == q0 * d + r0;
    assert (q - q0) * d == r0 - r;
    if q - q0 >= 1 {
      MulMonotone(1, q - q0, d);
    } else if q - q0 <= -1 {
      MulMonotone(q - q0, -1, d);
    }
  }

  lemma ModOfMultiple(k: int, d: int)
    requires d > 0
    ensures (k * d) % d == 0 && (k * d) / d == k
  {
    DivModUnique(k * d, d, k, 0);
  }

  /** A multiple of `a * b` divided by `b` is a multiple of `a`. */
  lemma MultipleOfProduct(x: int, a: int, b: int)
    requires a > 0 && b > 0 && x % (a * b) == 0
    ensures (x / b) * b == x
    ensures (x / b) % a == 0
  {
    var k := x / (a * b);
    assert x == k * (a * b);
    assert x == (k * a) * b;
    ModOfMultiple(k * a, b);
    ModOfMultiple(k, a);
  }

  /** Reducing a multiple of `k` modulo a multiple of `k` leaves a multiple of `k`. */
  lemma ModOfCommonDivisor(a: int, m: int, k: int)
    requires k > 0 && m > 0 && a % k == 0 && m % k == 0
    ensures (a % m) % k == 0
  {
    var i, j := a / k, m / k;
    assert a == i * k && m == j * k;
    var q := a / m;
    assert a % m == a - q * m;
    assert q * m == (q * j) * k;
    assert a % m == (i - q * j) * k;
    ModOfMultiple(i - q * j, k);
  }

  /** The nearest value to `x` in `lo..hi` (the Temporal proposal's ConstrainToRange). */
  function Clamp(x: int, lo: int, hi: int): (r: int)
    requires lo <= hi
    ensures lo <= r <= hi
    ensures lo <= x <= hi ==> r == x
    ensures x < lo ==> r == lo
    ensures x > hi ==> r == hi
  {
    if x < lo then lo else if x > hi then hi else x
  }

  // The Temporal proposal's truncate(a / b) and remainder(a, b); Dafny's own / and %
  // round towards negative infinity for a positive divisor.

  function TruncDiv(a: int, b: int): int
    requires b > 0
  {
    if a >= 0 then a / b else -((-a) / b)
  }

  function TruncRem(a: int, b: int): (r: int)
    requires b > 0
    ensures a == TruncDiv(a, b) * b + r
    ensures a >= 0 ==> 0 <= r < b
    ensures a < 0 ==> -b < r <= 0
  {
    if a >= 0 then a % b else -((-a) % b)
  }

  /** A quotient truncated towards zero vanishes for a dividend smaller than the divisor in magnitude. */
  lemma TruncDivSmall(a: int, b: int)
    requires b > 0 && -b < a < b
    ensures TruncDiv(a, b) == 0 && TruncRem(a, b) == a
  {
    if a >= 0 {
      DivModUnique(a, b, 0, a);
    } else {
      DivModUnique(-a, b, 0, -a);
    }
  }

  /** Truncating division and its remainder are odd in the dividend. */
  lemma TruncDivNegate(a: int, b: int)
    requires b > 0
    ensures TruncDiv(-a, b) == -TruncDiv(a, b) && TruncRem(-a, b) == -TruncRem(a, b)
  {
    if a > 0 {
      assert -(-a) == a;
    } else if a < 0 {
      assert -a > 0;
    }
  }

  lemma TruncDivOfSmall(a: int, b: int)
    requires b > 0
    ensures -b < a < b ==> TruncDiv(a, b) == 0
  {
    if -b < a < b {
      TruncDivSmall(a, b);
    }
  }
}
