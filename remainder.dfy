/**
 * Integer remainder as the rover's source language computes it.
 *
 * Swift's `%` on `Int` truncates the quotient toward zero, so the remainder
 * takes the sign of the dividend and can be negative; it ignores the sign of
 * the divisor. Dafny's own `%` is Euclidean (never negative). This module
 * defines the truncating remainder explicitly and relates the two.
 */
module Remainder {

  function Abs(n: int): (a: nat) {
    if n < 0 then -n else n
  }

  /** Euclidean division is unique: any quotient/remainder pair with the
      remainder in [0, m) is the one Dafny's `/` and `%` give. */
  lemma EuclideanUnique(a: int, m: int, q: int, r: int)
    requires m > 0 && 0 <= r < m && a == q * m + r
    ensures a / m == q && a % m == r
  {
    var q', r' := a / m, a % m;
    assert a == q' * m + r';
    assert (q - q') * m == r' - r;
    if q > q' {
      MultipleAtLeast(q - q', m);
      assert false;
    } else if q < q' {
      MultipleAtLeast(q' - q, m);
      assert false;
    }
  }

  lemma MultipleAtLeast(k: int, m: int)
    requires k >= 1 && m > 0
    ensures k * m >= m
  {
    assert k * m == (k - 1) * m + m;
    assert (k - 1) * m >= 0;
  }

  /** A multiple of m leaves remainder 0. */
  lemma MultipleHasZeroRemainder(q: int, m: int)
    requires m > 0
    ensures (q * m) % m == 0
  {
    EuclideanUnique(q * m, m, q, 0);
  }

  /** Adding whole multiples of m does not change the Euclidean remainder. */
  lemma RemainderShift(a: int, k: int, m: int)
    requires m > 0
    ensures (a + k * m) % m == a % m
  {
    var q := a / m;
    assert a == q * m + a % m;
    assert (q + k) * m == q * m + k * m;
    EuclideanUnique(a + k * m, m, q + k, a % m);
  }

  /** Equal remainders mean the difference is a multiple. */
  lemma SameRemainderDifference(a: int, b: int, m: int)
    requires m > 0 && a % m == b % m
    ensures (a - b) % m == 0
  {
    var qa, qb := a / m, b / m;
    assert a == qa * m + a % m;
    assert b == qb * m + b % m;
    assert (qa - qb) * m == qa * m - qb * m;
    assert a - b == (qa - qb) * m;
    MultipleHasZeroRemainder(qa - qb, m);
  }

  /**
   * Swift's `a % m` for `m != 0`: the magnitude is the remainder of |a| by |m|
   * and the sign is that of `a`. The result is smaller than |m| in magnitude,
   * never has the opposite sign of `a`, and differs from `a` by a multiple of `m`
   * (these four facts determine it).
   */
  function TruncRem(a: int, m: int): (r: int)
    requires m != 0
    ensures Abs(r) < Abs(m)
    ensures a >= 0 ==> r >= 0
    ensures a <= 0 ==> r <= 0
    ensures (a - r) % Abs(m) == 0
  {
    var n := Abs(m);
    if a >= 0 then
      assert a - a % n == (a / n) * n;
      MultipleHasZeroRemainder(a / n, n);
      a % n
    else
      var q := (-a) / n;
      assert -a == q * n + (-a) % n;
      assert a - -((-a) % n) == (-q) * n;
      MultipleHasZeroRemainder(-q, n);
      -((-a) % n)
  }

  /** For a negative dividend the truncating remainder is the Euclidean one
      shifted down by |m|, unless the dividend is a multiple of m. */
  lemma TruncRemOfNegative(a: int, m: int)
    requires m != 0 && a < 0
    ensures TruncRem(a, m) == if a % Abs(m) == 0 then 0 else a % Abs(m) - Abs(m)
  {
    var n, r := Abs(m), TruncRem(a, m);
    var q := (a - r) / n;
    assert a - r == q * n;
    if r == 0 {
      EuclideanUnique(a, n, q, 0);
    } else {
      EuclideanUnique(a, n, q - 1, r + n);
    }
  }
}
