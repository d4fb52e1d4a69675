/** Remainder arithmetic behind the phase counter, the window cursor and the
    eviction phase of a frequency table. Dafny's `%` is Euclidean; C's `%`
    truncates toward zero, so the C operator is modelled by `TruncRem`. */
module ModArith {

  /** Quotient and remainder of division by a positive divisor are unique. */
  lemma DivModUnique(a: int, m: int, q: int, r: int)
    requires m > 0 && 0 <= r < m && a == q * m + r
    ensures a / m == q && a % m == r
  {
    var q0, r0 := a / m, a % m;
    assert (q0 - q) * m == r - r0;
    MulMagnitude(q0 - q, m);
  }

  /** A non-zero multiple of m is at least m in magnitude. */
  lemma MulMagnitude(k: int, m: int)
    requires m > 0
    ensures k >= 1 ==> k * m >= m
    ensures k <= -1 ==> k * m <= -m
  {
    if k >= 1 {
      assert k * m == (k - 1) * m + m;
    } else if k <= -1 {
      assert k * m == (k + 1) * m - m;
    }
  }

  /** Adding whole multiples of the divisor does not change the remainder. */
  lemma ModAddMultiple(a: int, t: int, m: int)
    requires m > 0
    ensures (a + t * m) % m == a % m
  {
    DivModUnique(a + t * m, m, a / m + t, a % m);
  }

  /** An empty count is at slot 0. */
  lemma ZeroRem(m: int)
    requires m > 0
    ensures 0 % m == 0
  {
    DivModUnique(0, m, 0, 0);
  }

  /** Advancing a counter that is kept reduced modulo m. */
  lemma ModSucc(k: int, m: int)
    requires m > 0
    ensures (k % m + 1) % m == (k + 1) % m
  {
    var q, r := k / m, k % m;
    if r + 1 < m {
      DivModUnique(k + 1, m, q, r + 1);
      DivModUnique(r + 1, m, 0, r + 1);
    } else {
      DivModUnique(k + 1, m, q + 1, 0);
      DivModUnique(r + 1, m, 1, 0);
    }
  }

  /** Two positions less than m apart fall in different slots modulo m. */
  lemma ModDistinct(p: int, k: int, m: int)
    requires m > 0 && 0 < k - p < m
    ensures p % m != k % m
  {
    if p % m == k % m {
      assert (k / m - p / m) * m == k - p;
      MulMagnitude(k / m - p / m, m);
    }
  }

  /** C's `a % b` for b > 0: the remainder takes the sign of the dividend. */
  function TruncRem(a: int, b: int): (r: int)
    requires b > 0
    ensures -b < r < b
    ensures a >= 0 ==> r >= 0
    ensures a < 0 ==> r <= 0
    ensures (a - r) % b == 0
  {
    RemainderGap(if a >= 0 then a else -a, b);
    if a >= 0 then a % b else -((-a) % b)
  }

  /** c and c % b, and their negations, differ by a multiple of b. */
  lemma RemainderGap(c: int, b: int)
    requires b > 0
    ensures (c - c % b) % b == 0
    ensures (-c + c % b) % b == 0
  {
    var q := c / b;
    DivModUnique(c - c % b, b, q, 0);
    DivModUnique(-c + c % b, b, -q, 0);
  }

  /** The eviction phase of freqtbl_push: a truncating remainder, shifted up
      by b when negative, is the Euclidean remainder. */
  lemma WrapTruncRem(a: int, b: int)
    requires b > 0
    ensures (if TruncRem(a, b) < 0 then TruncRem(a, b) + b else TruncRem(a, b)) == a % b
  {
    var r := TruncRem(a, b);
    if a < 0 {
      var q := (-a) / b;
      if r < 0 {
        DivModUnique(a, b, -q - 1, r + b);
      } else {
        DivModUnique(a, b, -q, 0);
      }
    }
  }
}
