/** rational_approx: continued-fraction expansion of a positive ratio into
    an integer fraction num/den within a tolerance. The ratio is a rational
    tp/tq here, so the remainder `work` is the rational wn/wd and the
    expansion is Euclid's algorithm on (wn, wd). */
module Rational {
  import ModArith

  function Abs(x: real): real
  {
    if x < 0.0 then -x else x
  }

  /** num/den lies within `error` of tp/tq. */
  predicate Within(tp: int, tq: int, num: int, den: int, error: real)
    requires tq > 0 && den > 0
  {
    Abs(tp as real / tq as real - num as real / den as real) < error
  }

  /** The 2x2 convergent matrix [n ln; d ld]: (n, d) is the current
      convergent and (ln, ld) the previous one. */
  datatype Matrix = Matrix(n: int, ln: int, d: int, ld: int)

  function Identity(): Matrix
  {
    Matrix(1, 0, 0, 1)
  }

  function Det(m: Matrix): int
  {
    m.n * m.ld - m.ln * m.d
  }

  /** M * [a 1; 1 0]: fold the partial quotient a into the convergents. */
  function PostMultiply(m: Matrix, a: int): (r: Matrix)
    ensures Det(r) == -Det(m)
    ensures r.ln == m.n && r.ld == m.d
  {
    Matrix(a * m.n + m.ln, m.n, a * m.d + m.ld, m.d)
  }

  /** A fraction whose matrix has determinant +1 or -1 is in lowest terms:
      every positive common divisor of num and den is 1. */
  lemma DetUnitCoprime(m: Matrix, k: int)
    requires Det(m) == 1 || Det(m) == -1
    requires k >= 1 && m.n % k == 0 && m.d % k == 0
    ensures k == 1
  {
    var a, b := m.n / k, m.d / k;
    assert m.n == k * a && m.d == k * b;
    var x := a * m.ld - m.ln * b;
    assert k * x == Det(m);
    if x >= 1 {
      assert k * x == k + k * (x - 1);
    } else if x <= -1 {
      assert k * x == -k + k * (x + 1);
    }
  }

  lemma CrossMultiplied(a: int, b: int, c: int, d: int)
    requires b > 0 && d > 0 && a * d == c * b
    ensures a as real / b as real == c as real / d as real
  {
    assert (a * d) as real == (c * b) as real;
  }

  /** After the first step the convergents are non-negative and den >= 1. */
  lemma StepKeepsSigns(m: Matrix, a: int)
    requires m.n >= 0 && m.ln >= 0 && m.d >= 0 && m.ld >= 0 && a >= 0
    requires m.d >= 1 || m.ld >= 1
    requires m.d >= 1 ==> a >= 1
    ensures var r := PostMultiply(m, a);
      r.d >= 1 && r.ld >= 0 && r.n >= 0 && r.ln >= 0
  {
    if a >= 1 {
      MulAtLeast(a, m.d);
      MulAtLeast(a, m.n);
    } else {
      assert a == 0;
    }
  }

  lemma {:induction false} MulAtLeast(a: int, b: int)
    requires a >= 1 && b >= 0
    ensures a * b >= b
    decreases a
  {
    if a > 1 {
      MulAtLeast(a - 1, b);
      assert a * b == (a - 1) * b + b;
    }
  }

  /** The expansion of rational_approx, on the matrix entries n, ln, d, ld
      as the C code keeps them. It returns the convergent num/den and, as
      ghost results, the matrix it ends with and the number of partial
      quotients taken. The loop stops on an exact integer remainder (then
      num/den is the ratio itself) or once num/den is closer than `error`;
      either way |tp/tq - num/den| < error, and the stop is the first one
      the expansion `Expand` reaches. */
  method RationalApprox(tp: int, tq: int, error: real)
    returns (num: int, den: int, ghost last: Matrix, ghost steps: nat)
    requires tp > 0 && tq > 0 && error > 0.0
    ensures last.n == num && last.d == den
    ensures steps >= 1 && Det(last) == Parity(steps)
    ensures den >= 1 && num >= 0
    ensures Within(tp, tq, num, den, error)
    ensures last == Expand(tp, tq, steps).m && FirstStop(tp, tq, error, steps)
  {
    // work == wn / wd; wd == 0 once a remainder was exact
    var wn, wd := tp, tq;
    var n, ln := 1, 0;
    var d, ld := 0, 1;
    steps := 0;
    var done := false;
    while !done
      invariant Expand(tp, tq, steps) == Expansion(Matrix(n, ln, d, ld), wn, wd)
      invariant !done ==> wd > 0 && NoStopUpTo(tp, tq, error, steps)
      invariant done ==> FirstStop(tp, tq, error, steps) && Within(tp, tq, n, d, error)
      decreases if done then 0 else wd + 1
    {
      var intpart := wn / wd;
      ExpandStep(tp, tq, steps, n, ln, d, ld, wn, wd, intpart);
      // M * [intpart 1; 1 0] -> M
      n, ln := intpart * n + ln, n;
      d, ld := intpart * d + ld, d;
      steps := steps + 1;
      // work := 1 / (work - intpart); the C code skips this on an exact
      // remainder, where the loop ends either way
      wn, wd := wd, wn % wd;
      if wd == 0 {
        // work == intpart: the expansion is exact
        StopExact(tp, tq, error, steps, n, ln, d, ld, wn);
        done := true;
      } else {
        ExpandSigns(tp, tq, steps);
        if Abs(tp as real / tq as real - n as real / d as real) < error {
          StopWithin(tp, tq, error, steps, Matrix(n, ln, d, ld), wn, wd);
          done := true;
        } else {
          GoOn(tp, tq, error, steps, Matrix(n, ln, d, ld), wn, wd);
        }
      }
    }
    ExpandSigns(tp, tq, steps);
    FirstStopDet(tp, tq, error, steps);
    num, den := n, d;
    last := Matrix(n, ln, d, ld);
  }

  /** The state of the expansion of tp/tq after k partial quotients: the
      convergent matrix and the remainder work = wn/wd. wd == 0 records that
      a remainder was an exact integer; the expansion then stops there. */
  datatype Expansion = Expansion(m: Matrix, wn: int, wd: int)

  /** Euclid's algorithm on (tp, tq), folding each quotient into the
      matrix with PostMultiply, starting from the identity. */
  function Expand(tp: int, tq: int, k: nat): (e: Expansion)
    requires tp > 0 && tq > 0
    ensures e.wn > 0 && e.wd >= 0
  {
    if k == 0 then Expansion(Identity(), tp, tq)
    else
      var e := Expand(tp, tq, k - 1);
      if e.wd == 0 then e
      else Expansion(PostMultiply(e.m, e.wn / e.wd), e.wd, e.wn % e.wd)
  }

  /** The loop of rational_approx may stop after k >= 1 quotients: the last
      remainder was exact, or num/den is within `error` of the target. */
  ghost predicate Stops(tp: int, tq: int, k: nat, error: real)
    requires tp > 0 && tq > 0
  {
    var e := Expand(tp, tq, k);
    k >= 1 && e.m.d >= 1 && (e.wd == 0 || Within(tp, tq, e.m.n, e.m.d, error))
  }

  /** The loop does not stop after any of the first k quotients. */
  ghost predicate NoStopUpTo(tp: int, tq: int, error: real, k: nat)
    requires tp > 0 && tq > 0
  {
    k == 0 || (NoStopUpTo(tp, tq, error, k - 1) && !Stops(tp, tq, k, error))
  }

  /** k is the first number of quotients at which the loop stops. */
  ghost predicate FirstStop(tp: int, tq: int, error: real, k: nat)
    requires tp > 0 && tq > 0
  {
    k >= 1 && Stops(tp, tq, k, error) && NoStopUpTo(tp, tq, error, k - 1)
  }

  lemma {:induction false} NoStopBefore(tp: int, tq: int, error: real, k: nat, j: nat)
    requires tp > 0 && tq > 0 && NoStopUpTo(tp, tq, error, k) && 1 <= j <= k
    ensures !Stops(tp, tq, j, error)
    decreases k
  {
    if j < k {
      NoStopBefore(tp, tq, error, k - 1, j);
    }
  }

  /** The expansion keeps tp/tq = (n*work + ln)/(d*work + ld), written
      cross-multiplied with work = wn/wd. */
  lemma {:induction false} ExpandRatio(tp: int, tq: int, k: nat)
    requires tp > 0 && tq > 0
    ensures var e := Expand(tp, tq, k);
      e.m.n * e.wn + e.m.ln * e.wd == tp && e.m.d * e.wn + e.m.ld * e.wd == tq
  {
    if k >= 1 {
      ExpandRatio(tp, tq, k - 1);
      var e := Expand(tp, tq, k - 1);
      if e.wd != 0 {
        var n, ln, d, ld, wn, wd := e.m.n, e.m.ln, e.m.d, e.m.ld, e.wn, e.wd;
        StepKeepsRatio(n, ln, d, ld, wn, wd, tp, tq);
        ExpandStep(tp, tq, k - 1, n, ln, d, ld, wn, wd, wn / wd);
      }
    }
  }

  /** From the first quotient on the convergents are non-negative, den >= 1,
      and the remainder wn/wd exceeds one (wn > wd): the fractional part
      the loop inverts is below one. */
  lemma {:induction false} ExpandSigns(tp: int, tq: int, k: nat)
    requires tp > 0 && tq > 0
    ensures var e := Expand(tp, tq, k);
      k >= 1 ==> e.m.d >= 1 && e.m.ld >= 0 && e.m.n >= 0 && e.m.ln >= 0 && e.wn > e.wd
  {
    if k >= 1 {
      ExpandSigns(tp, tq, k - 1);
      var e := Expand(tp, tq, k - 1);
      if e.wd != 0 {
        var n, ln, d, ld, wn, wd := e.m.n, e.m.ln, e.m.d, e.m.ld, e.wn, e.wd;
        var a := wn / wd;
        if k >= 2 {
          QuotientAtLeastOne(wn, wd);
        }
        StepKeepsSigns(Matrix(n, ln, d, ld), a);
        ExpandStep(tp, tq, k - 1, n, ln, d, ld, wn, wd, a);
      }
    }
  }

  /** Each quotient taken flips the determinant: after k quotients, none of
      them from an exact remainder but possibly the last, it is (-1)^k. */
  lemma {:induction false} ExpandDet(tp: int, tq: int, k: nat)
    requires tp > 0 && tq > 0
    requires k == 0 || Expand(tp, tq, k - 1).wd > 0
    ensures Det(Expand(tp, tq, k).m) == Parity(k)
  {
    if k >= 1 {
      if k >= 2 {
        ExpandHalts(tp, tq, k - 2);
      }
      ExpandDet(tp, tq, k - 1);
      ExpandFlipsDet(tp, tq, k - 1);
      ParityFlips(k - 1);
    }
  }

  /** A quotient of a remainder that is not exact flips the determinant. */
  lemma ExpandFlipsDet(tp: int, tq: int, k: nat)
    requires tp > 0 && tq > 0 && Expand(tp, tq, k).wd > 0
    ensures Det(Expand(tp, tq, k + 1).m) == -Det(Expand(tp, tq, k).m)
  {
    var e := Expand(tp, tq, k);
    ExpandStep(tp, tq, k, e.m.n, e.m.ln, e.m.d, e.m.ld, e.wn, e.wd, e.wn / e.wd);
    assert Expand(tp, tq, k + 1).m == PostMultiply(e.m, e.wn / e.wd);
  }

  /** After an exact remainder the expansion stays where it is. */
  lemma ExpandHalts(tp: int, tq: int, k: nat)
    requires tp > 0 && tq > 0
    ensures Expand(tp, tq, k).wd == 0 ==> Expand(tp, tq, k + 1) == Expand(tp, tq, k)
  {
  }

  /** Where the loop first stops, the determinant is (-1)^k: every earlier
      remainder went on, so none was exact. */
  lemma FirstStopDet(tp: int, tq: int, error: real, k: nat)
    requires tp > 0 && tq > 0 && FirstStop(tp, tq, error, k)
    ensures Det(Expand(tp, tq, k).m) == Parity(k)
  {
    if k >= 2 {
      NoStopBefore(tp, tq, error, k - 1, k - 1);
      ExpandSigns(tp, tq, k - 1);
    }
    ExpandDet(tp, tq, k);
  }

  /** One more quotient of a remainder that is not yet exact. */
  lemma ExpandStep(tp: int, tq: int, k: nat, n: int, ln: int, d: int, ld: int, wn: int, wd: int, a: int)
    requires tp > 0 && tq > 0 && wd > 0 && a == wn / wd
    requires Expand(tp, tq, k) == Expansion(Matrix(n, ln, d, ld), wn, wd)
    ensures Expand(tp, tq, k + 1) == Expansion(Matrix(a * n + ln, n, a * d + ld, d), wd, wn % wd)
  {
  }

  /** The loop's exact exit after k quotients is its first stop, and the
      convergent is the target itself. */
  lemma StopExact(tp: int, tq: int, error: real, k: nat, n: int, ln: int, d: int, ld: int, wn: int)
    requires tp > 0 && tq > 0 && error > 0.0 && k >= 1 && NoStopUpTo(tp, tq, error, k - 1)
    requires Expand(tp, tq, k) == Expansion(Matrix(n, ln, d, ld), wn, 0)
    ensures d >= 1 && FirstStop(tp, tq, error, k) && Within(tp, tq, n, d, error)
  {
    ExpandSigns(tp, tq, k);
    ExpandRatio(tp, tq, k);
    ExactConvergent(n, ln, d, ld, wn, 0, tp, tq);
  }

  /** Once a remainder is exact the convergent is the target itself:
      num * tq == tp * den. */
  lemma ExactExpansion(tp: int, tq: int, k: nat)
    requires tp > 0 && tq > 0 && Expand(tp, tq, k).wd == 0
    ensures Expand(tp, tq, k).m.n * tq == tp * Expand(tp, tq, k).m.d
  {
    ExpandRatio(tp, tq, k);
    var e := Expand(tp, tq, k);
    ExactCross(e.m.n, e.m.ln, e.m.d, e.m.ld, e.wn, e.wd, tp, tq);
  }

  /** The loop's exit on the tolerance after k quotients is its first stop. */
  lemma StopWithin(tp: int, tq: int, error: real, k: nat, m: Matrix, wn: int, wd: int)
    requires tp > 0 && tq > 0 && k >= 1 && NoStopUpTo(tp, tq, error, k - 1) && m.d >= 1
    requires Expand(tp, tq, k) == Expansion(m, wn, wd) && Within(tp, tq, m.n, m.d, error)
    ensures FirstStop(tp, tq, error, k)
  {
  }

  /** The loop goes on after k quotients: it has not stopped so far. */
  lemma GoOn(tp: int, tq: int, error: real, k: nat, m: Matrix, wn: int, wd: int)
    requires tp > 0 && tq > 0 && k >= 1 && NoStopUpTo(tp, tq, error, k - 1) && m.d >= 1 && wd > 0
    requires Expand(tp, tq, k) == Expansion(m, wn, wd) && !Within(tp, tq, m.n, m.d, error)
    ensures NoStopUpTo(tp, tq, error, k)
  {
  }

  /** The loop stops at one place only, so the convergent it returns is
      determined by the target and the tolerance. */
  lemma FirstStopUnique(tp: int, tq: int, error: real, k1: nat, k2: nat)
    requires tp > 0 && tq > 0
    requires FirstStop(tp, tq, error, k1) && FirstStop(tp, tq, error, k2)
    ensures k1 == k2
  {
    if k1 < k2 {
      NoStopBefore(tp, tq, error, k2 - 1, k1);
    } else if k2 < k1 {
      NoStopBefore(tp, tq, error, k1 - 1, k2);
    }
  }

  /** An integer target is exact after its first quotient: the loop
      returns the target itself over 1, whatever the tolerance. */
  lemma IntegerTarget(tp: int, error: real, k: nat)
    requires tp > 0 && FirstStop(tp, 1, error, k)
    ensures k == 1 && Expand(tp, 1, k).m == Matrix(tp, 1, 1, 0)
  {
    assert Expand(tp, 1, 1) == Expansion(Matrix(tp, 1, 1, 0), 1, 0);
    assert FirstStop(tp, 1, error, 1);
    FirstStopUnique(tp, 1, error, k, 1);
  }

  /** One step keeps the ratio tp/tq equal to (n*work + ln)/(d*work + ld),
      written cross-multiplied with work = wn/wd. */
  lemma StepKeepsRatio(n: int, ln: int, d: int, ld: int, wn: int, wd: int, tp: int, tq: int)
    requires wn > 0 && wd > 0
    requires n * wn + ln * wd == tp && d * wn + ld * wd == tq
    ensures var a := wn / wd;
      (a * n + ln) * wd + n * (wn % wd) == tp && (a * d + ld) * wd + d * (wn % wd) == tq
  {
    var a := wn / wd;
    assert wn % wd == wn - a * wd;
  }

  /** (-1)^steps: the determinant after `steps` partial quotients. */
  function Parity(steps: nat): int
  {
    if steps % 2 == 0 then 1 else -1
  }

  lemma ParityFlips(steps: nat)
    ensures Parity(steps + 1) == -Parity(steps)
  {
  }

  lemma QuotientAtLeastOne(a: int, b: int)
    requires a >= b > 0
    ensures a / b >= 1
  {
    ModArith.MulMagnitude(a / b, b);
  }

  /** On an exact remainder the convergent equals the ratio. */
  lemma ExactConvergent(n: int, ln: int, d: int, ld: int, w: int, wd: int, tp: int, tq: int)
    requires d >= 1 && w > 0 && tq > 0 && wd == 0
    requires n * w + ln * wd == tp && d * w + ld * wd == tq
    ensures Abs(tp as real / tq as real - n as real / d as real) == 0.0
  {
    ExactCross(n, ln, d, ld, w, wd, tp, tq);
    CrossMultiplied(n, d, tp, tq);
  }

  /** The same, cross-multiplied: with wd == 0, n*w == tp and d*w == tq. */
  lemma ExactCross(n: int, ln: int, d: int, ld: int, w: int, wd: int, tp: int, tq: int)
    requires wd == 0 && n * w + ln * wd == tp && d * w + ld * wd == tq
    ensures n * tq == tp * d
  {
    assert ln * wd == 0 && ld * wd == 0;
    assert n * tq == n * (d * w);
    assert tp * d == (n * w) * d;
  }
}
