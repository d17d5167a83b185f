/**
 * Exact arithmetic behind the planner's compound-interest formulas: integer
 * powers of a growth factor, the finite geometric sum they add up to, and the
 * conversion of an annual percentage into a monthly rate. Python floats are
 * modelled as Dafny `real`, so every identity here holds exactly.
 */
module Compounding {

  /** Monthly rate for an annual percentage. The planner writes it both as
      `annual / 100 / 12` and as `annual / 12 / 100`; over the reals they agree. */
  function MonthlyRate(annualPct: real): (r: real)
    ensures r * 1200.0 == annualPct
    ensures r == 0.0 <==> annualPct == 0.0
    ensures r > 0.0 <==> annualPct > 0.0
  {
    annualPct / 100.0 / 12.0
  }

  /** One month's growth factor 1 + r for an annual percentage: the base that
      both the closed form and the simulation raise to a power. */
  function MonthlyGrowth(annualPct: real): (x: real)
    ensures (x - 1.0) * 1200.0 == annualPct
    ensures x > 1.0 <==> annualPct > 0.0
    ensures x == 1.0 <==> annualPct == 0.0
  {
    1.0 + MonthlyRate(annualPct)
  }

  /** `x ** n` for a non-negative integer exponent. */
  function Pow(x: real, n: nat): (p: real)
  {
    if n == 0 then 1.0 else x * Pow(x, n - 1)
  }

  /** Signs and bounds of `x ** n`: non-zero for a non-zero base, positive for
      a positive base, at least 1 for a base of at least 1, and above 1 for a
      base above 1 and a positive exponent. */
  lemma {:induction false} PowBounds(x: real, n: nat)
    ensures x != 0.0 ==> Pow(x, n) != 0.0
    ensures x > 0.0 ==> Pow(x, n) > 0.0
    ensures x >= 1.0 ==> Pow(x, n) >= 1.0
    ensures x > 1.0 && n > 0 ==> Pow(x, n) > 1.0
  {
    if n > 0 {
      PowBounds(x, n - 1);
      var p := Pow(x, n - 1);
      if x >= 1.0 {
        MulMonotone(1.0, x, 1.0, p);
      }
      if x > 1.0 {
        assert x * p - p == (x - 1.0) * p;
      }
    }
  }

  /** `x ** n` for any integer exponent, as Python evaluates it: a negative
      exponent gives the reciprocal of the positive power, and `0.0 ** -n`
      is a division by zero, which callers must avoid. */
  function IntPow(x: real, n: int): (p: real)
    requires x != 0.0 || n >= 0
    ensures n >= 0 ==> p == Pow(x, n)
    ensures n < 0 ==> p * Pow(x, -n) == 1.0
  {
    if n >= 0 then Pow(x, n) else PowBounds(x, -n); 1.0 / Pow(x, -n)
  }

  /** 1 + x + x^2 + ... + x^(n-1): what n contributions of one unit are worth
      when the last one has not grown, the one before grew by x, and so on. */
  function PowerSum(x: real, n: nat): (s: real)
  {
    if n == 0 then 0.0 else 1.0 + x * PowerSum(x, n - 1)
  }

  /** Bounds of the geometric sum: non-negative for x >= 0, at least 1 once
      there is a term, at least n for x >= 1, and exactly n for x == 1. */
  lemma {:induction false} PowerSumBounds(x: real, n: nat)
    ensures x >= 0.0 ==> PowerSum(x, n) >= 0.0
    ensures x >= 0.0 && n > 0 ==> PowerSum(x, n) >= 1.0
    ensures x >= 1.0 ==> PowerSum(x, n) >= n as real
    ensures x == 1.0 ==> PowerSum(x, n) == n as real
  {
    if n > 0 {
      PowerSumBounds(x, n - 1);
      var s := PowerSum(x, n - 1);
      if x >= 1.0 {
        MulMonotone(1.0, x, (n - 1) as real, s);
      } else if x >= 0.0 {
        MulMonotone(0.0, x, 0.0, s);
      }
    }
  }

  /** The closed form of the geometric sum: (x - 1) * (1 + x + ... + x^(n-1)) == x^n - 1. */
  lemma {:induction false} GeometricSum(x: real, n: nat)
    ensures (x - 1.0) * PowerSum(x, n) == Pow(x, n) - 1.0
  {
    if n > 0 {
      GeometricSum(x, n - 1);
      var s, p := PowerSum(x, n - 1), Pow(x, n - 1);
      assert (x - 1.0) * s == p - 1.0;
      assert (x - 1.0) * (1.0 + x * s) == (x - 1.0) + x * ((x - 1.0) * s);
      assert (x - 1.0) + x * (p - 1.0) == x * p - 1.0;
    }
  }

  /** Appending the oldest contribution: the sum of n + 1 terms is the sum of n
      terms plus x^n. */
  lemma {:induction false} PowerSumAppend(x: real, n: nat)
    ensures PowerSum(x, n + 1) == PowerSum(x, n) + Pow(x, n)
  {
    if n > 0 {
      PowerSumAppend(x, n - 1);
      var s, p := PowerSum(x, n - 1), Pow(x, n - 1);
      assert PowerSum(x, n) == s + p;
      assert x * (s + p) == x * s + x * p;
    }
  }

  /** With a positive growth factor, every extra period adds a positive term. */
  lemma {:induction false} PowerSumStrictlyIncreasing(x: real, a: nat, b: nat)
    requires x > 0.0 && a < b
    ensures PowerSum(x, a) < PowerSum(x, b)
  {
    PowerSumAppend(x, b - 1);
    PowBounds(x, b - 1);
    if a < b - 1 {
      PowerSumStrictlyIncreasing(x, a, b - 1);
    }
  }

  /** A larger non-negative growth factor never gives a smaller sum. */
  lemma {:induction false} PowerSumMonotoneInBase(x: real, y: real, n: nat)
    requires 0.0 <= x <= y
    ensures PowerSum(x, n) <= PowerSum(y, n)
  {
    if n > 0 {
      PowerSumMonotoneInBase(x, y, n - 1);
      var s, t := PowerSum(x, n - 1), PowerSum(y, n - 1);
      PowerSumBounds(x, n - 1);
      MulMonotone(x, y, s, t);
    }
  }

  /** Products of non-negative reals grow with both factors. */
  lemma MulMonotone(a: real, b: real, c: real, d: real)
    requires 0.0 <= a <= b && 0.0 <= c <= d
    ensures a * c <= b * d
  {
    assert (b - a) * c >= 0.0;
    assert b * (d - c) >= 0.0;
  }
}
