/**
 * The systematic-investment-plan simulation: a monthly contribution m over a
 * number of years, compounded month by month. Each contribution is counted
 * with one more month of growth than in the summary's closed form, so the loop
 * computes an annuity due, not the ordinary annuity of the portfolio summary.
 */
module Sip {
  import opened Compounding
  import opened Projection

  /** Value of `months` contributions of m paid at the start of each month:
      m*x^months + ... + m*x^2 + m*x with x = 1 + monthly rate. */
  function AnnuityDue(m: real, annualPct: real, months: nat): (fv: real)
  {
    var x := MonthlyGrowth(annualPct);
    m * x * PowerSum(x, months)
  }

  /** What the loop has added after `done` steps:
      m*x^months + m*x^(months-1) + ... + m*x^(months-done+1). */
  function PartialSip(m: real, x: real, months: int, done: nat): (sum: real)
    requires done == 0 || done <= months
  {
    if done == 0 then 0.0 else PartialSip(m, x, months, done - 1) + m * Pow(x, months - done + 1)
  }

  /** The partial sum after `done` steps is the last `done` powers up to
      x^months, which factor as x^(months-done+1) * (1 + x + ... + x^(done-1)). */
  lemma {:induction false} PartialSipFactors(m: real, x: real, months: int, done: nat)
    requires done <= months
    ensures PartialSip(m, x, months, done) == m * Pow(x, months - done + 1) * PowerSum(x, done)
  {
    if done > 0 {
      PartialSipFactors(m, x, months, done - 1);
      PartialSipStep(m, x, months, done);
    } else {
      PartialSipEmpty(m, x, months, done);
    }
  }

  /** The base case of PartialSipFactors: nothing added yet. */
  lemma PartialSipEmpty(m: real, x: real, months: int, done: nat)
    requires done == 0 && months >= 0
    ensures PartialSip(m, x, months, done) == m * Pow(x, months - done + 1) * PowerSum(x, done)
  {
    ZeroFactor(m * Pow(x, months - done + 1), PowerSum(x, done), PartialSip(m, x, months, done));
  }

  /** The inductive step of PartialSipFactors: one more term of the loop. */
  lemma PartialSipStep(m: real, x: real, months: int, done: nat)
    requires 0 < done <= months
    requires PartialSip(m, x, months, done - 1) == m * Pow(x, months - (done - 1) + 1) * PowerSum(x, done - 1)
    ensures PartialSip(m, x, months, done) == m * Pow(x, months - done + 1) * PowerSum(x, done)
  {
    var k: nat := months - done + 1;
    assert months - (done - 1) + 1 == k + 1;
    FactorStep(m, Pow(x, k), Pow(x, k + 1), x, PowerSum(x, done - 1), PowerSum(x, done), PartialSip(m, x, months, done));
  }

  /** Anything times an empty sum is zero. */
  lemma ZeroFactor(a: real, z: real, u: real)
    requires z == 0.0 && u == 0.0
    ensures u == a * z
  {
  }

  /** One step of the factoring: with q = x * p and t = 1 + x * s,
      m * q * s + m * p is m * p * t. */
  lemma FactorStep(m: real, p: real, q: real, x: real, s: real, t: real, u: real)
    requires q == x * p && t == 1.0 + x * s && u == m * q * s + m * p
    ensures u == m * p * t
  {
  }

  /** sip_simulation: the amount paid in and the future value after `years`
      years of monthly contributions m at an annual rate of annualPct percent. */
  method SipSimulation(m: real, annualPct: real, years: int) returns (totalInvested: real, futureValue: real)
    ensures totalInvested == m * 12.0 * years as real
    ensures futureValue == AnnuityDue(m, annualPct, if years > 0 then years * 12 else 0)
  {
    totalInvested := m * 12.0 * years as real;
    futureValue := 0.0;
    var monthlyRate := annualPct / 12.0 / 100.0;
    var months := years * 12;
    var i := 1;
    while i <= months
      invariant 1 <= i && (i == 1 || i <= months + 1)
      invariant futureValue == PartialSip(m, 1.0 + monthlyRate, months, i - 1)
    {
      futureValue := futureValue + m * Pow(1.0 + monthlyRate, months - i + 1);
      i := i + 1;
    }
    if months > 0 {
      PartialSipFactors(m, 1.0 + monthlyRate, months, months);
    }
  }

  /** For a non-zero rate the simulated value is the summary's closed form times
      one month of growth (1 + r): the two differ, and are not the same formula. */
  lemma AnnuityDueIsClosedFormTimesGrowth(m: real, annualPct: real, months: nat)
    requires annualPct != 0.0
    ensures AnnuityDue(m, annualPct, months) == FutureValue(m, annualPct, months) * MonthlyGrowth(annualPct)
  {
    ClosedFormIsOrdinaryAnnuity(m, annualPct, months);
  }

  /** At a zero rate every contribution keeps its face value. */
  lemma AnnuityDueAtZeroRate(m: real, months: nat)
    ensures AnnuityDue(m, 0.0, months) == m * months as real
  {
    PowerSumBounds(MonthlyGrowth(0.0), months);
  }

  /** At a non-negative rate a non-negative contribution is worth at least what
      was paid in. */
  lemma AnnuityDueCoversContributions(m: real, annualPct: real, months: nat)
    requires annualPct >= 0.0 && m >= 0.0
    ensures AnnuityDue(m, annualPct, months) >= m * months as real
  {
    var x := MonthlyGrowth(annualPct);
    var s := PowerSum(x, months);
    PowerSumBounds(x, months);
    MulMonotone(1.0, x, months as real, s);
    calc {
      m * months as real;
      <= { MulMonotone(m, m, months as real, x * s); }
      m * (x * s);
      m * x * s;
    }
  }

  /** At a positive rate, with a positive contribution and at least one month,
      the simulated value strictly exceeds the summary's closed form. */
  lemma AnnuityDueExceedsClosedForm(m: real, annualPct: real, months: nat)
    requires annualPct > 0.0 && m > 0.0 && months > 0
    ensures AnnuityDue(m, annualPct, months) > FutureValue(m, annualPct, months)
  {
    var f := FutureValue(m, annualPct, months);
    ClosedFormGrowsWithMonths(m, annualPct, 0, months);
    AnnuityDueIsClosedFormTimesGrowth(m, annualPct, months);
    calc {
      f;
      <
      f * MonthlyGrowth(annualPct);
      AnnuityDue(m, annualPct, months);
    }
  }

  /** The simulation's value at a non-negative rate is at least the amount it
      reports as invested, and equals it at a zero rate. */
  lemma SipCoversInvested(m: real, annualPct: real, years: nat)
    requires annualPct >= 0.0 && m >= 0.0
    ensures AnnuityDue(m, annualPct, years * 12) >= m * 12.0 * years as real
    ensures annualPct == 0.0 ==> AnnuityDue(m, annualPct, years * 12) == m * 12.0 * years as real
  {
    AnnuityDueCoversContributions(m, annualPct, years * 12);
    AnnuityDueAtZeroRate(m, years * 12);
    assert m * (years * 12) as real == m * 12.0 * years as real;
  }
}
