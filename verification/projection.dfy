/**
 * The retirement portfolio summary and its year-by-year growth series: the
 * total contributed over the years to retirement and the future value of a
 * monthly contribution under an equity rate and a traditional rate, using the
 * closed form of an ordinary annuity with monthly compounding.
 */
module Projection {
  import opened Compounding

  /** The closed form `m * (((1 + r) ** n - 1) / r)` divides by the monthly rate
      r, and Python cannot raise 0.0 to a negative power: both must be avoided. */
  predicate ClosedFormDefined(annualPct: real, months: int)
  {
    annualPct != 0.0 && (months >= 0 || MonthlyGrowth(annualPct) != 0.0)
  }

  /** Future value of a monthly contribution m after `months` months at an
      annual rate of annualPct percent, as the closed form evaluates it.
      Nothing accumulates over zero months. With a positive rate and
      contribution the value is positive for a positive number of months and
      negative for a negative one (a current age above the retirement age),
      because (1 + r) ** months is then below 1. */
  function FutureValue(m: real, annualPct: real, months: int): (fv: real)
    requires ClosedFormDefined(annualPct, months)
    ensures months == 0 ==> fv == 0.0
    ensures annualPct > 0.0 && m > 0.0 && months > 0 ==> fv > 0.0
    ensures annualPct > 0.0 && m > 0.0 && months < 0 ==> fv < 0.0
  {
    ClosedFormSign(m, MonthlyRate(annualPct), MonthlyGrowth(annualPct), months);
    m * ((IntPow(MonthlyGrowth(annualPct), months) - 1.0) / MonthlyRate(annualPct))
  }

  /** The sign of the closed form m * ((x ** months - 1) / r) with x = 1 + r:
      x ** months is 1 at zero months, above 1 for positive months and below 1
      for negative months when r is positive. */
  lemma ClosedFormSign(m: real, r: real, x: real, months: int)
    requires r != 0.0 && x == 1.0 + r && (months >= 0 || x != 0.0)
    ensures months == 0 ==> m * ((IntPow(x, months) - 1.0) / r) == 0.0
    ensures r > 0.0 && m > 0.0 && months > 0 ==> m * ((IntPow(x, months) - 1.0) / r) > 0.0
    ensures r > 0.0 && m > 0.0 && months < 0 ==> m * ((IntPow(x, months) - 1.0) / r) < 0.0
  {
    if r > 0.0 && m > 0.0 && months < 0 {
      PowBounds(x, -months);
      ReciprocalBelowOne(IntPow(x, months), Pow(x, -months));
      QuotientSign(m, IntPow(x, months) - 1.0, r);
    } else if r > 0.0 && m > 0.0 && months > 0 {
      PowBounds(x, months);
      QuotientSign(m, IntPow(x, months) - 1.0, r);
    }
  }

  /** The reciprocal of a number above 1 is below 1. */
  lemma ReciprocalBelowOne(p: real, q: real)
    requires q > 1.0 && p * q == 1.0
    ensures p < 1.0
  {
    assert p == 1.0 / q;
  }

  /** A positive multiple of d / r, for r positive, has the sign of d. */
  lemma QuotientSign(m: real, d: real, r: real)
    requires m > 0.0 && r > 0.0
    ensures d > 0.0 ==> m * (d / r) > 0.0
    ensures d < 0.0 ==> m * (d / r) < 0.0
  {
  }

  /** For a non-negative number of months the closed form is the value of an
      ordinary annuity: m * (1 + x + ... + x^(months-1)) with x = 1 + r, each
      contribution growing for the months after the one it is paid in. */
  lemma {:induction false} ClosedFormIsOrdinaryAnnuity(m: real, annualPct: real, months: int)
    requires annualPct != 0.0 && months >= 0
    ensures FutureValue(m, annualPct, months) == m * PowerSum(MonthlyGrowth(annualPct), months)
  {
    ClosedFormAsAnnuity(m, MonthlyRate(annualPct), MonthlyGrowth(annualPct), months);
  }

  /** The algebra behind ClosedFormIsOrdinaryAnnuity, on the closed-form
      expression itself: with x = 1 + r, m * ((x^months - 1) / r) is
      m * (1 + x + ... + x^(months-1)). */
  lemma ClosedFormAsAnnuity(m: real, r: real, x: real, months: nat)
    requires r != 0.0 && x == 1.0 + r
    ensures m * ((IntPow(x, months) - 1.0) / r) == m * PowerSum(x, months)
  {
    GeometricSum(x, months);
    DivideOutRate(m, r, x, Pow(x, months), IntPow(x, months), PowerSum(x, months));
  }

  /** The algebra of the closed form: if (x - 1) * s == p - 1 with x == 1 + r
      and r non-zero, then m * ((q - 1) / r) == m * s for q equal to p. */
  lemma DivideOutRate(m: real, r: real, x: real, p: real, q: real, s: real)
    requires r != 0.0 && x == 1.0 + r && (x - 1.0) * s == p - 1.0 && q == p
    ensures m * ((q - 1.0) / r) == m * s
  {
    assert q - 1.0 == r * s;
    DivideProduct(r, s);
  }

  /** At a positive rate, a non-negative contribution is worth at least what was
      paid in. */
  lemma ClosedFormCoversContributions(m: real, annualPct: real, months: int)
    requires annualPct > 0.0 && m >= 0.0 && months >= 0
    ensures FutureValue(m, annualPct, months) >= m * months as real
  {
    var x := MonthlyGrowth(annualPct);
    PowerSumBounds(x, months);
    calc {
      m * months as real;
      <= { MulMonotone(m, m, months as real, PowerSum(x, months)); }
      m * PowerSum(x, months);
      { ClosedFormIsOrdinaryAnnuity(m, annualPct, months); }
      FutureValue(m, annualPct, months);
    }
  }

  /** A higher positive rate never gives a smaller future value. */
  lemma ClosedFormMonotoneInRate(m: real, lowPct: real, highPct: real, months: int)
    requires 0.0 < lowPct <= highPct && m >= 0.0 && months >= 0
    ensures FutureValue(m, lowPct, months) <= FutureValue(m, highPct, months)
  {
    var x, y := MonthlyGrowth(lowPct), MonthlyGrowth(highPct);
    calc {
      FutureValue(m, lowPct, months);
      { ClosedFormIsOrdinaryAnnuity(m, lowPct, months); }
      m * PowerSum(x, months);
      <= { AnnuityMonotoneInGrowth(m, x, y, months); }
      m * PowerSum(y, months);
      { ClosedFormIsOrdinaryAnnuity(m, highPct, months); }
      FutureValue(m, highPct, months);
    }
  }

  /** m contributions compounded with a larger non-negative growth factor are
      worth at least as much, for m >= 0. */
  lemma AnnuityMonotoneInGrowth(m: real, x: real, y: real, months: nat)
    requires 0.0 <= x <= y && m >= 0.0
    ensures m * PowerSum(x, months) <= m * PowerSum(y, months)
  {
    PowerSumBounds(x, months);
    PowerSumMonotoneInBase(x, y, months);
    MulMonotone(m, m, PowerSum(x, months), PowerSum(y, months));
  }

  /** Total contributed, future value with the equity rate, future value with
      the traditional rate. */
  datatype Summary = Summary(totalInvestment: real, equityValue: real, traditionalValue: real)

  /** Whether the summary can be evaluated for these inputs. */
  predicate SummaryDefined(age: int, retirementAge: int, equityPct: real, traditionalPct: real)
  {
    ClosedFormDefined(equityPct, (retirementAge - age) * 12)
    && ClosedFormDefined(traditionalPct, (retirementAge - age) * 12)
  }

  /** The portfolio summary for a monthly contribution m from `age` to
      `retirementAge`; the duration is not clamped and may be negative. */
  function PortfolioSummary(age: int, retirementAge: int, m: real, equityPct: real, traditionalPct: real): (s: Summary)
    requires SummaryDefined(age, retirementAge, equityPct, traditionalPct)
    ensures s.totalInvestment == m * ((retirementAge - age) * 12) as real
    ensures retirementAge >= age ==>
      s.equityValue == m * PowerSum(MonthlyGrowth(equityPct), (retirementAge - age) * 12)
    ensures retirementAge >= age ==>
      s.traditionalValue == m * PowerSum(MonthlyGrowth(traditionalPct), (retirementAge - age) * 12)
  {
    var months := (retirementAge - age) * 12;
    var s := Summary(m * months as real, FutureValue(m, equityPct, months), FutureValue(m, traditionalPct, months));
    if months >= 0 then
      ClosedFormIsOrdinaryAnnuity(m, equityPct, months);
      ClosedFormIsOrdinaryAnnuity(m, traditionalPct, months);
      s
    else
      s
  }

  /** Up to retirement, with positive rates and the equity rate at least the
      traditional one, the three figures are ordered: equity, traditional,
      amount paid in, and none is negative. */
  lemma SummaryOrdered(age: int, retirementAge: int, m: real, equityPct: real, traditionalPct: real)
    requires age <= retirementAge && m >= 0.0 && 0.0 < traditionalPct <= equityPct
    ensures var s := PortfolioSummary(age, retirementAge, m, equityPct, traditionalPct);
      s.equityValue >= s.traditionalValue >= s.totalInvestment >= 0.0
  {
    var months := (retirementAge - age) * 12;
    var s := PortfolioSummary(age, retirementAge, m, equityPct, traditionalPct);
    ClosedFormMonotoneInRate(m, traditionalPct, equityPct, months);
    ClosedFormCoversContributions(m, traditionalPct, months);
    MulMonotone(0.0, m, 0.0, months as real);
    assert s == Summary(m * months as real, FutureValue(m, equityPct, months), FutureValue(m, traditionalPct, months));
  }

  /** When the current age is past the retirement age, the summary reports a
      negative total and negative future values. */
  lemma SummaryAfterRetirementAge(age: int, retirementAge: int, m: real, equityPct: real, traditionalPct: real)
    requires age > retirementAge && m > 0.0 && equityPct > 0.0 && traditionalPct > 0.0
    ensures var s := PortfolioSummary(age, retirementAge, m, equityPct, traditionalPct);
      s.totalInvestment < 0.0 && s.equityValue < 0.0 && s.traditionalValue < 0.0
  {
    var months := (retirementAge - age) * 12;
    assert months < 0;
  }

  /** One row of the growth table: a year of age and both projected values. */
  datatype GrowthRow = GrowthRow(year: int, equityValue: real, traditionalValue: real)

  /** The year-by-year growth series: one row per age from `age` to
      `retirementAge` inclusive, row i holding the closed form at i * 12 months.
      An empty range evaluates nothing, so the rates matter only when it is not. */
  function GrowthSeries(age: int, retirementAge: int, m: real, equityPct: real, traditionalPct: real): (g: seq<GrowthRow>)
    requires age <= retirementAge ==> equityPct != 0.0 && traditionalPct != 0.0
    ensures |g| == if age <= retirementAge then retirementAge - age + 1 else 0
    ensures forall i :: 0 <= i < |g| ==>
      g[i].year == age + i
      && g[i].equityValue == FutureValue(m, equityPct, i * 12)
      && g[i].traditionalValue == FutureValue(m, traditionalPct, i * 12)
  {
    var n := if age <= retirementAge then retirementAge - age + 1 else 0;
    seq(n, i requires 0 <= i < n =>
      GrowthRow(age + i, FutureValue(m, equityPct, i * 12), FutureValue(m, traditionalPct, i * 12)))
  }

  /** The series starts at the current age with nothing accumulated. */
  lemma GrowthSeriesStartsAtZero(age: int, retirementAge: int, m: real, equityPct: real, traditionalPct: real)
    requires age <= retirementAge && equityPct != 0.0 && traditionalPct != 0.0
    ensures var g := GrowthSeries(age, retirementAge, m, equityPct, traditionalPct);
      g[0] == GrowthRow(age, 0.0, 0.0)
  {
  }

  /** The series ends at the retirement age with the summary's future values. */
  lemma GrowthSeriesEndsAtSummary(age: int, retirementAge: int, m: real, equityPct: real, traditionalPct: real)
    requires age <= retirementAge && equityPct != 0.0 && traditionalPct != 0.0
    ensures var g := GrowthSeries(age, retirementAge, m, equityPct, traditionalPct);
      var s := PortfolioSummary(age, retirementAge, m, equityPct, traditionalPct);
      g[|g| - 1] == GrowthRow(retirementAge, s.equityValue, s.traditionalValue)
  {
  }

  /** With a positive contribution and positive rates, both projected values
      strictly increase from year to year. */
  lemma GrowthSeriesIncreasing(age: int, retirementAge: int, m: real, equityPct: real, traditionalPct: real)
    requires m > 0.0 && equityPct > 0.0 && traditionalPct > 0.0
    ensures var g := GrowthSeries(age, retirementAge, m, equityPct, traditionalPct);
      forall i, j :: 0 <= i < j < |g| ==>
        g[i].equityValue < g[j].equityValue && g[i].traditionalValue < g[j].traditionalValue
  {
    var g := GrowthSeries(age, retirementAge, m, equityPct, traditionalPct);
    forall i, j | 0 <= i < j < |g|
      ensures g[i].equityValue < g[j].equityValue && g[i].traditionalValue < g[j].traditionalValue
    {
      ClosedFormGrowsWithMonths(m, equityPct, i * 12, j * 12);
      ClosedFormGrowsWithMonths(m, traditionalPct, i * 12, j * 12);
    }
  }

  /** More months of positive contributions at a positive rate are worth more. */
  lemma ClosedFormGrowsWithMonths(m: real, annualPct: real, a: nat, b: nat)
    requires m > 0.0 && annualPct > 0.0 && a < b
    ensures FutureValue(m, annualPct, a) < FutureValue(m, annualPct, b)
  {
    var x := MonthlyGrowth(annualPct);
    calc {
      FutureValue(m, annualPct, a);
      { ClosedFormIsOrdinaryAnnuity(m, annualPct, a); }
      m * PowerSum(x, a);
      < { PowerSumStrictlyIncreasing(x, a, b); }
      m * PowerSum(x, b);
      { ClosedFormIsOrdinaryAnnuity(m, annualPct, b); }
      FutureValue(m, annualPct, b);
    }
  }

  /** Dividing a product by one of its non-zero factors leaves the other. */
  lemma DivideProduct(a: real, b: real)
    requires a != 0.0
    ensures (a * b) / a == b
  {
  }
}
