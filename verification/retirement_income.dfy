/**
 * Post-retirement income from a corpus: the yearly income of an annuity at a
 * given rate, and how many years a systematic withdrawal plan (SWP) of a fixed
 * monthly amount lasts, with no growth of the corpus while it is drawn down.
 */
module RetirementIncome {

  /** Yearly annuity income and SWP duration in years. */
  datatype IncomeResult = IncomeResult(annualAnnuity: real, swpYears: real)

  /** post_retirement_income_models: the annuity is rate percent of the corpus a
      year; the SWP lasts until twelve withdrawals a year have used the corpus up.
      A zero withdrawal is a division by zero, which callers must avoid. */
  function PostRetirementIncome(corpus: real, annuityRatePct: real, swpAmount: real): (r: IncomeResult)
    requires swpAmount != 0.0
    ensures r.annualAnnuity * 100.0 == corpus * annuityRatePct
    ensures r.swpYears * (swpAmount * 12.0) == corpus
  {
    IncomeResult(corpus * annuityRatePct / 100.0, corpus / (swpAmount * 12.0))
  }

  /** A positive corpus drawn at a positive amount lasts a positive time, and
      a positive rate gives a positive income. */
  lemma IncomePositive(corpus: real, annuityRatePct: real, swpAmount: real)
    requires corpus > 0.0 && annuityRatePct > 0.0 && swpAmount > 0.0
    ensures PostRetirementIncome(corpus, annuityRatePct, swpAmount).annualAnnuity > 0.0
    ensures PostRetirementIncome(corpus, annuityRatePct, swpAmount).swpYears > 0.0
  {
  }

  /** Withdrawing more each month makes a non-negative corpus last no longer. */
  lemma SwpShorterForLargerWithdrawal(corpus: real, annuityRatePct: real, small: real, large: real)
    requires corpus >= 0.0 && 0.0 < small <= large
    ensures PostRetirementIncome(corpus, annuityRatePct, large).swpYears
         <= PostRetirementIncome(corpus, annuityRatePct, small).swpYears
  {
  }
}
