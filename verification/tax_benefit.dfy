/**
 * Tax benefit estimate under Section 80C of the Indian Income Tax Act: the
 * deductible amount is the investment capped at a fixed annual limit, and the
 * saving is a flat rate on that amount.
 */
module TaxBenefit {

  /** Annual limit of the Section 80C deduction, in rupees. */
  const Sec80CLimit: real := 150000.0

  /** Flat tax rate applied to the eligible amount. */
  const FlatTaxRate: real := 0.3

  /** The deductible amount and the tax it saves. */
  datatype TaxResult = TaxResult(eligible: real, taxSaved: real)

  /** tax_benefits: the eligible amount is the smaller of the investment and the
      limit, and the saving is the flat rate on it. */
  function TaxBenefits(investment: real): (t: TaxResult)
    ensures t.eligible <= investment && t.eligible <= Sec80CLimit
    ensures t.eligible == investment || t.eligible == Sec80CLimit
    ensures t.taxSaved * 10.0 == t.eligible * 3.0
    ensures t.taxSaved <= 45000.0
    ensures investment >= 0.0 ==> t.taxSaved >= 0.0
  {
    var eligible := if Sec80CLimit < investment then Sec80CLimit else investment;
    TaxResult(eligible, eligible * FlatTaxRate)
  }

  /** Up to the limit the whole investment is eligible. */
  lemma TaxBenefitsBelowLimit(investment: real)
    requires investment <= Sec80CLimit
    ensures TaxBenefits(investment) == TaxResult(investment, investment * FlatTaxRate)
  {
  }

  /** From the limit on, the result no longer depends on the investment. */
  lemma TaxBenefitsAboveLimit(investment: real)
    requires investment >= Sec80CLimit
    ensures TaxBenefits(investment) == TaxResult(150000.0, 45000.0)
  {
  }

  /** Investing more never lowers the eligible amount or the saving. */
  lemma TaxBenefitsMonotone(a: real, b: real)
    requires a <= b
    ensures TaxBenefits(a).eligible <= TaxBenefits(b).eligible
    ensures TaxBenefits(a).taxSaved <= TaxBenefits(b).taxSaved
  {
  }
}
