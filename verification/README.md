# Optimal Retirement Portfolio Planner — calculation layer in Dafny

This project models the arithmetic of a single-screen retirement planner
(`application.py`). It leaves out the dashboard itself. The model covers:

- **Allocation** — the risk-profile lookup. A profile name selects a fixed
  split of the corpus across six instruments: Equity MFs, Debt MFs, PPF, SCSS,
  NPS and EPF.
- **Projection** — the portfolio summary and the growth series. The summary
  gives the total paid in and the future value of a monthly contribution at an
  equity rate and at a traditional rate. It uses the closed form of an ordinary
  annuity, `m * (((1 + r) ** n - 1) / r)`. The growth series gives the same
  closed form for each year of age up to retirement.
- **Sip** — `sip_simulation`. It is a loop that compounds each monthly
  contribution, modelled as a method with a loop invariant.
- **TaxBenefit** — `tax_benefits`. The Section 80C cap of 150000 and a flat
  rate of 0.3.
- **RetirementIncome** — `post_retirement_income_models`. Annuity income and
  the duration of a systematic withdrawal plan.
- **Compounding** — shared arithmetic: `x ** n` for natural and integer
  exponents, the geometric sum `1 + x + ... + x^(n-1)`, the monthly rate and
  the monthly growth factor `1 + r`.

Python floats are modelled as exact `real`s. Every identity below therefore
holds exactly and not only up to rounding. Widget values become parameters.

What the code does, and the model with it:

- The SIP loop is not the closed form. It adds `m * (1 + r) ** (months - i + 1)`
  for `i` in `1..months` (application.py:89-90), so every contribution gets one
  more month of growth than in the closed form of line 55 (an annuity due). The
  model proves that the loop's value is the closed form multiplied by
  `(1 + r)`, and strictly larger at a positive rate.
- There is no special case for a zero rate. Line 55 divides by the monthly
  rate, so `FutureValue` requires a non-zero rate. The SIP loop does not
  divide, and its value at a zero rate is `m * months`.
- Any risk profile other than "Conservative" or "Balanced" takes the `else`
  branch at application.py:36-37 and gets the aggressive table.
- The duration `retirement_age - age` (application.py:20) is not clamped. The
  sliders at lines 16-17 allow a current age above the retirement age, which
  makes it negative. The model keeps the negative duration. It evaluates
  `(1 + r) ** n` for a negative `n` as Python does, as `1 / (1 + r) ** -n`, and
  proves that the summary then reports a negative total and negative future
  values. The growth series is empty in that case, because `range` is empty.

## Model

| member | source | states |
|---|---|---|
| `Compounding.MonthlyRate` | application.py:87 | The monthly rate is the annual percentage divided by 1200. It is zero exactly when the annual rate is zero and positive exactly when the annual rate is positive. `annual/100/12` (line 55) and `annual/12/100` (line 87) are the same real. |
| `Compounding.MonthlyGrowth` | application.py:55 | The growth factor `1 + annual / 100 / 12` of one month. It is above 1 exactly when the annual rate is positive and equals 1 exactly when the rate is zero. |
| `Compounding.PowBounds` | application.py:55 | `x ** n` for a natural exponent is non-zero for a non-zero base, positive for a positive base, at least 1 for a base of at least 1, and above 1 for a base above 1 and a positive exponent. |
| `Compounding.IntPow` | application.py:55 | `x ** n` for any integer exponent. For `n >= 0` it is `Pow`. For `n < 0` it is the reciprocal of `x ** -n`. `0.0 ** -n` is excluded because Python raises there. |
| `Compounding.PowerSumBounds` | application.py:53-56 | The geometric sum `1 + x + ... + x^(n-1)` is non-negative for `x >= 0`, at least 1 for `n > 0`, at least `n` for `x >= 1`, and exactly `n` for `x == 1`. |
| `Compounding.GeometricSum` | application.py:55 | `(x - 1) * PowerSum(x, n) == x^n - 1`. This identity makes the closed form a sum of compounded contributions. |
| `Compounding.PowerSumAppend` | application.py:55 | Adding a period adds the term `x^n` to the sum. |
| `Compounding.PowerSumStrictlyIncreasing` | application.py:55 | For `x > 0`, a longer sum is strictly larger. |
| `Compounding.PowerSumMonotoneInBase` | application.py:55-56 | For `0 <= x <= y`, the sum with base `x` is at most the sum with base `y`. |
| `Projection.FutureValue` | application.py:55-56 | The closed form is 0 at zero months. With a positive rate and `m > 0` it is positive for a positive number of months, and negative for a negative number of months, because `(1 + r) ** n` is then below 1. It requires a non-zero rate, and a non-zero growth factor when the months are negative. |
| `Projection.ClosedFormIsOrdinaryAnnuity` | application.py:55-56 | For a non-zero rate and `months >= 0`, the closed form equals `m * PowerSum(1 + r, months)`. This is the value of an ordinary annuity, where the contribution of month k grows for `months - k` months. |
| `Projection.ClosedFormCoversContributions` | application.py:53-56 | With a positive rate, `m >= 0` and `months >= 0`, the future value is at least `total_investment`, which is `m * months`. |
| `Projection.ClosedFormMonotoneInRate` | application.py:55-56 | For `m >= 0`, a higher positive rate never gives a smaller future value. |
| `Projection.ClosedFormGrowsWithMonths` | application.py:64-65 | For `m > 0` and a positive rate, more months give a strictly larger future value. |
| `Projection.PortfolioSummary` | application.py:53-56 | `total_investment` is `m * (retirement_age - age) * 12`, with no clamping. If `age <= retirement_age`, each future value is `m` times the geometric sum of its growth factor over those months. The rates must make the closed form defined. |
| `Projection.SummaryOrdered` | application.py:53-56 | Up to retirement, with `m >= 0` and `0 < traditional <= equity`, the figures are ordered: equity FV, then traditional FV, then total investment, then 0. |
| `Projection.SummaryAfterRetirementAge` | application.py:53-56 | If the current age is past the retirement age, with `m > 0` and positive rates, the total and both future values are negative. |
| `Projection.GrowthSeries` | application.py:63-65 | The series has `retirement_age - age + 1` rows when `age <= retirement_age` and none otherwise. Row i holds the year `age + i` and the closed form at `i * 12` months for both rates. The rates need to be non-zero only when the series is not empty. |
| `Projection.GrowthSeriesStartsAtZero` | application.py:63-65 | The first row is the current age with both values 0. |
| `Projection.GrowthSeriesEndsAtSummary` | application.py:63-65 | The last row is the retirement age with exactly the summary's equity and traditional future values. |
| `Projection.GrowthSeriesIncreasing` | application.py:64-65 | For `m > 0` and positive rates, both value columns strictly increase from row to row. |
| `Sip.SipSimulation` | application.py:84-91 | `total_invested == m * 12 * years`. The future value is the annuity due `m*x + m*x^2 + ... + m*x^months`, with `x = 1 + r` and `months = years * 12`, and 0 when `years <= 0`. The loop invariant is the partial sum of the terms added so far. |
| `Sip.PartialSipFactors` | application.py:89-90 | After `done` steps, the loop's sum `m*x^months + ... + m*x^(months-done+1)` equals `m * x^(months-done+1) * PowerSum(x, done)`. At `done == months` this is the annuity due. |
| `Sip.AnnuityDueIsClosedFormTimesGrowth` | application.py:84-91 | For a non-zero rate, the SIP value is the line-55 closed form for the same months multiplied by `(1 + r)`. |
| `Sip.AnnuityDueAtZeroRate` | application.py:87-90 | At a zero rate, the SIP value is `m * months`. |
| `Sip.AnnuityDueCoversContributions` | application.py:85-90 | With a non-negative rate and `m >= 0`, the SIP value is at least `m * months`. |
| `Sip.AnnuityDueExceedsClosedForm` | application.py:89-90 | With a positive rate, `m > 0` and at least one month, the SIP value is strictly greater than the closed form. The two are not equal. |
| `Sip.SipCoversInvested` | application.py:85-90 | With a non-negative rate and `m >= 0`, the SIP future value is at least the reported `total_invested`. It is equal to it at a zero rate. |
| `TaxBenefit.TaxBenefits` | application.py:103-107 | `eligible` is the minimum of the investment and 150000: it is at most both and equal to one of them. `tax_saved` is 0.3 of `eligible`. It is at most 45000, and it is non-negative for a non-negative investment. |
| `TaxBenefit.TaxBenefitsBelowLimit` | application.py:105-106 | Up to the limit, the whole investment is eligible. |
| `TaxBenefit.TaxBenefitsAboveLimit` | application.py:105-106 | From the limit on, the result is (150000, 45000). |
| `TaxBenefit.TaxBenefitsMonotone` | application.py:105-106 | Investing more never lowers `eligible` or `tax_saved`. |
| `RetirementIncome.PostRetirementIncome` | application.py:116-119 | `annual_annuity * 100 == corpus * annuity_rate`. `years_swp` years of twelve withdrawals use up the corpus exactly: `years_swp * swp * 12 == corpus`. A zero withdrawal amount is excluded because the code divides by it. |
| `RetirementIncome.IncomePositive` | application.py:116-119 | A positive corpus, rate and withdrawal give a positive income and a positive duration. |
| `RetirementIncome.SwpShorterForLargerWithdrawal` | application.py:118 | A larger monthly withdrawal never makes a non-negative corpus last longer. |
| `Allocation.Table` | application.py:33-37 | A table lists the six instruments in the code's order. Its percentages sum to the sum of the six given values. |
| `Allocation.AllocationFor` | application.py:32-37 | For every profile name, the table lists the six instruments in order. Each percentage is non-negative and they sum to exactly 100. |
| `Allocation.UnrecognisedProfileIsAggressive` | application.py:32-37 | Any name other than "Conservative" or "Balanced" gets the same table as "Aggressive". |
| `Allocation.EquityShareGrowsWithRisk` | application.py:33-37 | The equity share is 10 for Conservative, 30 for Balanced and 50 for Aggressive, so it strictly rises with risk. |

## Left out

- Streamlit widgets, layout and messages (application.py:11-30, 58-60, 93-99, 109-112, 121-126) are user interface. The slider ranges are not assumed: the closed form and the withdrawal ratio require only a non-zero divisor, the lemmas state their own sign conditions (such as a positive rate), and a current age above the retirement age is allowed.
- Plotly, Matplotlib and `st.*_chart` rendering, and the pandas DataFrames that feed them (application.py:39-41, 48-49, 66-69, 79-80), are presentation in foreign libraries.
- The Excel export through `io.BytesIO` and `pd.ExcelWriter` (application.py:128-140) is I/O through a library outside the model.
- The historical returns lists and the investment-option comparison table (application.py:44-49, 73-78) are static display data with no logic.
- IEEE floating point is left out. Values are exact reals, and `0.3` is the exact real 3/10. Rounding and the `:,.0f` formatting are not modelled.
- Python's `ZeroDivisionError` is not modelled as an outcome. It happens at a zero rate in the closed form and at a zero withdrawal. These inputs are excluded by preconditions instead; the input widgets (application.py:25-26, 123) never produce them.
- Python's dynamic typing is not modelled. Amounts that are `int` in the code (slider and number-input values) are reals in the model, and the percentages of a table are integers.
