/** The emergency-fund target shown by the summary panel
    (components/SummarySection.tsx). */
module SummarySection {
  import opened Types

  /** The target: one month's minimum spending times the number of months
      the reserve should cover. */
  function FinalFund(summary: SummaryData, multiplier: int): (fund: int)
    ensures multiplier == 0 ==> fund == 0
    ensures multiplier == 1 ==> fund == summary.monthlyTotal
    ensures summary.monthlyTotal >= 0 && multiplier >= 0 ==> fund >= 0
    ensures summary.monthlyTotal >= 0 && multiplier >= 1 ==> fund >= summary.monthlyTotal
  {
    summary.monthlyTotal * multiplier
  }

  /** The target reads monthlyTotal only: the category totals and the savings
      total do not change it. */
  lemma FinalFundReadsMonthlyTotalOnly(a: SummaryData, b: SummaryData, multiplier: int)
    requires a.monthlyTotal == b.monthlyTotal
    ensures FinalFund(a, multiplier) == FinalFund(b, multiplier)
  {
  }

  /** Each further month of reserve adds exactly one month's spending. */
  lemma FinalFundNextMonth(summary: SummaryData, multiplier: int)
    ensures FinalFund(summary, multiplier + 1) == FinalFund(summary, multiplier) + summary.monthlyTotal
  {
  }

  /** With non-negative spending, more months never give a smaller target. */
  lemma {:induction false} FinalFundMonotone(summary: SummaryData, m: int, n: int)
    requires summary.monthlyTotal >= 0 && m <= n
    ensures FinalFund(summary, m) <= FinalFund(summary, n)
    decreases n - m
  {
    if m < n {
      FinalFundMonotone(summary, m, n - 1);
      FinalFundNextMonth(summary, n - 1);
    }
  }
}
