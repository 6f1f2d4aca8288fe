/** The records the application keeps, as declared in types.ts. */
module Types {

  /** The totals the summary panel shows. monthlyTotal is the one month's
      spending that the emergency-fund target is built from. */
  datatype SummaryData = SummaryData(
    fixedTotal: int,
    livingTotal: int,
    debtTotal: int,
    savingsTotal: int,
    monthlyTotal: int)

  /** One saved snapshot of a budget, as listed in the personal fund sheet.
      Amounts are whole numbers in this model. */
  datatype SavedRecord = SavedRecord(
    id: string,
    date: string,
    monthlyTotal: int,
    savingsTotal: int,
    targetFund: int,
    multiplier: int,
    details: string)
}
