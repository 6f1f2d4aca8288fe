# Personal fund sheet: CSV export and emergency-fund target

This project models two pieces of the budgeting app in Dafny.

- The CSV export of the personal fund sheet (`exportToCSV` in
  `components/PersonalFundSheet.tsx`). It turns the list of saved records into
  one text: a byte-order mark (U+FEFF), a header line of five fixed labels
  (`日期,月標準支出,準備月數,預備金目標,備註`), then one line per record. Lines are
  separated by a line feed. A row is the record's date in double quotes, its
  monthly total, multiplier and target unquoted, and its notes in double quotes
  with every quote doubled. An empty record list exports nothing. The download
  name is `個人資金管理_` + the date with every `/` replaced by `-` + `.csv`.
- The emergency-fund target of the summary panel (`components/SummarySection.tsx`):
  the month's minimum spending times the number of months.

Everything is pure functions and lemmas; the source builds these values with
`map`, `replace`, `join` and string concatenation, with no loop and no state.

Modules, one file each:

- `Wrappers` (`wrappers.dfy`): the `Option` type the readers return.
- `Types` (`types.dfy`): `SavedRecord` and `SummaryData`.
- `Text` (`text.dfy`): `Join` as `Array.prototype.join` builds it, and `Split`, its inverse.
- `Decimal` (`decimal.dfy`): integers written in plain decimal, as `String(n)`
  writes an integer-valued number, and `ParseInt`, its inverse.
- `FundSheet` (`fund_sheet.dfy`): the quote doubling, the rows, the content,
  the payload, the file name and `ExportToCsv`.
- `CsvReader` (`csv_reader.dfy`): a reader following the quoting rules of
  section 2 of RFC 4180, items 5 to 7. A quoted field may hold commas and line
  feeds, and a doubled quote stands for one quote. Records end at a line feed
  (the export writes LF, not the CRLF the RFC names). This reader stands in for
  the spreadsheet program that opens the file. It is the reference the export is
  proved against.
- `CsvRoundTrip` (`csv_round_trip.dfy`): reading an export back gives every
  record's five exported fields, in order, under the fixed header.
- `SummarySection` (`summary_section.dfy`): `FinalFund` and its properties.

The export writes five columns: date, monthly total, multiplier, target,
notes. It never writes `savingsTotal` or the record's id.

## Model

| member | source | states |
|---|---|---|
| FundSheet.ExportToCsv | components/PersonalFundSheet.tsx:13-44 | nothing is exported exactly when the record list is empty; otherwise a download whose payload starts with the byte-order mark, named by `FileName`, with the CSV MIME type |
| FundSheet.EscapeQuotes | components/PersonalFundSheet.tsx:28 | escaping lengthens the notes by exactly one character per quote they hold |
| FundSheet.EscapeKeepsOthers | components/PersonalFundSheet.tsx:28 | escaping adds and removes no character other than `"` |
| FundSheet.CollapseEscape | components/PersonalFundSheet.tsx:28 | collapsing each `""` of the escaped notes back to `"` recovers the notes exactly |
| FundSheet.EscapePaired | components/PersonalFundSheet.tsx:28 | the escaped notes hold no unpaired quote |
| FundSheet.EscapeCollapse | components/PersonalFundSheet.tsx:28 | conversely, every text with paired quotes is the escape of the text its pairs collapse to, so escaping is a bijection onto such texts |
| FundSheet.EscapeUnchangedIff | components/PersonalFundSheet.tsx:28 | escaping leaves a text unchanged if and only if it holds no quote |
| FundSheet.EscapeExample | components/PersonalFundSheet.tsx:28 | `O"Brien` is written as `O""Brien` |
| FundSheet.HeaderLabels | components/PersonalFundSheet.tsx:20-33 | the header line splits at its commas into exactly the five labels, in order, and holds no line feed |
| Text.Join | components/PersonalFundSheet.tsx:33-35 | the parts with one separator between neighbours, as `Array.prototype.join`; the first part opens the joined text, with no separator before it |
| FundSheet.AmountCellsRead | components/PersonalFundSheet.tsx:23-27 | a record gives five cells, and the second, third and fourth read back as its monthly total, multiplier and target |
| FundSheet.TextCellsRead | components/PersonalFundSheet.tsx:24-28 | the first cell is the date between two quotes, and the last cell, once its quote pairs collapse, is the notes between two quotes |
| FundSheet.Row | components/PersonalFundSheet.tsx:34 | the cells joined by commas: a row opens with the date's quote and closes with the notes' quote |
| FundSheet.Rows | components/PersonalFundSheet.tsx:23-29 | one row per record, and row i is the row of records[i] |
| FundSheet.RowText | components/PersonalFundSheet.tsx:23-29 | a row is `"date"`, monthly total, multiplier, target, `"escaped notes"` joined by commas; the date is quoted verbatim |
| FundSheet.RowIgnoresIdAndSavings | components/PersonalFundSheet.tsx:23-29 | the id and `savingsTotal` take no part in a row |
| FundSheet.CsvContent | components/PersonalFundSheet.tsx:32-35 | the content opens with the header line; with no records it is the header line alone, and otherwise it ends with the last row's closing quote |
| FundSheet.CsvPayload | components/PersonalFundSheet.tsx:38 | the payload is one character longer than the content: the byte-order mark, then the content unchanged |
| FundSheet.PayloadLayout | components/PersonalFundSheet.tsx:32-38 | the payload is the BOM, the header line, then for each record a line feed and its row |
| FundSheet.PayloadEnd | components/PersonalFundSheet.tsx:32-35 | with records, the payload ends with the last row's closing quote: no trailing line feed |
| FundSheet.ContentLines | components/PersonalFundSheet.tsx:32-35 | when no date or notes hold a line feed, the content splits into exactly records+1 lines: the header, then row i+1 from records[i] |
| FundSheet.SingleRecordContent | components/PersonalFundSheet.tsx:32-38 | with one record, the text after the BOM is the header line, a line feed and the row |
| FundSheet.DashedDate | components/PersonalFundSheet.tsx:44 | the file-name date has the date's length, every `/` replaced by `-`, every other character kept, and no `/` |
| FundSheet.DashedDateIdempotent | components/PersonalFundSheet.tsx:44 | replacing the slashes a second time changes nothing |
| FundSheet.FileName | components/PersonalFundSheet.tsx:44 | the file name is as long as the prefix, the date and the four characters of `.csv` together, and holds no `/` |
| FundSheet.FileNameLayout | components/PersonalFundSheet.tsx:44 | cut at the prefix's and the date's lengths, the file name is the fixed prefix, the dashed date and `.csv` |
| Decimal.NatToString | components/PersonalFundSheet.tsx:25-27 | a non-negative amount is written as digits only, with no leading zero |
| Decimal.IntToString | components/PersonalFundSheet.tsx:25-27 | an amount is written with a leading `-` exactly when negative, then digits |
| Decimal.IntRoundTrip | components/PersonalFundSheet.tsx:25-27 | reading a written amount back gives the amount |
| Decimal.IntToStringInjective | components/PersonalFundSheet.tsx:25-27 | distinct amounts are written differently |
| Decimal.IntToStringPlain | components/PersonalFundSheet.tsx:25-27 | a written amount holds no comma, quote or line break, so it needs no quoting |
| Text.SplitJoin | components/PersonalFundSheet.tsx:33-35 | splitting the joined lines at the separator gives the lines back when none holds it |
| Text.JoinSplit | components/PersonalFundSheet.tsx:33-35 | joining the pieces of a split restores the text |
| CsvRoundTrip.ReadEscaped | components/PersonalFundSheet.tsx:28 | a reader following RFC 4180 stops escaped notes at the closing quote and recovers the notes |
| CsvRoundTrip.ReadQuotedCell | components/PersonalFundSheet.tsx:28 | the quoted notes cell reads back as the notes, whatever commas, line feeds or quotes they hold |
| CsvRoundTrip.ReadRecord | components/PersonalFundSheet.tsx:34 | a comma-joined row of cells reads back as the cells' texts |
| CsvRoundTrip.ReadDocument | components/PersonalFundSheet.tsx:32-35 | lines joined by line feeds read back record by record, in order |
| CsvRoundTrip.RecordAsCells | components/PersonalFundSheet.tsx:23-29 | a date without quotes, quoted verbatim, is the same cell the escaping rule would give |
| CsvRoundTrip.ReadExport | components/PersonalFundSheet.tsx:23-35 | when no date holds a `"`, the header and the rows read back as the header's labels and each record's five fields |
| CsvRoundTrip.ExportImport | components/PersonalFundSheet.tsx:23-38 | when no date holds a quote, reading the payload back gives the header, then every record's date, monthly total, multiplier, target and notes, in order; `savingsTotal` and the id are not carried |
| CsvRoundTrip.ExportToCsvImport | components/PersonalFundSheet.tsx:13-38 | no records export nothing; otherwise, when no date holds a `"`, the downloaded payload reads back to the records' exported fields |
| CsvRoundTrip.QuotedDateUnreadable | components/PersonalFundSheet.tsx:24 | because the date is not escaped, a record whose date is one `"` gives a file that does not read back at all |
| SummarySection.FinalFund | components/SummarySection.tsx:14 | multiplier 0 gives 0; multiplier 1 gives the monthly total; with non-negative inputs the target is non-negative and, from one month on, at least the monthly total |
| SummarySection.FinalFundReadsMonthlyTotalOnly | components/SummarySection.tsx:14 | the target depends on no field of the summary other than `monthlyTotal` |
| SummarySection.FinalFundNextMonth | components/SummarySection.tsx:14 | each further month adds exactly one monthly total |
| SummarySection.FinalFundMonotone | components/SummarySection.tsx:14 | with non-negative spending, more months never give a smaller target |

## Left out

- The browser download (`Blob`, `URL.createObjectURL`, creating, clicking and removing a link, PersonalFundSheet.tsx:38-48): DOM input/output. The model stops at the payload, its MIME type and the file name.
- `alert(...)` on an empty export (PersonalFundSheet.tsx:15): modelled only as the `NothingToExport` result.
- The current date, `new Date().toLocaleDateString()` (PersonalFundSheet.tsx:44): clock and locale. It is the `today` parameter of `ExportToCsv` and `FileName`.
- Text encoding: the payload is a sequence of Unicode characters; the UTF-8 encoding done by `Blob` is not modelled. JavaScript strings are sequences of UTF-16 code units, while the model's are sequences of Unicode scalar values. A lone surrogate in the notes has no counterpart in the model, and lengths (as in `DashedDate`'s same-length clause) count scalar values, not `.length` code units.
- Decimal.IntToString: amounts are integers. JavaScript numbers are floating point, and `String(n)` switches to exponent notation from 1e21; neither fractions nor that notation are modelled.
- SummarySection.FinalFund: the product is exact integer multiplication, not floating point.
- All JSX rendering, including `toLocaleString` on amounts (SummarySection.tsx:28-50, PersonalFundSheet.tsx:96,102): display only and locale-dependent.
- Record deletion through `onDelete` (PersonalFundSheet.tsx:109): its implementation lives with the caller, not in these files.
- The expense table (`components/ExpenseTable.tsx`): UI, plus `parseFloat`, which is floating-point parsing.
- The item aggregation, record creation and persistence in `緊急預備金計算器/App.tsx`, and the advice component: not part of this model.
- CsvRoundTrip.ReadExport, CsvRoundTrip.ExportToCsvImport: hold only for dates without a `"`, for the reason given for `ExportImport` in the next line.
- CsvRoundTrip.ExportImport: holds only for dates without a `"`. The date is quoted but not escaped, and `QuotedDateUnreadable` shows the condition cannot be dropped. Dates from `toLocaleDateString` hold no quotes.
