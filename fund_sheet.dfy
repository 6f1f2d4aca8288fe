/** The CSV export of the personal fund sheet (components/PersonalFundSheet.tsx):
    the text content that exportToCSV hands to the browser, and the name of
    the file it is saved under. */
module FundSheet {
  import opened Wrappers
  import opened Types
  import opened Text
  import opened Decimal

  /** U+FEFF, put in front so that spreadsheet programs read the text as UTF-8. */
  const Bom: char := '\U{FEFF}'

  /** The five column labels: date, monthly spending, months of reserve,
      reserve target, notes. */
  const Headers: seq<string> := ["日期", "月標準支出", "準備月數", "預備金目標", "備註"]

  /** The first line of the content: the labels joined by commas. */
  const HeaderLine: string := Join(Headers, ',')

  const FilePrefix: string := "個人資金管理_"

  const MimeType: string := "text/csv;charset=utf-8;"

  // ---------------------------------------------------------------------------
  // Quote doubling for the notes column

  function QuoteCount(s: string): nat {
    if s == [] then 0 else (if s[0] == '"' then 1 else 0) + QuoteCount(s[1..])
  }

  function EscapeChar(c: char): string {
    if c == '"' then "\"\"" else [c]
  }

  /** Every '"' of `s` doubled, every other character kept. */
  function EscapeQuotes(s: string): (r: string)
    ensures |r| == |s| + QuoteCount(s)
  {
    if s == [] then [] else EscapeChar(s[0]) + EscapeQuotes(s[1..])
  }

  lemma EscapeHead(c: char, r: string)
    ensures EscapeQuotes([c] + r) == EscapeChar(c) + EscapeQuotes(r)
  {
    assert ([c] + r)[1..] == r;
  }

  /** Escaping adds and removes no character other than the quote. */
  lemma {:induction false} EscapeKeepsOthers(s: string, c: char)
    requires c != '"'
    ensures c in EscapeQuotes(s) <==> c in s
  {
    if s != [] {
      EscapeKeepsOthers(s[1..], c);
      assert s == [s[0]] + s[1..];
    }
  }

  /** Every '"' of `t` comes in a pair of two adjacent quotes. */
  predicate QuotesPaired(t: string)
    decreases |t|
  {
    if t == [] then true
    else if t[0] == '"' then |t| >= 2 && t[1] == '"' && QuotesPaired(t[2..])
    else QuotesPaired(t[1..])
  }

  /** Every pair '""' of `t` collapsed back to one '"'. */
  function CollapseQuotes(t: string): string
    decreases |t|
  {
    if t == [] then []
    else if |t| >= 2 && t[0] == '"' && t[1] == '"' then "\"" + CollapseQuotes(t[2..])
    else [t[0]] + CollapseQuotes(t[1..])
  }

  lemma {:induction false} EscapeAppend(a: string, b: string)
    ensures EscapeQuotes(a + b) == EscapeQuotes(a) + EscapeQuotes(b)
  {
    if a == [] {
      assert a + b == b;
    } else {
      assert (a + b)[0] == a[0];
      assert (a + b)[1..] == a[1..] + b;
      EscapeAppend(a[1..], b);
    }
  }

  /** Collapsing the doubled quotes recovers the original notes exactly. */
  lemma {:induction false} CollapseEscape(s: string)
    ensures CollapseQuotes(EscapeQuotes(s)) == s
  {
    if s != [] {
      var e := EscapeQuotes(s[1..]);
      CollapseEscape(s[1..]);
      if s[0] == '"' {
        assert EscapeQuotes(s) == "\"\"" + e;
        assert ("\"\"" + e)[2..] == e;
      } else {
        assert EscapeQuotes(s) == [s[0]] + e;
        assert ([s[0]] + e)[1..] == e;
      }
    }
  }

  /** The escaped notes hold no unpaired quote. */
  lemma {:induction false} EscapePaired(s: string)
    ensures QuotesPaired(EscapeQuotes(s))
  {
    if s != [] {
      var e := EscapeQuotes(s[1..]);
      EscapePaired(s[1..]);
      if s[0] == '"' {
        assert ("\"\"" + e)[2..] == e;
      } else {
        assert ([s[0]] + e)[1..] == e;
      }
    }
  }

  /** Conversely, every text with paired quotes is the escape of exactly
      one text: the one obtained by collapsing its pairs. */
  lemma {:induction false} EscapeCollapse(t: string)
    requires QuotesPaired(t)
    ensures EscapeQuotes(CollapseQuotes(t)) == t
    decreases |t|
  {
    if t != [] {
      if t[0] == '"' {
        var c := CollapseQuotes(t[2..]);
        EscapeCollapse(t[2..]);
        assert ("\"" + c)[1..] == c;
        assert t == "\"\"" + t[2..];
      } else {
        var c := CollapseQuotes(t[1..]);
        EscapeCollapse(t[1..]);
        assert ([t[0]] + c)[1..] == c;
        assert t == [t[0]] + t[1..];
      }
    }
  }

  /** Escaping leaves a text unchanged exactly when it holds no quote. */
  lemma {:induction false} EscapeUnchangedIff(s: string)
    ensures EscapeQuotes(s) == s <==> '"' !in s
  {
    QuoteCountZero(s);
  }

  lemma {:induction false} QuoteCountZero(s: string)
    ensures QuoteCount(s) == 0 <==> '"' !in s
    ensures '"' !in s ==> EscapeQuotes(s) == s
  {
    if s != [] {
      QuoteCountZero(s[1..]);
      assert s == [s[0]] + s[1..];
    }
  }

  /** The example of a name holding a quote: O"Brien becomes O""Brien. */
  lemma EscapeExample()
    ensures EscapeQuotes("O\"Brien") == "O\"\"Brien"
  {
    EscapeAppend("O", "\"Brien");
    EscapeAppend("\"", "Brien");
    QuoteCountZero("Brien");
  }

  // ---------------------------------------------------------------------------
  // Rows and content

  /** A text cell: the text between two double quotes. */
  function Quote(s: string): string {
    "\"" + s + "\""
  }

  lemma QuoteInner(s: string)
    ensures |Quote(s)| == |s| + 2 && Quote(s)[1..|Quote(s)| - 1] == s
  {
  }

  /** The five cells of one record: the date quoted as it is, the three amounts
      unquoted, the notes quoted with their quotes doubled. */
  function RowCells(r: SavedRecord): seq<string> {
    [Quote(r.date),
     IntToString(r.monthlyTotal),
     IntToString(r.multiplier),
     IntToString(r.targetFund),
     Quote(EscapeQuotes(r.details))]
  }

  /** The cells joined by commas: a row opens with the date's quote and closes
      with the notes' quote. */
  function Row(r: SavedRecord): (row: string)
    ensures |row| > 0 && row[0] == '"' && row[|row| - 1] == '"'
  {
    JoinEnds(RowCells(r), ',');
    Join(RowCells(r), ',')
  }

  /** One row per record, in the records' order. */
  function Rows(records: seq<SavedRecord>): (rows: seq<string>)
    ensures |rows| == |records|
    ensures forall i :: 0 <= i < |records| ==> rows[i] == Row(records[i])
  {
    if records == [] then [] else [Row(records[0])] + Rows(records[1..])
  }

  /** The header line and the rows, separated by line feeds. */
  function CsvContent(records: seq<SavedRecord>): (content: string)
    ensures |HeaderLine| <= |content| && content[..|HeaderLine|] == HeaderLine
    ensures records == [] ==> content == HeaderLine
    ensures records != [] ==> content[|content| - 1] == '"'
  {
    if records == [] then
      assert [HeaderLine] + Rows(records) == [HeaderLine];
      Join([HeaderLine], '\n')
    else
      LinesEnd(HeaderLine, records);
      Join([HeaderLine] + Rows(records), '\n')
  }

  /** What is written to the file: the byte-order mark, then the content. */
  function CsvPayload(records: seq<SavedRecord>): (payload: string)
    ensures |payload| == |CsvContent(records)| + 1
    ensures payload[0] == Bom && payload[1..] == CsvContent(records)
  {
    [Bom] + CsvContent(records)
  }

  // ---------------------------------------------------------------------------
  // File name

  /** The date with every '/' replaced by '-'. */
  function DashedDate(date: string): (r: string)
    ensures |r| == |date|
    ensures forall i :: 0 <= i < |date| ==> r[i] == (if date[i] == '/' then '-' else date[i])
    ensures '/' !in r
  {
    if date == [] then []
    else [if date[0] == '/' then '-' else date[0]] + DashedDate(date[1..])
  }

  /** The download name for an export made on `today` (the locale's date text). */
  function FileName(today: string): (name: string)
    ensures |name| == |FilePrefix| + |today| + 4
    ensures '/' !in name
  {
    FilePrefix + DashedDate(today) + ".csv"
  }

  // ---------------------------------------------------------------------------
  // The export

  /** What exportToCSV produces: nothing when there are no records (the user is
      told there is nothing to export), otherwise one file to download. */
  datatype CsvExport =
    | NothingToExport
    | Download(fileName: string, mimeType: string, payload: string)

  function ExportToCsv(records: seq<SavedRecord>, today: string): (e: CsvExport)
    ensures e.NothingToExport? <==> records == []
    ensures e.Download? ==> |e.payload| > 0 && e.payload[0] == Bom
    ensures e.Download? ==> e.fileName == FileName(today) && e.mimeType == MimeType
  {
    if |records| == 0 then NothingToExport
    else Download(FileName(today), MimeType, CsvPayload(records))
  }

  // ---------------------------------------------------------------------------
  // Shape of the exported text

  /** Text that CSV may carry outside quotes: no comma, line feed or quote. */
  predicate PlainText(x: string) {
    ',' !in x && '\n' !in x && '"' !in x
  }

  /** The labels are plain text, so the header line holds no line feed and
      splitting it at its commas gives the five labels back, in order. */
  lemma HeaderLabels()
    ensures forall i :: 0 <= i < |Headers| ==> PlainText(Headers[i])
    ensures Split(HeaderLine, ',') == Headers
    ensures '\n' !in HeaderLine
  {
    assert PlainText(Headers[0]);
    assert PlainText(Headers[1]);
    assert PlainText(Headers[2]);
    assert PlainText(Headers[3]);
    assert PlainText(Headers[4]);
    SplitJoin(Headers, ',');
    JoinAvoids(Headers, ',', '\n');
  }

  /** The three amount cells read back as the record's amounts. */
  lemma AmountCellsRead(r: SavedRecord)
    ensures |RowCells(r)| == 5
    ensures ParseInt(RowCells(r)[1]) == Some(r.monthlyTotal)
    ensures ParseInt(RowCells(r)[2]) == Some(r.multiplier)
    ensures ParseInt(RowCells(r)[3]) == Some(r.targetFund)
  {
    IntRoundTrip(r.monthlyTotal);
    IntRoundTrip(r.multiplier);
    IntRoundTrip(r.targetFund);
  }

  /** The text cells read back as the record's texts: the date between its
      quotes, the notes once their quote pairs are collapsed. */
  lemma TextCellsRead(r: SavedRecord)
    ensures |RowCells(r)| == 5
    ensures var c := RowCells(r)[0]; |c| == |r.date| + 2 && c[1..|c| - 1] == r.date
    ensures var c := RowCells(r)[4]; |c| >= 2 && CollapseQuotes(c[1..|c| - 1]) == r.details
  {
    QuoteInner(r.date);
    QuoteInner(EscapeQuotes(r.details));
    CollapseEscape(r.details);
  }

  /** A row is the quoted date, the three amounts and the quoted, escaped notes,
      separated by commas; the id and savingsTotal take no part in it. */
  lemma RowText(r: SavedRecord)
    ensures Row(r) == Quote(r.date) + "," + IntToString(r.monthlyTotal) + ","
                      + IntToString(r.multiplier) + "," + IntToString(r.targetFund) + ","
                      + Quote(EscapeQuotes(r.details))
  {
    Join5(Quote(r.date), IntToString(r.monthlyTotal), IntToString(r.multiplier),
          IntToString(r.targetFund), Quote(EscapeQuotes(r.details)), ',');
  }

  /** Two records that agree on the exported fields give the same row,
      whatever their ids and savings totals. */
  lemma RowIgnoresIdAndSavings(r: SavedRecord, id: string, savingsTotal: int)
    ensures Row(r.(id := id, savingsTotal := savingsTotal)) == Row(r)
  {
  }

  /** The payload is the byte-order mark, the header line and then, for each
      record, a line feed followed by its row. */
  lemma PayloadLayout(records: seq<SavedRecord>)
    ensures CsvPayload(records) ==
      [Bom] + HeaderLine + (if records == [] then "" else "\n" + Join(Rows(records), '\n'))
  {
    var rest := if records == [] then "" else "\n" + Join(Rows(records), '\n');
    LinesFront(HeaderLine, records);
    AppendAssoc([Bom], HeaderLine, rest);
  }

  lemma LinesFront(header: string, records: seq<SavedRecord>)
    ensures Join([header] + Rows(records), '\n') ==
      header + (if records == [] then "" else "\n" + Join(Rows(records), '\n'))
  {
    JoinFront(header, Rows(records), '\n');
  }

  /** With records, the lines joined under a header end with the last row's
      closing quote. */
  lemma LinesEnd(header: string, records: seq<SavedRecord>)
    requires records != []
    ensures var s := Join([header] + Rows(records), '\n'); |s| > 0 && s[|s| - 1] == '"'
  {
    var lines := [header] + Rows(records);
    var n := |records| - 1;
    assert lines[|lines| - 1] == Rows(records)[n];
    JoinEnds(lines, '\n');
  }

  /** With one record, the content is the header line, a line feed and the row. */
  lemma SingleRecordContent(r: SavedRecord)
    ensures CsvPayload([r])[1..] == HeaderLine + ("\n" + Row(r))
  {
    assert Rows([r]) == [Row(r)];
    JoinCons(HeaderLine, [Row(r)], '\n');
    AppendAssoc(HeaderLine, "\n", Row(r));
  }

  /** The payload ends with the last record's closing quote: no line feed
      trails it. */
  lemma PayloadEnd(records: seq<SavedRecord>)
    requires records != []
    ensures CsvPayload(records)[|CsvPayload(records)| - 1] == '"'
  {
    LinesEnd(HeaderLine, records);
  }

  lemma RowWithoutLineFeed(r: SavedRecord)
    requires '\n' !in r.date && '\n' !in r.details
    ensures '\n' !in Row(r)
  {
    IntToStringPlain(r.monthlyTotal);
    IntToStringPlain(r.multiplier);
    IntToStringPlain(r.targetFund);
    EscapeKeepsOthers(r.details, '\n');
    JoinAvoids(RowCells(r), ',', '\n');
  }

  predicate NoLineFeeds(records: seq<SavedRecord>) {
    forall i :: 0 <= i < |records| ==> '\n' !in records[i].date && '\n' !in records[i].details
  }

  lemma LinesSplit(header: string, records: seq<SavedRecord>)
    requires '\n' !in header && NoLineFeeds(records)
    ensures Split(Join([header] + Rows(records), '\n'), '\n') == [header] + Rows(records)
  {
    var lines := [header] + Rows(records);
    forall i | 0 <= i < |lines|
      ensures '\n' !in lines[i]
    {
      if i > 0 {
        RowWithoutLineFeed(records[i - 1]);
      }
    }
    SplitJoin(lines, '\n');
  }

  /** When no date and no notes hold a line feed, the content is exactly
      |records| + 1 lines: the header, then row i built from records[i]. */
  lemma ContentLines(records: seq<SavedRecord>)
    requires NoLineFeeds(records)
    ensures Split(CsvContent(records), '\n') == [HeaderLine] + Rows(records)
    ensures |Split(CsvContent(records), '\n')| == |records| + 1
    ensures forall i :: 0 <= i < |records| ==> Split(CsvContent(records), '\n')[i + 1] == Row(records[i])
  {
    HeaderLabels();
    LinesSplit(HeaderLine, records);
  }

  /** Replacing the slashes changes nothing a second time. */
  lemma DashedDateIdempotent(date: string)
    ensures DashedDate(DashedDate(date)) == DashedDate(date)
  {
  }

  /** The file name is the fixed prefix, the date with dashes in place of
      slashes (as long as the date), and the .csv extension. */
  lemma FileNameLayout(today: string)
    ensures FileName(today)[..|FilePrefix|] == FilePrefix
    ensures FileName(today)[|FilePrefix|..|FilePrefix| + |today|] == DashedDate(today)
    ensures FileName(today)[|FilePrefix| + |today|..] == ".csv"
  {
    Text.SliceThree(FilePrefix, DashedDate(today), ".csv");
  }
}
