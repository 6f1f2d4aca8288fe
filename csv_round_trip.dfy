/** The exported CSV read back with the RFC 4180 reader: every record's date,
    amounts and notes come back exactly, in order, under the fixed header
    (provided no date holds a double quote, since dates are not escaped). */
module CsvRoundTrip {
  import opened Wrappers
  import opened Types
  import opened Text
  import opened Decimal
  import opened FundSheet
  import opened CsvReader

  // ---------------------------------------------------------------------------
  // Cells as the export writes them

  /** A cell written between quotes with its quotes doubled, or written bare. */
  datatype Cell = Quoted(text: string) | Bare(text: string)

  /** A bare cell must not hold a comma, a line feed or a quote. */
  predicate Writable(c: Cell) {
    c.Bare? ==> PlainText(c.text)
  }

  function Encode(c: Cell): string {
    match c
    case Quoted(x) => Quote(EscapeQuotes(x))
    case Bare(x) => x
  }

  function EncodeCells(cells: seq<Cell>): (parts: seq<string>)
    ensures |parts| == |cells|
    ensures forall i :: 0 <= i < |cells| ==> parts[i] == Encode(cells[i])
  {
    if cells == [] then [] else [Encode(cells[0])] + EncodeCells(cells[1..])
  }

  function Texts(cells: seq<Cell>): (texts: seq<string>)
    ensures |texts| == |cells|
    ensures forall i :: 0 <= i < |cells| ==> texts[i] == cells[i].text
  {
    if cells == [] then [] else [cells[0].text] + Texts(cells[1..])
  }

  function EncodeLines(table: seq<seq<Cell>>): (lines: seq<string>)
    ensures |lines| == |table|
  {
    if table == [] then [] else [Join(EncodeCells(table[0]), ',')] + EncodeLines(table[1..])
  }

  function TextTable(table: seq<seq<Cell>>): (texts: seq<seq<string>>)
    ensures |texts| == |table|
  {
    if table == [] then [] else [Texts(table[0])] + TextTable(table[1..])
  }

  predicate WritableTable(table: seq<seq<Cell>>) {
    forall i :: 0 <= i < |table| ==>
      |table[i]| > 0 && forall j :: 0 <= j < |table[i]| ==> Writable(table[i][j])
  }

  // ---------------------------------------------------------------------------
  // Reading back one field, one record, a whole text

  /** One escaped character at the front of a quoted field's inside is read
      as that character. */
  lemma ReadHead(c: char, u: string)
    ensures ParseQuoted(EscapeChar(c) + u) ==
      match ParseQuoted(u)
      case None => None
      case Some((text, rest)) => Some(([c] + text, rest))
  {
    if c == '"' {
      assert (EscapeChar(c) + u)[2..] == u;
    } else {
      assert (EscapeChar(c) + u)[1..] == u;
    }
  }

  /** The reader stops an escaped text at its closing quote and gives back the
      original text. */
  lemma {:induction false} ReadEscaped(x: string, tail: string)
    requires tail == [] || tail[0] != '"'
    ensures ParseQuoted(EscapeQuotes(x) + ("\"" + tail)) == Some((x, tail))
  {
    var closing := "\"" + tail;
    if x == [] {
      assert EscapeQuotes(x) + closing == closing;
      assert closing[1..] == tail;
    } else {
      var c, r := x[0], x[1..];
      assert x == [c] + r;
      EscapeHead(c, r);
      ReadHead(c, EscapeQuotes(r) + closing);
      ReadEscaped(r, tail);
      AppendAssoc(EscapeChar(c), EscapeQuotes(r), closing);
    }
  }

  lemma ReadQuotedCell(x: string, tail: string)
    requires IsFieldEnd(tail)
    ensures ParseField(Quote(EscapeQuotes(x)) + tail) == Some((x, tail))
  {
    var e := EscapeQuotes(x);
    assert Quote(e) + tail == "\"" + (e + ("\"" + tail));
    ReadEscaped(x, tail);
  }

  lemma ReadBareCell(x: string, tail: string)
    requires PlainText(x) && IsFieldEnd(tail)
    ensures ParseField(x + tail) == Some((x, tail))
  {
    var s := x + tail;
    assert s == [] || s[0] != '"' by {
      if x != [] { assert s[0] == x[0]; }
    }
    var k := BareLength(s);
    assert |x| < |s| ==> s[|x|] == tail[0];
    assert k == |x|;
    assert s[..k] == x && s[k..] == tail;
  }

  lemma ReadCell(c: Cell, tail: string)
    requires Writable(c) && IsFieldEnd(tail)
    ensures ParseField(Encode(c) + tail) == Some((c.text, tail))
  {
    match c
    case Quoted(x) => ReadQuotedCell(x, tail);
    case Bare(x) => ReadBareCell(x, tail);
  }

  /** A comma-joined list of writable cells followed by the end of the text or
      a line feed reads back as the list of the cells' texts. */
  lemma {:induction false} ReadRecord(cells: seq<Cell>, tail: string)
    requires |cells| > 0 && forall i :: 0 <= i < |cells| ==> Writable(cells[i])
    requires tail == [] || tail[0] == '\n'
    ensures ParseRecord(Join(EncodeCells(cells), ',') + tail)
         == Some((Texts(cells), if tail == [] then None else Some(tail[1..])))
  {
    var parts := EncodeCells(cells);
    if |cells| == 1 {
      assert parts == [Encode(cells[0])];
      assert Texts(cells) == [cells[0].text];
      ReadCell(cells[0], tail);
    } else {
      var rest := Join(parts[1..], ',') + tail;
      assert parts[1..] == EncodeCells(cells[1..]);
      assert Join(parts, ',') + tail == Encode(cells[0]) + ("," + rest);
      ReadCell(cells[0], "," + rest);
      assert ("," + rest)[1..] == rest;
      ReadRecord(cells[1..], tail);
      assert Texts(cells) == [cells[0].text] + Texts(cells[1..]);
    }
  }

  /** Lines of writable cells joined by line feeds read back as the table of
      their texts, record by record. */
  lemma {:induction false} ReadDocument(table: seq<seq<Cell>>)
    requires |table| > 0 && WritableTable(table)
    ensures ParseDocument(Join(EncodeLines(table), '\n')) == Some(TextTable(table))
  {
    var lines := EncodeLines(table);
    if |table| == 1 {
      assert lines == [lines[0]];
      assert Join(lines, '\n') + [] == Join(EncodeCells(table[0]), ',');
      assert TextTable(table) == [Texts(table[0])];
      ReadRecord(table[0], []);
    } else {
      var rest := Join(lines[1..], '\n');
      assert lines[1..] == EncodeLines(table[1..]);
      assert Join(lines, '\n') == Join(EncodeCells(table[0]), ',') + ("\n" + rest);
      ReadRecord(table[0], "\n" + rest);
      assert ("\n" + rest)[1..] == rest;
      ReadDocument(table[1..]);
    }
  }

  // ---------------------------------------------------------------------------
  // The fund sheet's header and rows as cells

  function BareCells(texts: seq<string>): (cells: seq<Cell>)
    ensures |cells| == |texts|
    ensures forall i :: 0 <= i < |texts| ==> cells[i] == Bare(texts[i])
  {
    if texts == [] then [] else [Bare(texts[0])] + BareCells(texts[1..])
  }

  lemma {:induction false} BareCellsRoundTrip(texts: seq<string>)
    ensures EncodeCells(BareCells(texts)) == texts && Texts(BareCells(texts)) == texts
  {
    if texts != [] {
      BareCellsRoundTrip(texts[1..]);
      assert BareCells(texts)[1..] == BareCells(texts[1..]);
    }
  }

  const HeaderCells: seq<Cell> := BareCells(Headers)

  function RecordCells(r: SavedRecord): seq<Cell> {
    [Quoted(r.date),
     Bare(IntToString(r.monthlyTotal)),
     Bare(IntToString(r.multiplier)),
     Bare(IntToString(r.targetFund)),
     Quoted(r.details)]
  }

  function RecordTable(records: seq<SavedRecord>): (table: seq<seq<Cell>>)
    ensures |table| == |records|
  {
    if records == [] then [] else [RecordCells(records[0])] + RecordTable(records[1..])
  }

  predicate DatesUnquoted(records: seq<SavedRecord>) {
    forall i :: 0 <= i < |records| ==> '"' !in records[i].date
  }

  lemma HeaderAsCells()
    ensures EncodeCells(HeaderCells) == Headers && Texts(HeaderCells) == Headers
    ensures Join(EncodeCells(HeaderCells), ',') == HeaderLine
    ensures |HeaderCells| > 0 && forall j :: 0 <= j < |HeaderCells| ==> Writable(HeaderCells[j])
  {
    HeaderLabels();
    BareCellsRoundTrip(Headers);
  }

  /** A date without quotes, quoted verbatim, is the same cell as an escaped one. */
  lemma RecordAsCells(r: SavedRecord)
    requires '"' !in r.date
    ensures EncodeCells(RecordCells(r)) == RowCells(r)
    ensures forall j :: 0 <= j < |RecordCells(r)| ==> Writable(RecordCells(r)[j])
  {
    QuoteCountZero(r.date);
    IntToStringPlain(r.monthlyTotal);
    IntToStringPlain(r.multiplier);
    IntToStringPlain(r.targetFund);
  }

  lemma {:induction false} RowsAsLines(records: seq<SavedRecord>)
    requires DatesUnquoted(records)
    ensures EncodeLines(RecordTable(records)) == Rows(records)
    ensures WritableTable(RecordTable(records))
  {
    if records != [] {
      RecordAsCells(records[0]);
      RowsAsLines(records[1..]);
      assert RecordTable(records)[1..] == RecordTable(records[1..]);
    }
  }

  // ---------------------------------------------------------------------------
  // Importing an export

  /** The fields of a record that the export carries. */
  datatype ExportedRow = ExportedRow(
    date: string,
    monthlyTotal: int,
    multiplier: int,
    targetFund: int,
    details: string)

  function Exported(r: SavedRecord): ExportedRow {
    ExportedRow(r.date, r.monthlyTotal, r.multiplier, r.targetFund, r.details)
  }

  function ExportedAll(records: seq<SavedRecord>): (rows: seq<ExportedRow>)
    ensures |rows| == |records|
    ensures forall i :: 0 <= i < |records| ==> rows[i] == Exported(records[i])
  {
    if records == [] then [] else [Exported(records[0])] + ExportedAll(records[1..])
  }

  /** Five fields: text, three numbers, text. */
  function DecodeRow(fields: seq<string>): Option<ExportedRow> {
    if |fields| != 5 then None
    else match (ParseInt(fields[1]), ParseInt(fields[2]), ParseInt(fields[3]))
      case (Some(m), Some(k), Some(t)) => Some(ExportedRow(fields[0], m, k, t, fields[4]))
      case _ => None
  }

  function DecodeRows(table: seq<seq<string>>): Option<seq<ExportedRow>> {
    if table == [] then Some([])
    else match (DecodeRow(table[0]), DecodeRows(table[1..]))
      case (Some(row), Some(rows)) => Some([row] + rows)
      case _ => None
  }

  /** Reads a fund-sheet export: the byte-order mark, the fixed header, then
      one record per line. */
  function ImportCsv(payload: string): Option<seq<ExportedRow>> {
    if |payload| == 0 || payload[0] != Bom then None
    else match ParseDocument(payload[1..])
      case None => None
      case Some(table) => if table[0] != Headers then None else DecodeRows(table[1..])
  }

  lemma {:induction false} DecodeRecordTable(records: seq<SavedRecord>)
    ensures DecodeRows(TextTable(RecordTable(records))) == Some(ExportedAll(records))
  {
    if records != [] {
      var r := records[0];
      IntRoundTrip(r.monthlyTotal);
      IntRoundTrip(r.multiplier);
      IntRoundTrip(r.targetFund);
      assert RecordTable(records)[1..] == RecordTable(records[1..]);
      assert TextTable(RecordTable(records))[1..] == TextTable(RecordTable(records[1..]));
      DecodeRecordTable(records[1..]);
    }
  }

  /** A header of writable cells followed by the records' rows reads back as
      the header's texts followed by each record's five fields. */
  lemma ReadExport(header: seq<Cell>, records: seq<SavedRecord>)
    requires |header| > 0 && forall j :: 0 <= j < |header| ==> Writable(header[j])
    requires DatesUnquoted(records)
    ensures ParseDocument(Join([Join(EncodeCells(header), ',')] + Rows(records), '\n'))
         == Some([Texts(header)] + TextTable(RecordTable(records)))
  {
    var table := [header] + RecordTable(records);
    RowsAsLines(records);
    assert table[1..] == RecordTable(records);
    assert EncodeLines(table) == [Join(EncodeCells(header), ',')] + Rows(records);
    assert WritableTable(table);
    ReadDocument(table);
    assert TextTable(table) == [Texts(header)] + TextTable(RecordTable(records));
  }

  /** Reading the payload back gives the header check and then every record's
      date, monthly total, multiplier, target and notes, in the records' order. */
  lemma ExportImport(records: seq<SavedRecord>)
    requires DatesUnquoted(records)
    ensures ImportCsv(CsvPayload(records)) == Some(ExportedAll(records))
  {
    HeaderAsCells();
    ReadExport(HeaderCells, records);
    assert CsvPayload(records)[1..] == CsvContent(records);
    DecodeRecordTable(records);
  }

  /** The whole export: with records it yields a file whose payload reads back
      to those records; without records it yields nothing. */
  lemma ExportToCsvImport(records: seq<SavedRecord>, today: string)
    requires DatesUnquoted(records)
    ensures records == [] ==> ExportToCsv(records, today) == NothingToExport
    ensures records != [] ==>
              ExportToCsv(records, today).Download? &&
              ImportCsv(ExportToCsv(records, today).payload) == Some(ExportedAll(records))
  {
    ExportImport(records);
  }

  /** A quoted field whose only remaining quotes are one doubled pair at the
      end never closes. */
  lemma {:induction false} NeverCloses(p: string)
    requires '"' !in p
    ensures ParseQuoted(p + "\"\"") == None
  {
    if p == [] {
      assert ParseQuoted("\"\""[2..]) == None;
    } else {
      assert (p + "\"\"")[1..] == p[1..] + "\"\"";
      NeverCloses(p[1..]);
    }
  }

  const QuoteDateRecord := SavedRecord("", "\"", 0, 0, 0, 0, "")

  lemma QuoteDateRow()
    ensures Row(QuoteDateRecord) == "\"" + ("\"\"" + ",0,0,0," + "\"\"")
  {
    assert IntToString(0) == "0";
    assert EscapeQuotes("") == "";
    assert Quote("\"") == "\"\"\"" && Quote("") == "\"\"";
    assert RowCells(QuoteDateRecord) == ["\"\"\"", "0", "0", "0", "\"\""];
    Join5("\"\"\"", "0", "0", "0", "\"\"", ',');
  }

  /** Inside the row's first quoted field, the date's quote and the closing
      quote read as one escaped quote, and the field never closes. */
  lemma QuoteDateRowUnreadable()
    ensures ParseDocument(Row(QuoteDateRecord)) == None
  {
    var row := Row(QuoteDateRecord);
    var open := ",0,0,0," + "\"\"";
    var body := "\"\"" + open;
    QuoteDateRow();
    assert row[0] == '"' && row[1..] == body;
    assert ParseQuoted(body) == None by {
      NeverCloses(",0,0,0,");
      assert body[0] == '"' && body[1] == '"' && body[2..] == open;
    }
  }

  lemma ReadHeaderThen(rest: string)
    ensures ParseRecord(HeaderLine + ("\n" + rest)) == Some((Headers, Some(rest)))
  {
    HeaderAsCells();
    ReadRecord(HeaderCells, "\n" + rest);
    assert ("\n" + rest)[1..] == rest;
  }

  /** The date is quoted without doubling its quotes, so the condition on dates
      above cannot be dropped: an export whose only date is one double quote
      does not read back at all. */
  lemma QuotedDateUnreadable()
    ensures ImportCsv(CsvPayload([QuoteDateRecord])) == None
  {
    var row := Row(QuoteDateRecord);
    QuoteDateRowUnreadable();
    ReadHeaderThen(row);
    SingleRecordContent(QuoteDateRecord);
  }
}
