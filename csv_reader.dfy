/** A reader for comma-separated text following the quoting rules of
    section 2 of RFC 4180 (items 5 to 7): a field may be enclosed in double
    quotes, inside which commas and line breaks are plain text and a doubled
    quote stands for one quote. Records end at a line feed. This reader is
    the reference against which the fund sheet's export is checked. */
module CsvReader {
  import opened Wrappers

  predicate IsFieldEnd(rest: string) {
    rest == [] || rest[0] == ',' || rest[0] == '\n'
  }

  /** Reads the inside of a quoted field, `s` starting just after the opening
      quote: the field's text and what follows the closing quote. */
  function ParseQuoted(s: string): (r: Option<(string, string)>)
    ensures r.Some? ==> |r.value.1| < |s|
    decreases |s|
  {
    if s == [] then None
    else if s[0] == '"' then
      if |s| >= 2 && s[1] == '"' then
        match ParseQuoted(s[2..])
        case None => None
        case Some((text, rest)) => Some(("\"" + text, rest))
      else Some(([], s[1..]))
    else
      match ParseQuoted(s[1..])
      case None => None
      case Some((text, rest)) => Some(([s[0]] + text, rest))
  }

  /** The length of the unquoted field at the start of `s`. */
  function BareLength(s: string): (k: nat)
    ensures k <= |s| && IsFieldEnd(s[k..])
    ensures forall j :: 0 <= j < k ==> s[j] != ',' && s[j] != '\n'
  {
    if s == [] || s[0] == ',' || s[0] == '\n' then 0
    else 1 + BareLength(s[1..])
  }

  /** Reads one field: its text and the rest of the input, which is empty or
      starts with the comma or line feed that ends the field. */
  function ParseField(s: string): (r: Option<(string, string)>)
    ensures r.Some? ==> |r.value.1| <= |s| && IsFieldEnd(r.value.1)
  {
    if |s| > 0 && s[0] == '"' then
      match ParseQuoted(s[1..])
      case None => None
      case Some((text, rest)) => if IsFieldEnd(rest) then Some((text, rest)) else None
    else
      var k := BareLength(s);
      Some((s[..k], s[k..]))
  }

  /** Reads one record: its fields, and None at the end of the input or the
      text after the line feed that ends the record. */
  function ParseRecord(s: string): (r: Option<(seq<string>, Option<string>)>)
    ensures r.Some? ==> |r.value.0| > 0
    ensures r.Some? && r.value.1.Some? ==> |r.value.1.value| < |s|
    decreases |s|
  {
    match ParseField(s)
    case None => None
    case Some((field, rest)) =>
      if rest == [] then Some(([field], None))
      else if rest[0] == ',' then
        match ParseRecord(rest[1..])
        case None => None
        case Some((fields, next)) => Some(([field] + fields, next))
      else Some(([field], Some(rest[1..])))
  }

  /** Reads all records of a text. */
  function ParseDocument(s: string): (r: Option<seq<seq<string>>>)
    ensures r.Some? ==> |r.value| > 0
    decreases |s|
  {
    match ParseRecord(s)
    case None => None
    case Some((fields, None)) => Some([fields])
    case Some((fields, Some(next))) =>
      match ParseDocument(next)
      case None => None
      case Some(records) => Some([fields] + records)
  }
}
