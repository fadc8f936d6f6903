/** The CSV dialect that `src/batch/csv.rs` accepts, as a grammar over lines of fields. */
module CsvGrammar {
  const QUOTE: string := "\""
  const COMMA: string := ","

  /** One field as it stands in a record: the text between the quotes, or the bare text. */
  datatype Field = Field(raw: string, quoted: bool)

  /** How a line ends; the last line may simply run out of input. */
  datatype Ending = Lf | CrLf | EndOfInput

  datatype Line<T> = Line(fields: T, ending: Ending)

  function FieldText(field: Field): (r: string) {
    if field.quoted then QUOTE + field.raw + QUOTE else field.raw
  }

  /** The fields with a comma between each two. */
  function Joined(fields: seq<Field>): (r: string) {
    if fields == [] then ""
    else if |fields| == 1 then FieldText(fields[0])
    else FieldText(fields[0]) + COMMA + Joined(fields[1..])
  }

  function EndingText(ending: Ending): (r: string) {
    match ending
    case Lf => "\n"
    case CrLf => "\r\n"
    case EndOfInput => ""
  }

  function DocumentText(lines: seq<Line<seq<Field>>>): (r: string) {
    if lines == [] then ""
    else Joined(lines[0].fields) + EndingText(lines[0].ending) + DocumentText(lines[1..])
  }

  // ---------- what may stand where ----------

  predicate Without(s: string, banned: string) {
    s == "" || (s[0] !in banned && Without(s[1..], banned))
  }

  /** Quotes stand in adjacent pairs. */
  predicate PairedQuotes(s: string) {
    s == ""
    || (if s[0] == '"' then |s| > 1 && s[1] == '"' && PairedQuotes(s[2..]) else PairedQuotes(s[1..]))
  }

  /** Every carriage return is followed by a line feed. */
  predicate PairedReturns(s: string) {
    s == "" || ((s[0] == '\r' ==> |s| > 1 && s[1] == '\n') && PairedReturns(s[1..]))
  }

  /** What the field scanner alone accepts. */
  predicate Scannable(field: Field) {
    if field.quoted then PairedQuotes(field.raw) else Without(field.raw, ",\"")
  }

  /** What the splitter lets pass inside one record. */
  predicate Unbroken(field: Field) {
    if field.quoted then PairedReturns(field.raw) else Without(field.raw, "\r\n")
  }

  predicate AllScannable(fields: seq<Field>) {
    fields == [] || (Scannable(fields[0]) && AllScannable(fields[1..]))
  }

  predicate AllUnbroken(fields: seq<Field>) {
    fields == [] || (Unbroken(fields[0]) && AllUnbroken(fields[1..]))
  }

  predicate WellFormedRecord(fields: seq<Field>) {
    fields != [] && AllScannable(fields) && AllUnbroken(fields)
  }

  /** Only the last line may end with the input, and only a non-empty one. */
  predicate WellFormed(lines: seq<Line<seq<Field>>>) {
    lines == []
    || (WellFormedRecord(lines[0].fields)
        && (lines[0].ending.EndOfInput? ==> |lines| == 1 && Joined(lines[0].fields) != "")
        && WellFormed(lines[1..]))
  }
}
