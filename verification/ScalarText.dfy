/** The text of `Int64` and `Bool` values, as Rust prints and parses them, for which the laws of
    the text formats hold without assumptions. */
module ScalarText {
  import opened Words
  import opened Cells
  import CsvIngest
  import CsvRoundTrip
  import CsvGrammar
  import CsvWriter
  import JsonReading
  import Tsv
  import TsvReading

  datatype Scalar = Int(value: i64) | Truth(truth: bool)

  // ---------- decimal numbers ----------

  predicate IsDigit(c: char) {
    '0' <= c <= '9'
  }

  function Magnitude(v: i64): (r: nat) {
    if v < 0 then 0 - v else v
  }

  /** `i64::to_string`. */
  function IntText(v: i64): (r: string) {
    (if v < 0 then "-" else "") + Decimal(Magnitude(v))
  }

  /** The number a string of digits denotes; nothing for an empty or any other string. */
  function Number(s: string): (r: Option<nat>) {
    if s == "" || !IsDigit(s[|s| - 1]) then None
    else
      var last := s[|s| - 1] as int - '0' as int;
      if |s| == 1 then Some(last)
      else
        match Number(s[..|s| - 1])
        case None => None
        case Some(n) => Some(10 * n + last)
  }

  /** `str::parse::<i64>`: an optional sign, then digits, within range. */
  function ParseInt(s: string): (r: Option<i64>) {
    var negative := s != "" && s[0] == '-';
    var digits := if s != "" && (s[0] == '-' || s[0] == '+') then s[1..] else s;
    match Number(digits)
    case None => None
    case Some(n) =>
      if negative && n <= I64_LIMIT then Some(0 - n)
      else if !negative && n < I64_LIMIT then Some(n)
      else None
  }

  lemma {:induction false} NumberOfDecimal(n: nat)
    ensures Number(Decimal(n)) == Some(n)
    decreases n
  {
    if n >= 10 {
      NumberOfDecimal(n / 10);
      assert Decimal(n)[..|Decimal(n)| - 1] == Decimal(n / 10);
    }
  }

  lemma {:induction false} DecimalIsDigits(n: nat)
    ensures Decimal(n) != "" && forall i :: 0 <= i < |Decimal(n)| ==> IsDigit(Decimal(n)[i])
    decreases n
  {
    if n >= 10 {
      DecimalIsDigits(n / 10);
    }
  }

  /** Parsing a printed number gives the number back. */
  lemma ParseOfIntText(v: i64)
    ensures ParseInt(IntText(v)) == Some(v)
  {
    hide Decimal, Number;
    NumberOfDecimal(Magnitude(v));
    DecimalIsDigits(Magnitude(v));
    if v < 0 {
      assert IntText(v)[1..] == Decimal(Magnitude(v));
    } else {
      assert IntText(v) == Decimal(Magnitude(v));
    }
  }

  // ---------- scalars ----------

  function Show(s: Scalar): (r: string) {
    match s
    case Int(v) => IntText(v)
    case Truth(b) => if b then "true" else "false"
  }

  /** `parse_value` for `Int64` and `Bool`. */
  function Parse(text: string, dataType: DataType): (r: Option<Scalar>) {
    match dataType
    case Int64 => (match ParseInt(text) case Some(v) => Some(Int(v)) case None => None)
    case Bool => if text == "true" then Some(Truth(true)) else if text == "false" then Some(Truth(false)) else None
    case _ => None
  }

  function Kind(s: Scalar): (r: DataType) {
    if s.Int? then Int64 else Bool
  }

  predicate Harmless(c: char) {
    IsDigit(c) || c == '-' || c in "truefals"
  }

  lemma ShowIsHarmless(s: Scalar)
    ensures Show(s) != "" && forall i :: 0 <= i < |Show(s)| ==> Harmless(Show(s)[i])
  {
    if s.Int? {
      DecimalIsDigits(Magnitude(s.value));
    }
  }

  lemma {:induction false} HarmlessText(s: string)
    requires forall i :: 0 <= i < |s| ==> Harmless(s[i])
    ensures CsvGrammar.PairedReturns(s) && Tsv.NoSeparator(s) && Tsv.NoBackslash(s)
    decreases |s|
  {
    if s != "" {
      HarmlessText(s[1..]);
    }
  }

  lemma ParseOfShow(s: Scalar)
    ensures Parse(Show(s), Kind(s)) == Some(s)
  {
    if s.Int? {
      ParseOfIntText(s.value);
    }
  }

  /** The printed scalars meet what the CSV laws assume. */
  lemma PrintingIsFaithful()
    ensures CsvRoundTrip.Faithful(Parse, Show)
  {
    forall text, dataType | Parse(text, dataType).Some?
      ensures var n := Parse(text, dataType).value;
        Parse(Show(n), dataType) == Some(n) && CsvGrammar.PairedReturns(Show(n)) && Show(n) != "NULL"
    {
      var n := Parse(text, dataType).value;
      ParseOfShow(n);
      ShowIsHarmless(n);
      HarmlessText(Show(n));
      assert Harmless(Show(n)[0]) && !Harmless("NULL"[0]);
    }
  }

  /** The printed scalars meet what the TSV law assumes. */
  lemma PrintingDistinguishes()
    ensures Tsv.Distinguishing(Kind, Show)
  {
    forall n: Scalar
      ensures Tsv.NoSeparator(Show(n)) && Tsv.NoBackslash(Show(n))
    {
      ShowIsHarmless(n);
      HarmlessText(Show(n));
    }
    forall n: Scalar, m: Scalar | Kind(n) == Kind(m) && Show(n) == Show(m)
      ensures n == m
    {
      ParseOfShow(n);
      ParseOfShow(m);
    }
  }

  /** For columns of text, `Int64` and `Bool`: parsing, writing and parsing again is parsing. */
  lemma ParseWriteParse(columns: seq<CsvIngest.Column>, limits: CsvIngest.Limits, input: string, firstLine: nat,
                        rows: seq<seq<Value<Scalar>>>)
    requires CsvRoundTrip.Physical(columns)
    requires CsvIngest.Ingest(Parse, columns, limits, input, 0, firstLine, 0, 0) == Ok(rows)
    ensures CsvIngest.Ingest(Parse, columns, limits, CsvWriter.Written(Show, rows), 0, firstLine, 0, 0) == Ok(rows)
  {
    PrintingIsFaithful();
    CsvRoundTrip.ParseWriteParse(Parse, Show, columns, limits, input, firstLine, rows);
  }

  /** For columns of text, `Int64` and `Bool`: equal TSV output means equal rows. */
  lemma UniquelyDecodable(columns: seq<DataType>, a: seq<seq<Value<Scalar>>>, b: seq<seq<Value<Scalar>>>)
    requires Tsv.TypedRows(Kind, columns, a) && Tsv.TypedRows(Kind, columns, b)
    requires Tsv.RowsText(Show, a) == Tsv.RowsText(Show, b)
    ensures a == b
  {
    PrintingDistinguishes();
    Tsv.UniquelyDecodable(Kind, Show, columns, a, b);
  }

  /** The printed scalars are bare words of JSON and hold no escape of TSV. */
  lemma PrintingIsBare()
    ensures JsonReading.PrintsBare(Show) && TsvReading.PrintsPlain(Show)
  {
    forall n: Scalar
      ensures JsonReading.IsBare(Show(n)) && Show(n) != "null" && Show(n) != "" && Show(n)[0] != '"'
      ensures Tsv.NoSeparator(Show(n)) && Tsv.NoBackslash(Show(n))
    {
      ShowIsHarmless(n);
      HarmlessText(Show(n));
      HarmlessIsBare(Show(n));
      assert Harmless(Show(n)[0]) && !Harmless("null"[0]);
    }
  }

  lemma {:induction false} HarmlessIsBare(s: string)
    requires forall i :: 0 <= i < |s| ==> Harmless(s[i])
    ensures JsonReading.IsBare(s)
    decreases |s|
  {
    if s != "" {
      HarmlessIsBare(s[1..]);
    }
  }

  /** Numbers written out, with every digit. */
  lemma NumbersWrittenOut()
    ensures IntText(0) == "0" && IntText(-305) == "-305" && IntText(9876421) == "9876421"
  {
    DecimalNext(30, "3", '0');
    DecimalNext(305, "30", '5');
    DecimalNext(98, "9", '8');
    DecimalNext(987, "98", '7');
    DecimalNext(9876, "987", '6');
    DecimalNext(98764, "9876", '4');
    DecimalNext(987642, "98764", '2');
    DecimalNext(9876421, "987642", '1');
    assert Decimal(0) == "0" && Decimal(3) == "3" && Decimal(9) == "9";
  }
}
