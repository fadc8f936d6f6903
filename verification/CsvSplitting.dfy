/** The splitter and the scanner agree on quote state, so both stages together read exactly
    the texts of the grammar. */
module CsvSplitting {
  import opened Words
  import opened CsvGrammar
  import opened CsvReader
  import opened CsvScanning

  /** The line number after `s`. */
  function LineAfter(s: string, line: nat): (r: nat) {
    if s == "" then line else LineAfter(s[1..], if s[0] == '\n' then SaturatingAdd(line, 1) else line)
  }

  /** The split fails or ends before `stop`. */
  predicate StopsShort(split: Result<Cut, CsvError>, stop: nat) {
    split.Err? || split.value.end < stop
  }

  lemma {:induction false} SplitBare(input: string, cursor: nat, raw: string, line: nat, atFieldStart: bool)
    requires HoldsAt(input, cursor, raw) && Without(raw, ",\"")
    ensures cursor + |raw| <= |input|
    ensures Without(raw, "\r\n")
        ==> Split(input, cursor, line, atFieldStart, false)
            == Split(input, cursor + |raw|, line, atFieldStart && raw == "", false)
    ensures !Without(raw, "\r\n") ==> StopsShort(Split(input, cursor, line, atFieldStart, false), cursor + |raw|)
    decreases |raw|
  {
    if raw != "" && raw[0] != '\r' && raw[0] != '\n' {
      SplitBare(input, cursor + 1, raw[1..], line, false);
    }
  }

  lemma FirstTwo(s: string, line: nat)
    requires |s| > 1
    ensures PairedReturns(s) <==> (s[0] == '\r' ==> s[1] == '\n') && PairedReturns(s[1..])
    ensures PairedReturns(s[1..])
       <==> (s[1] == '\r' ==> |s| > 2 && s[2] == '\n') && PairedReturns(s[2..])
    ensures s[1] != '\n' ==> LineAfter(s[1..], line) == LineAfter(s[2..], line)
    ensures s[1] == '\n' ==> LineAfter(s[1..], line) == LineAfter(s[2..], SaturatingAdd(line, 1))
  {
    assert s[1..][1..] == s[2..];
  }

  lemma {:induction false} SplitQuoted(input: string, cursor: nat, raw: string, line: nat)
    requires HoldsAt(input, cursor, raw) && PairedQuotes(raw)
    requires cursor + |raw| < |input| && input[cursor + |raw|] == '"'
    ensures PairedReturns(raw)
        ==> Split(input, cursor, line, false, true)
            == Split(input, cursor + |raw|, LineAfter(raw, line), false, true)
    ensures !PairedReturns(raw) ==> Split(input, cursor, line, false, true).Err?
    decreases |raw|
  {
    if raw != "" {
      if raw[0] == '"' {
        FirstTwo(raw, line);
        SplitQuoted(input, cursor + 2, raw[2..], line);
      } else if raw[0] == '\n' {
        SplitQuoted(input, cursor + 1, raw[1..], SaturatingAdd(line, 1));
      } else if raw[0] == '\r' {
        if |raw| > 1 {
          FirstTwo(raw, line);
          assert raw[1..][0] == raw[1] == input[cursor + 1] && raw[1..][1..] == raw[2..];
          if raw[1] == '\n' {
            SplitQuoted(input, cursor + 2, raw[2..], SaturatingAdd(line, 1));
          }
        }
      } else {
        SplitQuoted(input, cursor + 1, raw[1..], line);
      }
    }
  }

  /** Whether the field may be passed: no bare line break, no lone carriage return. */
  lemma SplitField(input: string, cursor: nat, field: Field, line: nat, stop: nat)
    requires HoldsAt(input, cursor, FieldText(field)) && Scannable(field)
    requires stop == cursor + |FieldText(field)|
    requires stop == |input| || (stop < |input| && (input[stop] == ',' || input[stop] == '\r' || input[stop] == '\n'))
    ensures stop <= |input|
    ensures Unbroken(field)
        ==> Split(input, cursor, line, true, false) == Split(input, stop, LineAfter(field.raw, line), true, false)
    ensures !Unbroken(field) ==> StopsShort(Split(input, cursor, line, true, false), stop)
  {
    if field.quoted {
      QuotedAt(input, cursor, field.raw);
      SplitQuoted(input, cursor + 1, field.raw, line);
    } else {
      SplitBare(input, cursor, field.raw, line, true);
      if Unbroken(field) {
        SameLine(field.raw, line);
      }
    }
  }

  lemma {:induction false} SameLine(s: string, line: nat)
    requires Without(s, "\r\n")
    ensures LineAfter(s, line) == line
  {
    if s != "" {
      SameLine(s[1..], line);
    }
  }

  /** The line number after a record. */
  function LineAfterFields(fields: seq<Field>, line: nat): (r: nat) {
    if fields == [] then line else LineAfterFields(fields[1..], LineAfter(fields[0].raw, line))
  }

  lemma {:induction false} SplitFields(input: string, cursor: nat, fields: seq<Field>, line: nat, stop: nat)
    requires fields != [] && AllScannable(fields)
    requires HoldsAt(input, cursor, Joined(fields)) && stop == cursor + |Joined(fields)|
    requires stop == |input| || (stop < |input| && (input[stop] == '\r' || input[stop] == '\n'))
    ensures stop <= |input|
    ensures AllUnbroken(fields)
        ==> Split(input, cursor, line, true, false)
            == Split(input, stop, LineAfterFields(fields, line), true, false)
    ensures !AllUnbroken(fields) ==> StopsShort(Split(input, cursor, line, true, false), stop)
    decreases |fields|
  {
    var end := cursor + |FieldText(fields[0])|;
    if |fields| == 1 {
      assert AllUnbroken(fields[1..]);
      SplitField(input, cursor, fields[0], line, end);
    } else {
      JoinedParts(input, cursor, fields);
      SplitField(input, cursor, fields[0], line, end);
      SplitFields(input, end + 1, fields[1..], LineAfter(fields[0].raw, line), stop);
    }
  }

  function LineText(line: Line<seq<Field>>): (r: string) {
    Joined(line.fields) + EndingText(line.ending)
  }

  predicate EndingHolds(input: string, stop: nat, ending: Ending) {
    match ending
    case Lf => stop < |input| && input[stop] == '\n'
    case CrLf => stop + 1 < |input| && input[stop] == '\r' && input[stop + 1] == '\n'
    case EndOfInput => stop <= |input|
  }

  lemma EndingHoldsMeans(input: string, stop: nat, ending: Ending)
    ensures HoldsAt(input, stop, EndingText(ending)) <==> EndingHolds(input, stop, ending)
  {
    if ending.CrLf? {
      assert "\r\n" == "\r" + "\n";
      HoldsAtConcat(input, stop, "\r", "\n");
    }
  }

  function EndingLen(ending: Ending): (r: nat)
    ensures r == |EndingText(ending)|
  {
    match ending
    case Lf => 1
    case CrLf => 2
    case EndOfInput => 0
  }

  function LineLen(line: Line<seq<Field>>): (r: nat)
    ensures r == |LineText(line)|
  {
    |Joined(line.fields)| + EndingLen(line.ending)
  }

  /** A line lies at `offset`, and the input runs out where the line says so. */
  predicate LineAt(input: string, offset: nat, line: Line<seq<Field>>) {
    var stop := offset + |Joined(line.fields)|;
    && HoldsAt(input, offset, Joined(line.fields)) && EndingHolds(input, stop, line.ending)
    && (line.ending.EndOfInput? ==> stop == |input|)
  }

  lemma LineIsRead(input: string, offset: nat, line: Line<seq<Field>>, number: nat) returns (cut: Cut)
    requires LineAt(input, offset, line) && WellFormedRecord(line.fields)
    ensures offset <= |input| && cut.next == offset + LineLen(line)
    ensures ReadLine(input, offset, number) == Ok((line, cut))
  {
    hide HoldsAt, ScanFields, EndingText;
    var stop := offset + |Joined(line.fields)|;
    SplitFields(input, offset, line.fields, number, stop);
    HoldsAtSlice(input, offset, Joined(line.fields));
    ScanInvertsJoined(input[offset..stop], line.fields, number);
    cut := Split(input, offset, number, true, false).value;
  }

  lemma RecordHolds(input: string, offset: nat, end: nat, fields: seq<Field>, number: nat)
    requires offset <= end <= |input| && ScanFields(input[offset..end], 0, 1, number) == Ok(fields)
    ensures fields != [] && AllScannable(fields)
    ensures HoldsAt(input, offset, Joined(fields)) && end == offset + |Joined(fields)|
  {
    ScanInvertsJoined(input[offset..end], fields, number);
    HoldsAtSlice(input, offset, Joined(fields));
  }

  lemma UnbrokenRecord(input: string, offset: nat, cut: Cut, fields: seq<Field>, number: nat)
    requires offset <= |input| && Split(input, offset, number, true, false) == Ok(cut)
    requires fields != [] && AllScannable(fields)
    requires HoldsAt(input, offset, Joined(fields)) && cut.end == offset + |Joined(fields)|
    ensures AllUnbroken(fields)
  {
    SplitFields(input, offset, fields, number, cut.end);
  }

  lemma ReadIsLine(input: string, offset: nat, line: Line<seq<Field>>, cut: Cut, number: nat)
    requires offset <= |input| && ReadLine(input, offset, number) == Ok((line, cut))
    ensures WellFormedRecord(line.fields) && LineAt(input, offset, line) && cut.next == offset + LineLen(line)
  {
    hide HoldsAt, Joined, Split, ScanFields, AllScannable, AllUnbroken;
    RecordHolds(input, offset, cut.end, line.fields, number);
    UnbrokenRecord(input, offset, cut, line.fields, number);
  }

  /** Well-formed lines lie one after the other from `offset` to the end of the input. */
  predicate LinesAt(input: string, offset: nat, lines: seq<Line<seq<Field>>>)
    decreases |lines|, input
  {
    if lines == [] then offset == |input|
    else
      && offset < |input| && WellFormedRecord(lines[0].fields) && LineAt(input, offset, lines[0])
      && LinesAt(input, offset + LineLen(lines[0]), lines[1..])
  }

  lemma LineThenRest(input: string, offset: nat, line: Line<seq<Field>>, rest: string)
    ensures HoldsAt(input, offset, LineText(line) + rest)
       <==> (HoldsAt(input, offset, Joined(line.fields))
             && EndingHolds(input, offset + |Joined(line.fields)|, line.ending)
             && HoldsAt(input, offset + LineLen(line), rest))
  {
    HoldsAtConcat(input, offset, LineText(line), rest);
    HoldsAtConcat(input, offset, Joined(line.fields), EndingText(line.ending));
    EndingHoldsMeans(input, offset + |Joined(line.fields)|, line.ending);
  }

  lemma {:induction false} LinesAtMeans(input: string, offset: nat, lines: seq<Line<seq<Field>>>)
    ensures LinesAt(input, offset, lines)
       <==> (WellFormed(lines) && HoldsAt(input, offset, DocumentText(lines))
             && offset + |DocumentText(lines)| == |input|)
    decreases |lines|
  {
    if lines != [] {
      var rest := DocumentText(lines[1..]);
      LinesAtMeans(input, offset + LineLen(lines[0]), lines[1..]);
      LineThenRest(input, offset, lines[0], rest);
    }
  }

  lemma FirstIsRead(input: string, offset: nat, lines: seq<Line<seq<Field>>>, number: nat) returns (cut: Cut)
    requires LinesAt(input, offset, lines) && lines != []
    ensures offset < |input| && ReadLine(input, offset, number) == Ok((lines[0], cut))
    ensures LinesAt(input, cut.next, lines[1..])
  {
    cut := LineIsRead(input, offset, lines[0], number);
  }

  lemma {:induction false} LinesAreRead(input: string, offset: nat, lines: seq<Line<seq<Field>>>, number: nat)
    requires LinesAt(input, offset, lines)
    ensures offset <= |input| && ReadLines(input, offset, number) == Ok(lines)
    decreases |lines|
  {
    if lines != [] {
      var cut := FirstIsRead(input, offset, lines, number);
      var line, rest := lines[0], lines[1..];
      LinesAreRead(input, cut.next, rest, cut.line);
      FirstAndRest(lines);
    }
  }

  lemma {:induction false} ReadAreLines(input: string, offset: nat, lines: seq<Line<seq<Field>>>, number: nat)
    requires offset <= |input| && ReadLines(input, offset, number) == Ok(lines)
    ensures LinesAt(input, offset, lines)
    decreases |input| - offset
  {
    hide ReadLine, LineAt, LineLen, WellFormedRecord;
    if offset < |input| {
      var (line, cut) := ReadLine(input, offset, number).value;
      var rest := ReadLines(input, cut.next, cut.line).value;
      ReadIsLine(input, offset, line, cut, number);
      ReadAreLines(input, cut.next, rest, cut.line);
      ConsParts(line, rest);
    }
  }

  /** Both stages together return given lines exactly for the text of those lines, and only
      lines of the grammar: in them no bare field holds a comma, a quote or a line break, quoted
      text holds quotes only in pairs, and every carriage return is followed by a line feed. */
  lemma ReadInvertsText(input: string, lines: seq<Line<seq<Field>>>, number: nat)
    ensures ReadLines(input, 0, number) == Ok(lines) <==> WellFormed(lines) && input == DocumentText(lines)
  {
    LinesAtMeans(input, 0, lines);
    HoldsAtWhole(input, DocumentText(lines));
    if ReadLines(input, 0, number) == Ok(lines) {
      ReadAreLines(input, 0, lines, number);
    }
    if LinesAt(input, 0, lines) {
      LinesAreRead(input, 0, lines, number);
    }
  }
}
