/** The field scanner inverts the joining of fields. */
module CsvScanning {
  import opened Words
  import opened CsvGrammar
  import opened CsvReader

  lemma {:induction false} ClosingQuoteFound(record: string, cursor: nat, raw: string)
    requires HoldsAt(record, cursor, raw) && PairedQuotes(raw)
    requires var close := cursor + |raw|;
      && close < |record| && record[close] == '"' && (close + 1 < |record| ==> record[close + 1] != '"')
    ensures ClosingQuote(record, cursor) == Some(cursor + |raw|)
    decreases |raw|
  {
    if raw != "" {
      if raw[0] == '"' {
        assert raw[1..][0] == '"' && raw[1..][1..] == raw[2..];
        ClosingQuoteFound(record, cursor + 2, raw[2..]);
      } else {
        ClosingQuoteFound(record, cursor + 1, raw[1..]);
      }
    }
  }

  lemma {:induction false} ClosingQuoteMeans(record: string, cursor: nat)
    requires ClosingQuote(record, cursor).Some?
    ensures var close := ClosingQuote(record, cursor).value;
      && PairedQuotes(record[cursor..close]) && (close + 1 < |record| ==> record[close + 1] != '"')
    decreases |record| - cursor
  {
    var close := ClosingQuote(record, cursor).value;
    if record[cursor] != '"' {
      ClosingQuoteMeans(record, cursor + 1);
      assert record[cursor..close][1..] == record[cursor + 1..close];
    } else if cursor + 1 < |record| && record[cursor + 1] == '"' {
      ClosingQuoteMeans(record, cursor + 2);
      assert record[cursor..close][2..] == record[cursor + 2..close];
    }
  }

  lemma {:induction false} FieldEndFound(record: string, cursor: nat, raw: string)
    requires HoldsAt(record, cursor, raw) && Without(raw, ",\"")
    requires var end := cursor + |raw|; end == |record| || (end < |record| && record[end] == ',')
    ensures FieldEnd(record, cursor) == cursor + |raw|
    decreases |raw|
  {
    if raw != "" {
      FieldEndFound(record, cursor + 1, raw[1..]);
    }
  }

  lemma {:induction false} WithoutMeans(s: string, banned: string)
    ensures Without(s, banned) <==> forall c :: c in banned ==> c !in s
  {
    if s != "" {
      WithoutMeans(s[1..], banned);
      assert s == [s[0]] + s[1..];
    }
  }

  lemma {:induction false} FieldEndMeans(record: string, cursor: nat)
    requires cursor <= |record|
    ensures ',' !in record[cursor..FieldEnd(record, cursor)]
    decreases |record| - cursor
  {
    var end := FieldEnd(record, cursor);
    if cursor < end {
      FieldEndMeans(record, cursor + 1);
      assert record[cursor..end] == [record[cursor]] + record[cursor + 1..end];
    }
  }

  /** A quoted field lies at `start` up to the end of its closing quote, exactly when the scanner says so. */
  lemma QuotedAt(record: string, start: nat, raw: string)
    ensures HoldsAt(record, start, QUOTE + raw + QUOTE)
       <==> (start + |raw| + 2 <= |record| && record[start] == '"'
             && HoldsAt(record, start + 1, raw) && record[start + 1 + |raw|] == '"')
  {
    HoldsAtConcat(record, start, QUOTE + raw, QUOTE);
    HoldsAtConcat(record, start, QUOTE, raw);
  }

  /** A field that ends at a comma or at the end of the record is taken as it is. */
  lemma FieldIsTaken(record: string, start: nat, field: Field, column: nat, line: nat)
    requires Scannable(field) && HoldsAt(record, start, FieldText(field))
    requires var end := start + |FieldText(field)|; end == |record| || (end < |record| && record[end] == ',')
    ensures start <= |record| && FieldAt(record, start, column, line) == Ok((field, start + |FieldText(field)|))
  {
    if field.quoted {
      QuotedAt(record, start, field.raw);
      ClosingQuoteFound(record, start + 1, field.raw);
      HoldsAtSlice(record, start + 1, field.raw);
    } else {
      WithoutMeans(field.raw, ",\"");
      FieldEndFound(record, start, field.raw);
      HoldsAtSlice(record, start, field.raw);
    }
  }

  lemma TakenIsField(record: string, start: nat, column: nat, line: nat, field: Field, end: nat)
    requires start <= |record| && FieldAt(record, start, column, line) == Ok((field, end))
    ensures Scannable(field) && HoldsAt(record, start, FieldText(field)) && end == start + |FieldText(field)|
  {
    if field.quoted {
      ClosingQuoteMeans(record, start + 1);
      HoldsAtSlice(record, start + 1, field.raw);
      QuotedAt(record, start, field.raw);
    } else {
      FieldEndMeans(record, start);
      WithoutMeans(field.raw, ",\"");
      HoldsAtSlice(record, start, field.raw);
    }
  }

  lemma JoinedParts(record: string, start: nat, fields: seq<Field>)
    requires |fields| > 1
    ensures HoldsAt(record, start, Joined(fields))
       <==> (var end := start + |FieldText(fields[0])|;
             HoldsAt(record, start, FieldText(fields[0])) && end < |record| && record[end] == ','
             && HoldsAt(record, end + 1, Joined(fields[1..])))
  {
    HoldsAtConcat(record, start, FieldText(fields[0]) + COMMA, Joined(fields[1..]));
    HoldsAtConcat(record, start, FieldText(fields[0]), COMMA);
  }

  /** Scannable fields lie from `start` to the end of the record, with commas between them. */
  predicate FieldsAt(record: string, start: nat, fields: seq<Field>)
    decreases |fields|, record
  {
    && fields != [] && Scannable(fields[0]) && HoldsAt(record, start, FieldText(fields[0]))
    && var end := start + |FieldText(fields[0])|;
    && if |fields| == 1 then end == |record|
       else end < |record| && record[end] == ',' && FieldsAt(record, end + 1, fields[1..])
  }

  lemma {:induction false} FieldsAtMeans(record: string, start: nat, fields: seq<Field>)
    ensures FieldsAt(record, start, fields)
       <==> (fields != [] && AllScannable(fields)
             && HoldsAt(record, start, Joined(fields)) && start + |Joined(fields)| == |record|)
    decreases |fields|
  {
    if |fields| > 1 {
      FieldsAtMeans(record, start + |FieldText(fields[0])| + 1, fields[1..]);
      JoinedParts(record, start, fields);
    } else if |fields| == 1 {
      assert AllScannable(fields[1..]);
    }
  }

  lemma {:induction false} FieldsAreScanned(record: string, start: nat, fields: seq<Field>, column: nat, line: nat)
    requires FieldsAt(record, start, fields)
    ensures start <= |record| && ScanFields(record, start, column, line) == Ok(fields)
    decreases |fields|
  {
    hide FieldAt, HoldsAt, FieldText, Scannable;
    var end := start + |FieldText(fields[0])|;
    FieldIsTaken(record, start, fields[0], column, line);
    if |fields| == 1 {
      assert fields == [fields[0]];
    } else {
      FieldsAreScanned(record, end + 1, fields[1..], SaturatingAdd(column, 1), line);
      assert fields == [fields[0]] + fields[1..];
    }
  }

  lemma {:induction false} ScannedAreFields(record: string, start: nat, column: nat, line: nat, fields: seq<Field>)
    requires start <= |record| && ScanFields(record, start, column, line) == Ok(fields)
    ensures FieldsAt(record, start, fields)
    decreases |record| - start
  {
    hide FieldAt, HoldsAt, FieldText, Scannable;
    var (field, end) := FieldAt(record, start, column, line).value;
    TakenIsField(record, start, column, line, field, end);
    if end < |record| {
      var rest := ScanFields(record, end + 1, SaturatingAdd(column, 1), line).value;
      ScannedAreFields(record, end + 1, SaturatingAdd(column, 1), line, rest);
      ConsParts(field, rest);
    }
  }

  /** The scanner returns given fields exactly for the record that joins them. */
  lemma ScanInvertsJoined(record: string, fields: seq<Field>, line: nat)
    ensures ScanFields(record, 0, 1, line) == Ok(fields)
       <==> fields != [] && AllScannable(fields) && record == Joined(fields)
  {
    FieldsAtMeans(record, 0, fields);
    HoldsAtWhole(record, Joined(fields));
    if ScanFields(record, 0, 1, line) == Ok(fields) {
      ScannedAreFields(record, 0, 1, line, fields);
    }
    if FieldsAt(record, 0, fields) {
      FieldsAreScanned(record, 0, fields, 1, line);
    }
  }
}
