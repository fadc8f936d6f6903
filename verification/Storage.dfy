/** The bounded one-column table of `src/storage.rs`. */
module Storage {
  import opened Words
  import opened RowSection

  /** A column name is held as its UTF-8 bytes. */
  datatype Schema = Schema(name: seq<byte>, nullable: bool)

  /** Everything observable about a table. */
  datatype TableView<+Rows> = TableView(schema: Schema, rowCap: usize, rows: Rows)

  type Contents = TableView<seq<Row>>

  datatype InsertError =
    | NullNotAllowed(column: seq<byte>)
    | RowCapExceeded(rowCap: nat, currentRows: nat, incomingRows: nat)

  /** Why a batch is refused: the row cap is checked before nullability. */
  function AppendError(table: Contents, values: seq<Row>): (r: Option<InsertError>)
  {
    if |table.rows| + |values| > table.rowCap then
      Some(RowCapExceeded(table.rowCap, |table.rows|, |values|))
    else if !table.schema.nullable && !AllPresent(values) then
      Some(NullNotAllowed(table.schema.name))
    else
      None
  }

  predicate Admissible(table: Contents) {
    |table.rows| <= table.rowCap && (table.schema.nullable || AllPresent(table.rows))
  }

  lemma {:induction false} AllPresentConcat(a: seq<Row>, b: seq<Row>)
    ensures AllPresent(a + b) <==> AllPresent(a) && AllPresent(b)
    decreases |a|
  {
    if a == [] {
      assert a + b == b;
    } else {
      assert (a + b)[1..] == a[1..] + b;
      AllPresentConcat(a[1..], b);
    }
  }

  class Int64Table {
    const schema: Schema
    const rowCap: usize
    var values: seq<Row>

    ghost predicate Valid()
      reads this
    {
      Admissible(View())
    }

    function View(): (r: Contents)
      reads this
    {
      TableView(schema, rowCap, values)
    }

    constructor (schema: Schema, rowCap: usize)
      ensures Valid()
      ensures View() == TableView(schema, rowCap, [])
    {
      this.schema, this.rowCap, this.values := schema, rowCap, [];
    }

    method Append(value: Row) returns (error: Option<InsertError>)
      requires Valid()
      modifies this`values
      ensures Valid()
      ensures error == AppendError(old(View()), [value])
      ensures values == if error.None? then old(values) + [value] else old(values)
    {
      error := AppendBatch([value]);
    }

    /** Atomic: a refused batch changes nothing, an accepted one is appended whole. */
    method AppendBatch(incoming: seq<Row>) returns (error: Option<InsertError>)
      requires Valid()
      modifies this`values
      ensures Valid()
      ensures error == AppendError(old(View()), incoming)
      ensures values == if error.None? then old(values) + incoming else old(values)
    {
      error := ValidateAppend(incoming);
      if error.None? {
        AllPresentConcat(values, incoming);
        values := values + incoming;
      }
    }

    method ValidateAppend(incoming: seq<Row>) returns (error: Option<InsertError>)
      requires Valid()
      ensures error == AppendError(View(), incoming)
    {
      if |incoming| > SaturatingSub(rowCap, |values|) {
        return Some(RowCapExceeded(rowCap, |values|, |incoming|));
      }
      if !schema.nullable {
        assert incoming[0..] == incoming;
        for i := 0 to |incoming|
          invariant AllPresent(incoming) == AllPresent(incoming[i..])
        {
          assert incoming[i..][1..] == incoming[i + 1..];
          if incoming[i].None? {
            return Some(NullNotAllowed(schema.name));
          }
        }
      }
      return None;
    }
  }

  lemma {:induction false} AllPresentMeans(rows: seq<Row>)
    ensures AllPresent(rows) <==> None !in rows
    decreases |rows|
  {
    if rows != [] {
      AllPresentMeans(rows[1..]);
      FirstAndRest(rows);
    }
  }

  /** A batch is refused exactly when it overfills the table or holds a `NULL` that the column does
      not take; a batch that does both is refused for its size. */
  lemma RefusalMeans(table: Contents, values: seq<Row>)
    ensures AppendError(table, values) == None <==>
      |table.rows| + |values| <= table.rowCap && (table.schema.nullable || None !in values)
    ensures |table.rows| + |values| > table.rowCap ==>
      AppendError(table, values) == Some(RowCapExceeded(table.rowCap, |table.rows|, |values|))
    ensures |table.rows| + |values| <= table.rowCap && AppendError(table, values) != None ==>
      AppendError(table, values) == Some(NullNotAllowed(table.schema.name))
  {
    AllPresentMeans(values);
  }
}
