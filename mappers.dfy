/** The row-at-a-time plug-ins of the Map operation. A mapper turns one row into the rows it
    yields; a failure stands for the exception the generator raises. */
module Mappers {
  import opened Rows

  /** DummyMapper: yields exactly the row it is given. */
  function DummyMapper(row: Row): Result<seq<Row>> {
    Ok([row])
  }

  /** Filter: yields the row when the condition holds, nothing otherwise. */
  function Filter(condition: Row -> bool, row: Row): Result<seq<Row>> {
    if condition(row) then Ok([row]) else Ok([])
  }

  /** Project: one row holding exactly the listed columns with the input's values; the first
      listed column the row lacks raises KeyError. */
  function Project(columns: seq<string>, row: Row): (r: Result<seq<Row>>)
    ensures r.Ok? <==> HasKeys(row, columns)
    ensures r.Ok? ==> |r.value| == 1 && r.value[0].Keys == (set c | c in columns)
    ensures r.Ok? ==> forall c :: c in columns ==> r.value[0][c] == row[c]
    ensures r.Err? ==> r.error.MissingColumn? && r.error.column in columns && r.error.column !in row
  {
    match Select(row, columns)
    case Err(e) => Err(e)
    case Ok(p) => Ok([p])
  }

  /** The running product of Product's loop after the listed columns, left to right: the
      first missing column raises KeyError, the first non-integer one a TypeError. */
  function Multiplied(columns: seq<string>, row: Row): (r: Result<int>)
    ensures r.Ok? <==> IntColumns(row, columns)
    ensures r.Err? ==>
      || (r.error.MissingColumn? && r.error.column in columns && r.error.column !in row)
      || (r.error.NotAnInteger? && r.error.column in columns && r.error.column in row && !row[r.error.column].IntVal?)
    decreases |columns|
  {
    if columns == [] then Ok(1)
    else
      var init, c := columns[..|columns| - 1], columns[|columns| - 1];
      assert columns == init + [c];
      var p := Multiplied(init, row);
      if p.Err? then p
      else if c !in row then Err(MissingColumn(c))
      else if !row[c].IntVal? then Err(NotAnInteger(c))
      else Ok(p.value * row[c].i)
  }

  /** The product over a concatenation of column lists is the product of the two products:
      together with `Multiplied([c], row) == Ok(row[c].i)`, the product of all listed values. */
  lemma {:induction false} MultipliedAppend(a: seq<string>, b: seq<string>, row: Row)
    requires IntColumns(row, a + b)
    ensures Multiplied(a + b, row).value == Multiplied(a, row).value * Multiplied(b, row).value
    decreases |b|
  {
    if b == [] {
      assert a + b == a;
    } else {
      var init, c := b[..|b| - 1], b[|b| - 1];
      assert (a + b)[..|a + b| - 1] == a + init;
      assert IntColumns(row, a + init);
      MultipliedAppend(a, init, row);
      var x, y := Multiplied(a, row).value, Multiplied(init, row).value;
      assert Multiplied(a + b, row).value == (x * y) * row[c].i;
      assert Multiplied(b, row).value == y * row[c].i;
    }
  }

  /** Once the running product has failed, the loop never gets further. */
  lemma {:induction false} MultipliedStopsAtError(columns: seq<string>, k: nat, row: Row)
    requires k <= |columns| && Multiplied(columns[..k], row).Err?
    ensures Multiplied(columns, row) == Multiplied(columns[..k], row)
    decreases |columns| - k
  {
    if k < |columns| {
      var next := columns[..k + 1];
      assert next[..|next| - 1] == columns[..k];
      MultipliedStopsAtError(columns, k + 1, row);
    } else {
      assert columns[..k] == columns;
    }
  }

  /** Product's output: the row with the product of the listed columns written into
      `resultColumn`. */
  function ProductRow(columns: seq<string>, resultColumn: string, row: Row): Result<seq<Row>> {
    match Multiplied(columns, row)
    case Err(e) => Err(e)
    case Ok(p) => Ok([row[resultColumn := IntVal(p)]])
  }

  /** Product's loop: multiply the listed columns into a running result, then store it. */
  method Product(columns: seq<string>, resultColumn: string, row: Row) returns (r: Result<seq<Row>>)
    ensures r == ProductRow(columns, resultColumn, row)
  {
    var res := 1;
    var i := 0;
    while i < |columns|
      invariant 0 <= i <= |columns|
      invariant Multiplied(columns[..i], row) == Ok(res)
    {
      var col := columns[i];
      var prefix := columns[..i + 1];
      assert prefix[..|prefix| - 1] == columns[..i] && prefix[|prefix| - 1] == col;
      if col !in row {
        MultipliedStopsAtError(columns, i + 1, row);
        return Err(MissingColumn(col));
      }
      if !row[col].IntVal? {
        MultipliedStopsAtError(columns, i + 1, row);
        return Err(NotAnInteger(col));
      }
      res := res * row[col].i;
      i := i + 1;
    }
    assert columns[..i] == columns;
    r := Ok([row[resultColumn := IntVal(res)]]);
  }
}
