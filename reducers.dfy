/** The group-at-a-time plug-ins of the Reduce operation. A reducer receives the key columns
    and the rows of one group and yields its output rows; a failure stands for the exception
    it raises. */
module Reducers {
  import opened Rows
  import opened Sorting

  /** The first missing key is the first key, in order, that the row lacks. */
  lemma {:induction false} FirstMissingAt(row: Row, keys: seq<string>, j: nat)
    requires j < |keys| && HasKeys(row, keys[..j]) && keys[j] !in row
    ensures !HasKeys(row, keys) && FirstMissing(row, keys) == keys[j]
  {
    assert keys[j] in keys;
    if j > 0 {
      assert keys[0] in keys[..j];
      assert keys[1..][..j - 1] == keys[1..j];
      assert forall k :: k in keys[1..j] ==> k in keys[..j];
      FirstMissingAt(row, keys[1..], j - 1);
    }
  }

  /** The loop `for key in group_key: result[key] = row_sample[key]` shared by the counting and
      summing reducers. */
  method CopyKeys(sample: Row, keys: seq<string>) returns (r: Result<Row>)
    ensures r == Select(sample, keys)
  {
    var result: Row := map[];
    var j := 0;
    while j < |keys|
      invariant 0 <= j <= |keys|
      invariant HasKeys(sample, keys[..j])
      invariant result == map k | k in keys[..j] :: sample[k]
    {
      var key := keys[j];
      if key !in sample {
        FirstMissingAt(sample, keys, j);
        return Err(MissingColumn(key));
      }
      assert keys[..j + 1] == keys[..j] + [key];
      result := result[key := sample[key]];
      j := j + 1;
    }
    assert keys[..j] == keys;
    r := Ok(result);
  }

  // ---------------------------------------------------------------------------
  // FirstReducer

  /** FirstReducer: the first row of the group; an empty group fails its assertion. */
  function First(keys: seq<string>, rows: seq<Row>): Result<seq<Row>> {
    if rows == [] then Err(EmptyGroup) else Ok([rows[0]])
  }

  /** FirstReducer's loop: remember the first row seen, then yield it. */
  method FirstReducer(keys: seq<string>, rows: seq<Row>) returns (r: Result<seq<Row>>)
    ensures r == First(keys, rows)
  {
    var firstRow: Option<Row> := None;
    var i := 0;
    while i < |rows|
      invariant 0 <= i <= |rows|
      invariant firstRow == if i == 0 then None else Some(rows[0])
    {
      if firstRow.None? {
        firstRow := Some(rows[i]);
      }
      i := i + 1;
    }
    if firstRow.None? {
      return Err(EmptyGroup);
    }
    r := Ok([firstRow.value]);
  }

  // ---------------------------------------------------------------------------
  // Count and SafeCount

  /** The row Count yields: the key columns of the group's first row and the group size. */
  function Counted(column: string, keys: seq<string>, rows: seq<Row>): (r: Result<seq<Row>>)
    ensures rows == [] ==> r == Err(EmptyGroup)
    ensures r.Ok? <==> rows != [] && HasKeys(rows[0], keys)
    ensures r.Ok? ==> |r.value| == 1 && r.value[0].Keys == (set k | k in keys) + {column}
    ensures r.Ok? ==> r.value[0][column] == IntVal(|rows|)
    ensures r.Ok? ==> forall k :: k in keys && k != column ==> r.value[0][k] == rows[0][k]
  {
    if rows == [] then Err(EmptyGroup)
    else
      match Select(rows[0], keys)
      case Err(e) => Err(e)
      case Ok(result) => Ok([result[column := IntVal(|rows|)]])
  }

  /** The counting loop of Count and SafeCount: the group's first row and its length. */
  method Scan(rows: seq<Row>) returns (sample: Option<Row>, length: nat)
    ensures sample == if rows == [] then None else Some(rows[0])
    ensures length == |rows|
  {
    sample := None;
    length := 0;
    var i := 0;
    while i < |rows|
      invariant 0 <= i <= |rows| && length == i
      invariant sample == if i == 0 then None else Some(rows[0])
    {
      if sample.None? {
        sample := Some(rows[i]);
      }
      length := length + 1;
      i := i + 1;
    }
  }

  /** Count's body: count the rows, copy the key columns, add the count. */
  method Count(column: string, keys: seq<string>, rows: seq<Row>) returns (r: Result<seq<Row>>)
    ensures r == Counted(column, keys, rows)
  {
    var sample, length := Scan(rows);
    if sample.None? {
      return Err(EmptyGroup);
    }
    var result := CopyKeys(sample.value, keys);
    if result.Err? {
      return Err(result.error);
    }
    r := Ok([result.value[column := IntVal(length)]]);
  }

  /** SafeCount: Count's row, yielded once per row of the group. */
  function SafeCounted(column: string, keys: seq<string>, rows: seq<Row>): (r: Result<seq<Row>>)
    ensures r.Ok? <==> Counted(column, keys, rows).Ok?
    ensures r.Err? ==> r == Counted(column, keys, rows)
    ensures r.Ok? ==> |r.value| == |rows| && forall i :: 0 <= i < |rows| ==> r.value[i] == Counted(column, keys, rows).value[0]
  {
    match Counted(column, keys, rows)
    case Err(e) => Err(e)
    case Ok(one) => Ok(seq(|rows|, _ => one[0]))
  }

  /** SafeCount's body: Count's loops, then one yield of the same row per counted row. */
  method SafeCount(column: string, keys: seq<string>, rows: seq<Row>) returns (r: Result<seq<Row>>)
    ensures r == SafeCounted(column, keys, rows)
  {
    var sample, length := Scan(rows);
    if sample.None? {
      return Err(EmptyGroup);
    }
    var result := CopyKeys(sample.value, keys);
    if result.Err? {
      return Err(result.error);
    }
    var row := result.value[column := IntVal(length)];
    var out: seq<Row> := [];
    var i := 0;
    while i < length
      invariant 0 <= i <= length && out == seq(i, _ => row)
    {
      out := out + [row];
      i := i + 1;
    }
    r := Ok(out);
  }

  // ---------------------------------------------------------------------------
  // Sum

  /** An integer column value, or 0 where the row has none. */
  function IntAt(row: Row, c: string): int {
    if c in row && row[c].IntVal? then row[c].i else 0
  }

  /** The total of column `c` over `rows`. */
  function ColumnSum(rows: seq<Row>, c: string): int
    decreases |rows|
  {
    if rows == [] then 0 else ColumnSum(rows[..|rows| - 1], c) + IntAt(rows[|rows| - 1], c)
  }

  /** The initial totals `s[col] = 0`. */
  function Zeros(columns: seq<string>): (s: map<string, int>)
    ensures s.Keys == (set c | c in columns)
    ensures forall c :: c in s ==> s[c] == 0
  {
    map c | c in columns :: 0
  }

  lemma Distribute(m: int, a: int, x: int)
    ensures m * (a + x) == m * a + m * x
    ensures (m + 1) * x == m * x + x
  {
  }

  /** One pass of `for col in self.columns: s[col] += row[col]`. A column listed twice is
      added twice. */
  function AddRow(s: map<string, int>, columns: seq<string>, row: Row): (r: Result<map<string, int>>)
    requires forall c :: c in columns ==> c in s
    ensures r.Ok? <==> IntColumns(row, columns)
    ensures r.Ok? ==> r.value.Keys == s.Keys
    decreases |columns|
  {
    if columns == [] then Ok(s)
    else
      var c := columns[0];
      if c !in row then Err(MissingColumn(c))
      else if !row[c].IntVal? then Err(NotAnInteger(c))
      else AddRow(s[c := s[c] + row[c].i], columns[1..], row)
  }

  /** After one pass every total has grown by the row's value times the number of times its
      column is listed. */
  lemma {:induction false} AddRowAdds(s: map<string, int>, columns: seq<string>, row: Row, d: string)
    requires forall c :: c in columns ==> c in s
    requires AddRow(s, columns, row).Ok? && d in s
    ensures AddRow(s, columns, row).value[d] == s[d] + multiset(columns)[d] * IntAt(row, d)
    decreases |columns|
  {
    if columns != [] {
      var c := columns[0];
      var s' := s[c := s[c] + row[c].i];
      AddRowAdds(s', columns[1..], row, d);
      assert columns == [c] + columns[1..];
      var m := multiset(columns[1..])[d];
      if d == c {
        assert multiset(columns)[d] == m + 1;
        Distribute(m, 0, IntAt(row, d));
      } else {
        assert multiset(columns)[d] == m;
      }
    }
  }

  /** The totals after the whole group: every row must hold every listed column as an
      integer, and the first row that does not raises. */
  function Totals(columns: seq<string>, rows: seq<Row>): (r: Result<map<string, int>>)
    ensures r.Ok? <==> forall i :: 0 <= i < |rows| ==> IntColumns(rows[i], columns)
    ensures r.Ok? ==> r.value.Keys == (set c | c in columns)
    decreases |rows|
  {
    if rows == [] then Ok(Zeros(columns))
    else
      var init := rows[..|rows| - 1];
      assert forall i :: 0 <= i < |init| ==> init[i] == rows[i];
      match Totals(columns, init)
      case Err(e) => Err(e)
      case Ok(s) => AddRow(s, columns, rows[|rows| - 1])
  }

  /** Each total is the column's sum over the group times the number of times the column is
      listed. */
  lemma {:induction false} TotalsSum(columns: seq<string>, rows: seq<Row>, c: string)
    requires Totals(columns, rows).Ok? && c in columns
    ensures Totals(columns, rows).value[c] == multiset(columns)[c] * ColumnSum(rows, c)
    decreases |rows|
  {
    if rows != [] {
      var init := rows[..|rows| - 1];
      TotalsSum(columns, init, c);
      AddRowAdds(Totals(columns, init).value, columns, rows[|rows| - 1], c);
      Distribute(multiset(columns)[c], ColumnSum(init, c), IntAt(rows[|rows| - 1], c));
    }
  }

  /** The row Sum yields: the key columns of the group's first row, then one total per listed
      column (a listed column overrides a key column of the same name). */
  function Summed(columns: seq<string>, keys: seq<string>, rows: seq<Row>): (r: Result<seq<Row>>)
    ensures r.Ok? <==> rows != [] && HasKeys(rows[0], keys) && forall i :: 0 <= i < |rows| ==> IntColumns(rows[i], columns)
    ensures r.Ok? ==> |r.value| == 1 && r.value[0].Keys == (set k | k in keys) + (set c | c in columns)
    ensures r.Ok? ==> forall c :: c in columns ==> r.value[0][c] == IntVal(multiset(columns)[c] * ColumnSum(rows, c))
    ensures r.Ok? ==> forall k :: k in keys && k !in columns ==> r.value[0][k] == rows[0][k]
  {
    match Totals(columns, rows)
    case Err(e) => Err(e)
    case Ok(s) =>
      if rows == [] then Err(EmptyGroup)
      else
        match Select(rows[0], keys)
        case Err(e) => Err(e)
        case Ok(result) =>
          forall c | c in columns ensures s[c] == multiset(columns)[c] * ColumnSum(rows, c) {
            TotalsSum(columns, rows, c);
          }
          Ok([result + map c | c in columns :: IntVal(s[c])])
  }

  /** The loop `for col in self.columns: s[col] = 0`. */
  method ZeroTotals(columns: seq<string>) returns (s: map<string, int>)
    ensures s == Zeros(columns)
  {
    s := map[];
    var k := 0;
    while k < |columns|
      invariant 0 <= k <= |columns| && s == Zeros(columns[..k])
    {
      assert columns[..k + 1] == columns[..k] + [columns[k]];
      s := s[columns[k] := 0];
      k := k + 1;
    }
    assert columns[..k] == columns;
  }

  /** The inner loop of Sum over the listed columns for one row. */
  method AddRowLoop(s0: map<string, int>, columns: seq<string>, row: Row) returns (r: Result<map<string, int>>)
    requires forall c :: c in columns ==> c in s0
    ensures r == AddRow(s0, columns, row)
  {
    var s := s0;
    var j := 0;
    while j < |columns|
      invariant 0 <= j <= |columns|
      invariant forall c :: c in columns ==> c in s
      invariant AddRow(s0, columns, row) == AddRow(s, columns[j..], row)
    {
      var col := columns[j];
      assert columns[j..][0] == col && columns[j..][1..] == columns[j + 1..];
      if col !in row {
        return Err(MissingColumn(col));
      }
      if !row[col].IntVal? {
        return Err(NotAnInteger(col));
      }
      ghost var before := s;
      s := s[col := s[col] + row[col].i];
      assert AddRow(before, columns[j..], row) == AddRow(s, columns[j + 1..], row);
      j := j + 1;
    }
    assert columns[j..] == [];
    r := Ok(s);
  }

  /** The loop `for col in self.columns: result[col] = s[col]`. */
  method WriteTotals(result: Row, columns: seq<string>, s: map<string, int>) returns (out: Row)
    requires forall c :: c in columns ==> c in s
    ensures out == result + map c | c in columns :: IntVal(s[c])
  {
    out := result;
    var k := 0;
    while k < |columns|
      invariant 0 <= k <= |columns|
      invariant out == result + map c | c in columns[..k] :: IntVal(s[c])
    {
      assert columns[..k + 1] == columns[..k] + [columns[k]];
      out := out[columns[k] := IntVal(s[columns[k]])];
      k := k + 1;
    }
    assert columns[..k] == columns;
  }

  /** Sum's body: zero the totals, add every row column by column, then build the row. */
  method Sum(columns: seq<string>, keys: seq<string>, rows: seq<Row>) returns (r: Result<seq<Row>>)
    ensures r == Summed(columns, keys, rows)
  {
    var s := ZeroTotals(columns);
    var sample: Option<Row> := None;
    var i := 0;
    while i < |rows|
      invariant 0 <= i <= |rows|
      invariant sample == if i == 0 then None else Some(rows[0])
      invariant Totals(columns, rows[..i]) == Ok(s)
    {
      if sample.None? {
        sample := Some(rows[i]);
      }
      TotalsStep(columns, rows, i, s);
      var next := AddRowLoop(s, columns, rows[i]);
      if next.Err? {
        TotalsStopAtError(columns, rows, i + 1);
        return Err(next.error);
      }
      s := next.value;
      i := i + 1;
    }
    assert rows[..i] == rows;
    r := EmitTotals(columns, keys, rows, s, sample);
  }

  /** The end of Sum's body: the row built from the first row's keys and the totals. */
  method EmitTotals(columns: seq<string>, keys: seq<string>, rows: seq<Row>, s: map<string, int>, sample: Option<Row>)
    returns (r: Result<seq<Row>>)
    requires Totals(columns, rows) == Ok(s)
    requires sample == if rows == [] then None else Some(rows[0])
    ensures r == Summed(columns, keys, rows)
  {
    if sample.None? {
      return Err(EmptyGroup);
    }
    var result := CopyKeys(sample.value, keys);
    if result.Err? {
      return Err(result.error);
    }
    var out := WriteTotals(result.value, columns, s);
    r := Ok([out]);
  }

  /** The totals of one more row: the previous totals with that row added. */
  lemma TotalsStep(columns: seq<string>, rows: seq<Row>, i: nat, s: map<string, int>)
    requires i < |rows| && Totals(columns, rows[..i]) == Ok(s)
    ensures forall c :: c in columns ==> c in s
    ensures Totals(columns, rows[..i + 1]) == AddRow(s, columns, rows[i])
  {
    assert rows[..i + 1][..i] == rows[..i];
  }

  /** Once a row has failed, the totals of every longer prefix fail the same way. */
  lemma {:induction false} TotalsStopAtError(columns: seq<string>, rows: seq<Row>, k: nat)
    requires k <= |rows| && Totals(columns, rows[..k]).Err?
    ensures Totals(columns, rows) == Totals(columns, rows[..k])
    decreases |rows| - k
  {
    if k < |rows| {
      var next := rows[..k + 1];
      assert next[..|next| - 1] == rows[..k];
      TotalsStopAtError(columns, rows, k + 1);
    } else {
      assert rows[..k] == rows;
    }
  }

  // ---------------------------------------------------------------------------
  // TopN

  function Min(a: int, b: int): int {
    if a < b then a else b
  }

  /** TopN: `heapq.nlargest(n, rows, key=itemgetter(column))`, which for n <= 0 yields nothing
      without reading a row, and otherwise equals a stable descending sort cut to n rows. */
  function TopN(column: string, n: int, rows: seq<Row>): (r: Result<seq<Row>>)
    ensures n <= 0 ==> r == Ok([])
    ensures n > 0 ==> (r.Ok? <==> AllHaveKeys(rows, [column]))
    ensures r.Err? ==> r.error == MissingColumn(column)
    ensures r.Ok? && n > 0 ==> |r.value| == Min(n, |rows|)
    ensures r.Ok? && n > 0 ==> forall s :: IsStableSortOf(s, rows, KeyFn([column]), true) ==> r.value <= s
  {
    if n <= 0 then Ok([])
    else if !AllHaveKeys(rows, [column]) then Err(MissingColumn(column))
    else
      var sorted := SortBy(rows, KeyFn([column]), true);
      assert |sorted| == |rows| by {
        assert |multiset(sorted)| == |multiset(rows)|;
      }
      forall s | IsStableSortOf(s, rows, KeyFn([column]), true) ensures s == sorted {
        StableSortUnique(s, sorted, rows, KeyFn([column]), true);
      }
      Ok(sorted[..Min(n, |rows|)])
  }
}
