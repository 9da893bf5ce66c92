/** The Map and Reduce operations: a stream of rows in, a stream of rows out. A failing
    plug-in call stands for the exception that ends the generator. */
module Operations {
  import opened Rows
  import opened Grouping
  import Mappers
  import Reducers

  /** A mapper: the rows it yields for one input row. */
  type Mapper = Row -> Result<seq<Row>>

  /** A reducer: the rows it yields for the key columns and the rows of one group. */
  type Reducer = (seq<string>, seq<Row>) -> Result<seq<Row>>

  // ---------------------------------------------------------------------------
  // Map

  /** Map: `yield from mapper(row)` for every row in order. */
  function Map(mapper: Mapper, rows: seq<Row>): (r: Result<seq<Row>>)
    ensures r.Ok? <==> forall i :: 0 <= i < |rows| ==> mapper(rows[i]).Ok?
    ensures rows == [] ==> r == Ok([])
    decreases |rows|
  {
    if rows == [] then Ok([])
    else
      var rest := Map(mapper, rows[1..]);
      assert forall i :: 1 <= i < |rows| ==> rows[i] == rows[1..][i - 1];
      Then(mapper(rows[0]), rest)
  }

  /** Mapping a concatenation maps each part and concatenates: Map works row by row. */
  lemma {:induction false} MapAppend(mapper: Mapper, a: seq<Row>, b: seq<Row>)
    ensures Map(mapper, a + b) == Then(Map(mapper, a), Map(mapper, b))
    decreases |a|
  {
    if a == [] {
      assert a + b == b;
      if Map(mapper, b).Ok? {
        assert [] + Map(mapper, b).value == Map(mapper, b).value;
      }
    } else {
      assert (a + b)[0] == a[0] && (a + b)[1..] == a[1..] + b;
      MapAppend(mapper, a[1..], b);
      ThenAssociative(mapper(a[0]), Map(mapper, a[1..]), Map(mapper, b));
    }
  }

  /** One row maps to exactly what the mapper yields for it. */
  lemma MapSingle(mapper: Mapper, row: Row)
    ensures Map(mapper, [row]) == mapper(row)
  {
    assert [row][1..] == [];
    if mapper(row).Ok? {
      assert mapper(row).value + [] == mapper(row).value;
    }
  }

  /** Mapping with DummyMapper gives the input back. */
  lemma {:induction false} MapDummyIdentity(rows: seq<Row>)
    ensures Map(Mappers.DummyMapper, rows) == Ok(rows)
    decreases |rows|
  {
    if rows != [] {
      MapDummyIdentity(rows[1..]);
      assert rows == [rows[0]] + rows[1..];
    }
  }

  /** The Filter mapper for a condition. */
  function Filtering(condition: Row -> bool): Mapper {
    row => Mappers.Filter(condition, row)
  }

  /** Filter never fails and keeps exactly the rows satisfying the condition, each as often
      as it occurs in the input. */
  lemma {:induction false} MapFilter(condition: Row -> bool, rows: seq<Row>)
    ensures Map(Filtering(condition), rows).Ok?
    ensures |Map(Filtering(condition), rows).value| <= |rows|
    ensures forall x :: x in Map(Filtering(condition), rows).value <==> x in rows && condition(x)
    ensures forall x :: multiset(Map(Filtering(condition), rows).value)[x] == if condition(x) then multiset(rows)[x] else 0
    decreases |rows|
  {
    var f := Filtering(condition);
    if rows != [] {
      MapFilter(condition, rows[1..]);
      var rest := Map(f, rows[1..]).value;
      var head := f(rows[0]).value;
      assert Map(f, rows) == Ok(head + rest);
      FilterStep(condition, rows, head, rest, Map(f, rows).value);
    }
  }

  /** One step of Filter: the head row, kept or dropped, in front of a correctly filtered tail. */
  lemma FilterStep<T>(condition: T -> bool, rows: seq<T>, head: seq<T>, rest: seq<T>, out: seq<T>)
    requires rows != [] && out == head + rest
    requires head == if condition(rows[0]) then [rows[0]] else []
    requires |rest| <= |rows[1..]|
    requires forall x :: x in rest <==> x in rows[1..] && condition(x)
    requires forall x :: multiset(rest)[x] == if condition(x) then multiset(rows[1..])[x] else 0
    ensures |out| <= |rows|
    ensures forall x :: x in out <==> x in rows && condition(x)
    ensures forall x :: multiset(out)[x] == if condition(x) then multiset(rows)[x] else 0
  {
    assert rows == [rows[0]] + rows[1..];
    forall x ensures x in rows <==> x == rows[0] || x in rows[1..] {
    }
    forall x ensures multiset(out)[x] == if condition(x) then multiset(rows)[x] else 0 {
      assert multiset(out) == multiset(head) + multiset(rest);
      assert multiset(rows) == multiset([rows[0]]) + multiset(rows[1..]);
    }
  }

  /** The indices from `i` on of the rows satisfying the condition, in ascending order. */
  function Satisfying(condition: Row -> bool, rows: seq<Row>, i: nat): (idx: seq<nat>)
    requires i <= |rows|
    ensures forall k :: 0 <= k < |idx| ==> i <= idx[k] < |rows| && condition(rows[idx[k]])
    ensures forall k, l :: 0 <= k < l < |idx| ==> idx[k] < idx[l]
    ensures forall j :: i <= j < |rows| && condition(rows[j]) ==> j in idx
    decreases |rows| - i
  {
    if i == |rows| then []
    else (if condition(rows[i]) then [i] else []) + Satisfying(condition, rows, i + 1)
  }

  /** `out` is `rows` read at the indices `idx`, one after the other. */
  ghost predicate IndexedBy<T>(out: seq<T>, rows: seq<T>, idx: seq<nat>) {
    |out| == |idx| && forall k :: 0 <= k < |idx| ==> idx[k] < |rows| && out[k] == rows[idx[k]]
  }

  lemma IndexedByAppend<T>(head: seq<T>, rest: seq<T>, rows: seq<T>, hi: seq<nat>, ri: seq<nat>)
    requires IndexedBy(head, rows, hi) && IndexedBy(rest, rows, ri)
    ensures IndexedBy(head + rest, rows, hi + ri)
  {
    forall k | 0 <= k < |hi + ri| ensures (hi + ri)[k] < |rows| && (head + rest)[k] == rows[(hi + ri)[k]] {
      if k >= |hi| {
        assert (hi + ri)[k] == ri[k - |hi|] && (head + rest)[k] == rest[k - |head|];
      }
    }
  }

  /** Filter keeps the satisfying rows in their input order: from row `i` on, its output is
      the input read at the ascending indices of the satisfying rows. */
  lemma {:induction false} MapFilterOrder(condition: Row -> bool, rows: seq<Row>, i: nat)
    requires i <= |rows|
    ensures Map(Filtering(condition), rows[i..]).Ok?
    ensures IndexedBy(Map(Filtering(condition), rows[i..]).value, rows, Satisfying(condition, rows, i))
    decreases |rows| - i
  {
    var f := Filtering(condition);
    MapFilter(condition, rows[i..]);
    if i < |rows| {
      MapFilterOrder(condition, rows, i + 1);
      var tail := rows[i..];
      assert tail[0] == rows[i] && tail[1..] == rows[i + 1..];
      var head := f(rows[i]).value;
      var hi: seq<nat> := if condition(rows[i]) then [i] else [];
      assert IndexedBy(head, rows, hi);
      IndexedByAppend(head, Map(f, rows[i + 1..]).value, rows, hi, Satisfying(condition, rows, i + 1));
    }
  }

  /** Projecting every row: one row out per row in, holding exactly the listed columns with
      the input's values; it fails exactly when some row lacks a listed column. */
  lemma {:induction false} MapProject(columns: seq<string>, rows: seq<Row>)
    ensures Map(row => Mappers.Project(columns, row), rows).Ok? <==> AllHaveKeys(rows, columns)
    ensures var r := Map(row => Mappers.Project(columns, row), rows);
      r.Ok? ==>
        && |r.value| == |rows|
        && forall i :: 0 <= i < |rows| ==>
             && r.value[i].Keys == (set c | c in columns)
             && forall c :: c in columns ==> r.value[i][c] == rows[i][c]
    decreases |rows|
  {
    var f := row => Mappers.Project(columns, row);
    if rows != [] {
      MapProject(columns, rows[1..]);
      assert forall i :: 1 <= i < |rows| ==> rows[i] == rows[1..][i - 1];
      var r := Map(f, rows);
      if r.Ok? {
        var rest := Map(f, rows[1..]).value;
        assert r.value == f(rows[0]).value + rest;
        forall i | 0 <= i < |rows|
          ensures r.value[i].Keys == (set c | c in columns)
          ensures forall c :: c in columns ==> r.value[i][c] == rows[i][c]
        {
          if i > 0 {
            assert r.value[i] == rest[i - 1];
          }
        }
      }
    }
  }

  /** Running `g` over everything `f` yields: the mapper of two chained map stages. */
  function AndThen(f: Mapper, g: Mapper): Mapper {
    row => match f(row) case Err(e) => Err(e) case Ok(mid) => Map(g, mid)
  }

  /** Two map stages in a row behave as one map stage with the composed mapper: whenever the
      first stage succeeds both give the same result, and whenever it fails both fail. */
  lemma {:induction false} MapCompose(f: Mapper, g: Mapper, rows: seq<Row>)
    ensures Map(f, rows).Err? ==> Map(AndThen(f, g), rows).Err?
    ensures Map(f, rows).Ok? ==> Map(g, Map(f, rows).value) == Map(AndThen(f, g), rows)
    decreases |rows|
  {
    if rows != [] {
      MapCompose(f, g, rows[1..]);
      var fr := f(rows[0]);
      var rest := Map(f, rows[1..]);
      if fr.Ok? && rest.Ok? {
        MapAppend(g, fr.value, rest.value);
      }
    }
  }

  // ---------------------------------------------------------------------------
  // Reduce

  /** The reducer applied to each group in order, outputs concatenated. */
  function ReduceGroups(reducer: Reducer, keys: seq<string>, gs: seq<Group>): (r: Result<seq<Row>>)
    ensures r.Ok? <==> forall i :: 0 <= i < |gs| ==> reducer(keys, gs[i].rows).Ok?
    decreases |gs|
  {
    if gs == [] then Ok([])
    else
      var rest := ReduceGroups(reducer, keys, gs[1..]);
      assert forall i :: 1 <= i < |gs| ==> gs[i] == gs[1..][i - 1];
      Then(reducer(keys, gs[0].rows), rest)
  }

  /** Reduce: group the rows into maximal runs of equal key with groupby and call the reducer
      once per run, in input order; nothing is sorted first. */
  function Reduce(reducer: Reducer, keys: seq<string>, rows: seq<Row>): (r: Result<seq<Row>>)
    ensures rows == [] ==> r == Ok([])
    ensures !AllHaveKeys(rows, keys) ==> r.Err? && r.error.MissingColumn? && r.error.column in keys
    ensures r.Ok? <==> AllHaveKeys(rows, keys)
                       && forall i :: 0 <= i < |Runs(rows, KeyFn(keys))| ==> reducer(keys, Runs(rows, KeyFn(keys))[i].rows).Ok?
  {
    match GroupBy(rows, keys)
    case Err(e) => Err(e)
    case Ok(gs) =>
      assert gs == Runs(rows, KeyFn(keys));
      ReduceGroups(reducer, keys, gs)
  }

  lemma {:induction false} ReduceGroupsAppend(reducer: Reducer, keys: seq<string>, a: seq<Group>, b: seq<Group>)
    ensures ReduceGroups(reducer, keys, a + b) == Then(ReduceGroups(reducer, keys, a), ReduceGroups(reducer, keys, b))
    decreases |a|
  {
    if a == [] {
      assert a + b == b;
      if ReduceGroups(reducer, keys, b).Ok? {
        assert [] + ReduceGroups(reducer, keys, b).value == ReduceGroups(reducer, keys, b).value;
      }
    } else {
      assert (a + b)[0] == a[0] && (a + b)[1..] == a[1..] + b;
      ReduceGroupsAppend(reducer, keys, a[1..], b);
      ThenAssociative(reducer(keys, a[0].rows), ReduceGroups(reducer, keys, a[1..]), ReduceGroups(reducer, keys, b));
    }
  }

  /** Groups never span a change of key: reducing a concatenation whose seam changes key is
      reducing the parts one after the other. */
  lemma ReduceAppend(reducer: Reducer, keys: seq<string>, a: seq<Row>, b: seq<Row>)
    requires AllHaveKeys(a, keys) && AllHaveKeys(b, keys)
    requires a != [] && b != [] && KeyValues(a[|a| - 1], keys) != KeyValues(b[0], keys)
    ensures Reduce(reducer, keys, a + b) == Then(Reduce(reducer, keys, a), Reduce(reducer, keys, b))
  {
    assert AllHaveKeys(a + b, keys) by {
      forall i | 0 <= i < |a + b| ensures HasKeys((a + b)[i], keys) {
        if i >= |a| { assert (a + b)[i] == b[i - |a|]; }
      }
    }
    RunsAppend(a, b, KeyFn(keys));
    ReduceGroupsAppend(reducer, keys, Runs(a, KeyFn(keys)), Runs(b, KeyFn(keys)));
  }

  /** A reducer yielding one row per group gives one output row per group, in group order. */
  lemma {:induction false} OneRowPerGroup(reducer: Reducer, keys: seq<string>, gs: seq<Group>)
    requires forall rows :: reducer(keys, rows).Ok? ==> |reducer(keys, rows).value| == 1
    requires ReduceGroups(reducer, keys, gs).Ok?
    ensures |ReduceGroups(reducer, keys, gs).value| == |gs|
    ensures forall i :: 0 <= i < |gs| ==> ReduceGroups(reducer, keys, gs).value[i] == reducer(keys, gs[i].rows).value[0]
    decreases |gs|
  {
    if gs != [] {
      OneRowPerGroup(reducer, keys, gs[1..]);
      var out := ReduceGroups(reducer, keys, gs).value;
      var rest := ReduceGroups(reducer, keys, gs[1..]).value;
      assert out == reducer(keys, gs[0].rows).value + rest;
      forall i | 0 < i < |gs| ensures out[i] == reducer(keys, gs[i].rows).value[0] {
        assert out[i] == rest[i - 1] && gs[i] == gs[1..][i - 1];
      }
    }
  }

  /** FirstReducer on input whose neighbouring rows always differ in key gives the input back:
      every row is a group of its own. */
  lemma ReduceFirstOnDistinctNeighbours(keys: seq<string>, rows: seq<Row>)
    requires AllHaveKeys(rows, keys)
    requires forall i :: 0 <= i < |rows| - 1 ==> KeyValues(rows[i], keys) != KeyValues(rows[i + 1], keys)
    ensures Reduce(Reducers.First, keys, rows) == Ok(rows)
  {
    var gs := Runs(rows, KeyFn(keys));
    RunsOfDistinctNeighbours(rows, KeyFn(keys));
    forall i | 0 <= i < |gs| ensures Reducers.First(keys, gs[i].rows) == Ok([rows[i]]) {
      assert gs[i].rows == [rows[i]];
    }
    assert ReduceGroups(Reducers.First, keys, gs).Ok?;
    OneRowPerGroup(Reducers.First, keys, gs);
    var out := ReduceGroups(Reducers.First, keys, gs).value;
    SameElements(out, rows);
  }

  /** The Count reducer for the given output column. */
  function CountBy(column: string): Reducer {
    (keys, rows) => Reducers.Counted(column, keys, rows)
  }

  /** The row Count yields for group `g`: its size, and the key columns of its first row. */
  predicate CountRow(out: Row, column: string, keys: seq<string>, g: seq<Row>) {
    && g != []
    && column in out && out[column] == IntVal(|g|)
    && forall k :: k in keys && k != column ==> k in out && k in g[0] && out[k] == g[0][k]
  }

  /** Reduce with Count: it fails only on a missing key column, and yields one row per group
      carrying the group's size and the key columns of its first row. */
  lemma ReduceCount(column: string, keys: seq<string>, rows: seq<Row>)
    ensures Reduce(CountBy(column), keys, rows).Ok? <==> AllHaveKeys(rows, keys)
    ensures var r := Reduce(CountBy(column), keys, rows);
      var gs := Runs(rows, KeyFn(keys));
      r.Ok? ==> |r.value| == |gs| && forall i :: 0 <= i < |gs| ==> CountRow(r.value[i], column, keys, gs[i].rows)
  {
    var gs := Runs(rows, KeyFn(keys));
    if AllHaveKeys(rows, keys) {
      forall i | 0 <= i < |gs| ensures CountBy(column)(keys, gs[i].rows).Ok? {
        var g := gs[i].rows;
        InFlatten(gs, i, g[0]);
      }
      OneRowPerGroup(CountBy(column), keys, gs);
      var out := Reduce(CountBy(column), keys, rows).value;
      forall i | 0 <= i < |gs| ensures CountRow(out[i], column, keys, gs[i].rows) {
        CountedRow(column, keys, gs[i].rows);
      }
    }
  }

  /** The row Count yields for a group it accepts is a CountRow. */
  lemma CountedRow(column: string, keys: seq<string>, g: seq<Row>)
    requires Reducers.Counted(column, keys, g).Ok?
    ensures CountRow(Reducers.Counted(column, keys, g).value[0], column, keys, g)
  {
  }

  /** The Sum reducer for the given columns. */
  function SumOf(columns: seq<string>): Reducer {
    (keys, rows) => Reducers.Summed(columns, keys, rows)
  }

  /** The row Sum yields for group `g`: the per-column totals, and the key columns of its
      first row that are not summed. */
  predicate SumRow(out: Row, columns: seq<string>, keys: seq<string>, g: seq<Row>) {
    && g != []
    && (forall c :: c in columns ==> c in out && out[c] == IntVal(multiset(columns)[c] * Reducers.ColumnSum(g, c)))
    && forall k :: k in keys && k !in columns ==> k in out && k in g[0] && out[k] == g[0][k]
  }

  /** Reduce with Sum fails exactly on a row lacking a key column or holding a listed column
      that is missing or not an integer. */
  lemma ReduceSumFails(columns: seq<string>, keys: seq<string>, rows: seq<Row>)
    ensures Reduce(SumOf(columns), keys, rows).Ok?
        <==> AllHaveKeys(rows, keys) && forall i :: 0 <= i < |rows| ==> IntColumns(rows[i], columns)
  {
    var gs := Runs(rows, KeyFn(keys));
    if AllHaveKeys(rows, keys) {
      if forall i :: 0 <= i < |rows| ==> IntColumns(rows[i], columns) {
        forall i | 0 <= i < |gs| ensures SumOf(columns)(keys, gs[i].rows).Ok? {
          var g := gs[i].rows;
          InFlatten(gs, i, g[0]);
          forall k | 0 <= k < |g| ensures IntColumns(g[k], columns) {
            InFlatten(gs, i, g[k]);
          }
        }
      } else {
        var i :| 0 <= i < |rows| && !IntColumns(rows[i], columns);
        var a := InSomeGroup(gs, rows[i]);
        var g := gs[a].rows;
        var k :| 0 <= k < |g| && g[k] == rows[i];
        assert !SumOf(columns)(keys, g).Ok?;
      }
    }
  }

  /** Reduce with Sum: one row per group, carrying the per-column totals of the group. */
  lemma ReduceSum(columns: seq<string>, keys: seq<string>, rows: seq<Row>)
    ensures var r := Reduce(SumOf(columns), keys, rows);
      var gs := Runs(rows, KeyFn(keys));
      r.Ok? ==> |r.value| == |gs| && forall i :: 0 <= i < |gs| ==> SumRow(r.value[i], columns, keys, gs[i].rows)
  {
    var gs := Runs(rows, KeyFn(keys));
    if AllHaveKeys(rows, keys) && ReduceGroups(SumOf(columns), keys, gs).Ok? {
      OneRowPerGroup(SumOf(columns), keys, gs);
      var out := ReduceGroups(SumOf(columns), keys, gs).value;
      forall i | 0 <= i < |gs| ensures SumRow(out[i], columns, keys, gs[i].rows) {
        SummedRow(columns, keys, gs[i].rows);
      }
    }
  }

  lemma SummedRow(columns: seq<string>, keys: seq<string>, g: seq<Row>)
    requires Reducers.Summed(columns, keys, g).Ok?
    ensures SumRow(Reducers.Summed(columns, keys, g).value[0], columns, keys, g)
  {
  }
}
