/** The Graph builder. A graph is an immutable description of a pipeline: a named input, or a
    stage (map, reduce, sort, join) on top of the graph it extends. Running it against an
    environment that names every input table yields the rows of the last stage. */
module Graphs {
  import opened Rows
  import opened Grouping
  import opened Joiners
  import Mappers
  import Reducers
  import Sorting
  import Operations
  import SortMergeJoin

  /** A graph: each builder call wraps the graph it is called on; `other` of a join stage is
      the graph passed as `join_graph`. */
  datatype Graph =
    | FromIter(name: string)
    | MapStage(source: Graph, mapper: Operations.Mapper)
    | ReduceStage(source: Graph, reducer: Operations.Reducer, keys: seq<string>)
    | SortStage(source: Graph, keys: seq<string>)
    | JoinStage(source: Graph, joiner: Joiner, other: Graph, keys: seq<string>)

  /** The input names a graph reads. */
  function Sources(g: Graph): set<string> {
    match g
    case FromIter(name) => {name}
    case MapStage(source, _) => Sources(source)
    case ReduceStage(source, _, _) => Sources(source)
    case SortStage(source, _) => Sources(source)
    case JoinStage(source, _, other, _) => Sources(source) + Sources(other)
  }

  /** The sort stage: a stable ascending sort by the key columns; a row lacking one of them
      raises. */
  function SortRows(keys: seq<string>, rows: seq<Row>): (r: Result<seq<Row>>)
    ensures r.Ok? <==> AllHaveKeys(rows, keys)
    ensures r.Ok? ==> Sorting.IsStableSortOf(r.value, rows, KeyFn(keys), false)
    ensures r.Ok? ==> multiset(r.value) == multiset(rows)
    ensures r.Err? ==> r.error.MissingColumn? && r.error.column in keys
  {
    if AllHaveKeys(rows, keys) then Ok(Sorting.SortBy(rows, KeyFn(keys), false))
    else Err(MissingKeyError(rows, keys))
  }

  /** `run` and `run_iter`: the rows of the last stage, every input read from `env`. A name
      missing from `env` raises KeyError. */
  function Run(g: Graph, env: map<string, seq<Row>>): (r: Result<seq<Row>>)
    ensures r.Ok? ==> Sources(g) <= env.Keys
    ensures g.FromIter? ==> (r.Ok? <==> g.name in env) && (r.Ok? ==> r.value == env[g.name])
  {
    match g
    case FromIter(name) =>
      if name in env then Ok(env[name]) else Err(MissingSource(name))
    case MapStage(source, mapper) =>
      var rows := Run(source, env);
      if rows.Err? then rows else Operations.Map(mapper, rows.value)
    case ReduceStage(source, reducer, keys) =>
      var rows := Run(source, env);
      if rows.Err? then rows else Operations.Reduce(reducer, keys, rows.value)
    case SortStage(source, keys) =>
      var rows := Run(source, env);
      if rows.Err? then rows else SortRows(keys, rows.value)
    case JoinStage(source, joiner, other, keys) =>
      var left := Run(other, env);
      if left.Err? then left
      else
        var right := Run(source, env);
        if right.Err? then right
        else SortMergeJoin.Joined(joiner, keys, left.value, right.value)
  }

  /** A graph can be run again and again: its output depends only on the tables of the
      inputs it names. */
  lemma {:induction false} RunDependsOnSources(g: Graph, env1: map<string, seq<Row>>, env2: map<string, seq<Row>>)
    requires forall name :: name in Sources(g) ==> (name in env1 <==> name in env2)
    requires forall name :: name in Sources(g) && name in env1 && name in env2 ==> env1[name] == env2[name]
    ensures Run(g, env1) == Run(g, env2)
  {
    match g
    case FromIter(_) =>
    case MapStage(source, _) => RunDependsOnSources(source, env1, env2);
    case ReduceStage(source, _, _) => RunDependsOnSources(source, env1, env2);
    case SortStage(source, _) => RunDependsOnSources(source, env1, env2);
    case JoinStage(source, _, other, _) =>
      RunDependsOnSources(source, env1, env2);
      RunDependsOnSources(other, env1, env2);
  }

  /** Two map stages in a row succeed exactly when one map stage with the composed mapper
      does, and then yield the same rows. */
  lemma MapStagesCompose(g: Graph, f: Operations.Mapper, h: Operations.Mapper, env: map<string, seq<Row>>)
    ensures Run(MapStage(MapStage(g, f), h), env).Ok? <==> Run(MapStage(g, Operations.AndThen(f, h)), env).Ok?
    ensures Run(MapStage(MapStage(g, f), h), env).Ok? ==>
      Run(MapStage(MapStage(g, f), h), env) == Run(MapStage(g, Operations.AndThen(f, h)), env)
  {
    var rows := Run(g, env);
    if rows.Ok? {
      Operations.MapCompose(f, h, rows.value);
    }
  }

  /** A map stage with DummyMapper changes nothing. */
  lemma DummyStageIdentity(g: Graph, env: map<string, seq<Row>>)
    ensures Run(MapStage(g, Mappers.DummyMapper), env) == Run(g, env)
  {
    var rows := Run(g, env);
    if rows.Ok? {
      Operations.MapDummyIdentity(rows.value);
    }
  }

  /** The sort stage yields a permutation of its input, ascending by the key columns, equal
      keys in input order; no other order has these properties. */
  lemma SortStageSorts(g: Graph, keys: seq<string>, env: map<string, seq<Row>>)
    ensures var r, rows := Run(SortStage(g, keys), env), Run(g, env);
      r.Ok? <==> rows.Ok? && AllHaveKeys(rows.value, keys)
    ensures var r, rows := Run(SortStage(g, keys), env), Run(g, env);
      r.Ok? ==> && multiset(r.value) == multiset(rows.value)
                && Sorting.IsStableSortOf(r.value, rows.value, KeyFn(keys), false)
                && forall s :: Sorting.IsStableSortOf(s, rows.value, KeyFn(keys), false) ==> s == r.value
  {
    var r, rows := Run(SortStage(g, keys), env), Run(g, env);
    if r.Ok? {
      forall s | Sorting.IsStableSortOf(s, rows.value, KeyFn(keys), false) ensures s == r.value {
        Sorting.StableSortUnique(s, r.value, rows.value, KeyFn(keys), false);
      }
    }
  }

  /** A reduce stage does not sort: on an input whose neighbouring rows differ in key,
      FirstReducer passes every row through, even when a key comes back later. */
  lemma ReduceStageKeepsOrder(name: string, keys: seq<string>, rows: seq<Row>)
    requires AllHaveKeys(rows, keys)
    requires forall i :: 0 <= i < |rows| - 1 ==> KeyValues(rows[i], keys) != KeyValues(rows[i + 1], keys)
    ensures Run(ReduceStage(FromIter(name), Reducers.First, keys), map[name := rows]) == Ok(rows)
  {
    Operations.ReduceFirstOnDistinctNeighbours(keys, rows);
  }

  /** Keys 1, 2, 1 in that order: the reduce stage yields three rows, the key 1 twice. */
  lemma ReduceStageRepeatsKey(name: string)
    ensures var rows := [SortMergeJoin.KeyRow(1), SortMergeJoin.KeyRow(2), SortMergeJoin.KeyRow(1)];
      Run(ReduceStage(FromIter(name), Reducers.First, ["k"]), map[name := rows]) == Ok(rows)
  {
    var rows := [SortMergeJoin.KeyRow(1), SortMergeJoin.KeyRow(2), SortMergeJoin.KeyRow(1)];
    assert KeyValues(rows[0], ["k"]) == [IntVal(1)];
    assert KeyValues(rows[1], ["k"]) == [IntVal(2)];
    assert KeyValues(rows[2], ["k"]) == [IntVal(1)];
    ReduceStageKeepsOrder(name, ["k"], rows);
  }

  /** The graph passed to `join` is the left input: LeftJoiner keeps its rows when the
      receiver yields none, and RightJoiner keeps the receiver's rows when it yields none. */
  lemma JoinStageSides(sa: string, sb: string, keys: seq<string>, g: Graph, other: Graph, env: map<string, seq<Row>>)
    requires Run(g, env).Ok? && Run(other, env).Ok?
    requires AllHaveKeys(Run(g, env).value, keys) && AllHaveKeys(Run(other, env).value, keys)
    ensures Run(g, env) == Ok([]) ==> Run(JoinStage(g, Left(sa, sb), other, keys), env) == Run(other, env)
    ensures Run(g, env) == Ok([]) ==> Run(JoinStage(g, Right(sa, sb), other, keys), env) == Ok([])
    ensures Run(other, env) == Ok([]) ==> Run(JoinStage(g, Right(sa, sb), other, keys), env) == Run(g, env)
    ensures Run(other, env) == Ok([]) ==> Run(JoinStage(g, Left(sa, sb), other, keys), env) == Ok([])
  {
    var left, right := Run(other, env).value, Run(g, env).value;
    JoinStageRuns(g, Left(sa, sb), other, keys, env);
    JoinStageRuns(g, Right(sa, sb), other, keys, env);
    SortMergeJoin.JoinedOneSideEmpty(sa, sb, keys, left);
    SortMergeJoin.JoinedOneSideEmpty(sa, sb, keys, right);
  }

  /** A join stage whose inputs both run joins `join_graph`'s rows (left) with the receiver's
      rows (right). */
  lemma JoinStageRuns(g: Graph, joiner: Joiner, other: Graph, keys: seq<string>, env: map<string, seq<Row>>)
    requires Run(g, env).Ok? && Run(other, env).Ok?
    ensures Run(JoinStage(g, joiner, other, keys), env)
         == SortMergeJoin.Joined(joiner, keys, Run(other, env).value, Run(g, env).value)
  {
  }

  /** Joining one row of the receiver with one row of `join_graph` on equal keys: the
      `join_graph` row is merged as the left row, so its clashing columns get `suffix_a`. */
  lemma JoinStageMergesOtherFirst(sa: string, sb: string, keys: seq<string>, a: string, b: string, ra: Row, rb: Row)
    requires a != b
    requires HasKeys(ra, keys) && HasKeys(rb, keys) && KeyValues(ra, keys) == KeyValues(rb, keys)
    ensures Run(JoinStage(FromIter(a), Inner(sa, sb), FromIter(b), keys), map[a := [ra], b := [rb]])
         == Ok([Merged(rb, ra, keys, sa, sb)])
  {
    SortMergeJoin.JoinedSingleRows(sa, sb, keys, rb, ra);
  }
}
