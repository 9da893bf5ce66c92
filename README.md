# computational-graph in Dafny

A model of the core of the `computational-graph` library, a small lazy dataflow engine for
tables of rows. A row is a dictionary from column names to values. A `Graph` is a
pipeline built by chained calls:

- `graph_from_iter(name)` reads a named input table;
- `map(mapper)` applies a mapper to every row;
- `reduce(reducer, keys)` applies a reducer to every run of rows with equal key columns;
- `sort(keys)` orders the rows by the key columns;
- `join(joiner, other, keys)` runs a sort-merge join against another graph.

`run` / `run_iter` execute the pipeline against the input tables.

The model has nine modules:

| module | what it models |
|---|---|
| `Rows` | rows, values, key projection (`[row[key] for key in keys]`) and its `KeyError`, and Python's `<` on key lists. It also has `Then`, which chains generator output: the first exception ends the stream. |
| `Grouping` | `itertools.groupby` as the unique cut of a sequence into maximal runs of equal key (`Runs`, `IsRunPartition`, `RunsUnique`). |
| `Sorting` | a stable sort by key, stated as `IsStableSortOf` and shown to have exactly one solution. |
| `Mappers` | `DummyMapper`, `Filter`, `Project` and `Product`; the last has a loop method proved against its function. |
| `Reducers` | `FirstReducer`, `Count`, `SafeCount`, `Sum` and `TopN`. Each loop is a method proved equal to a specification function; the function's properties are proved as lemmas. |
| `Joiners` | `merge`, and the `Inner`, `Outer`, `Left` and `Right` joiners. The cross product is right-row-major. |
| `Operations` | the `Map` and `Reduce` operations, with lemmas about composition, concatenation and the plug-ins above. |
| `SortMergeJoin` | the `Join` operation; its details are below. |
| `Graphs` | the graph as a datatype with one constructor per builder call. `Run` interprets it against a map from input names to tables. |

`SortMergeJoin` models Join in layers:

- `Trace` gives the sequence of joiner calls that Join's loops make, exactly as written.
- `Emit` turns those calls into output.
- `Join` is the loop method, proved equal to `Joined`.
- `Ideal` is a textbook merge that calls the joiner once for every group.

On inputs sorted by the join keys, the as-written loops agree with `Ideal` whenever one side's key set contains the other's. In general they do not. After the right loop runs, the left cursor is not advanced again before the match test. Both cursors then move on whether or not the keys matched, so a group can be skipped:

- `LostGroupExample`: an outer join loses a left group.
- `MissedMatchExample`: an inner join misses a key that both sides hold.

Errors are values. A Python exception becomes `Err(e)` with `e` one of:

- `MissingColumn` — a `KeyError` on a row;
- `MissingSource` — a `KeyError` on the run's keyword arguments;
- `NotAnInteger` — arithmetic on a value that is not an integer;
- `EmptyGroup` — a reducer's `assert row_sample is not None`;
- `BothGroupsNone` — OuterJoiner's raise.

Three behaviours of the join follow the code:

- a cross product has the right row in the outer loop, so its output is grouped by right row;
- an unmatched row of an outer join passes through unchanged, with no padding columns;
- an outer join can lose a whole group (see above).

## Model

| member | source | states |
|---|---|---|
| Rows.Then | lib/operations.py:46-47 | chaining two outputs succeeds iff both do, then concatenates them; a failure is the first failing part's error |
| Rows.ThenAssociative | lib/operations.py:46-47 | chaining output is associative, so a stream can be split anywhere |
| Rows.KeyValues | lib/operations.py:72-74 | the key projection has one entry per key column, each the row's value for that column |
| Rows.FirstMissing | lib/operations.py:74 | the column of the KeyError is a key column absent from the row |
| Rows.Select | lib/operations.py:245 | copying listed columns succeeds iff all are present; the copy has exactly those columns with the row's values; otherwise KeyError names a missing listed column |
| Rows.MissingKeyError | lib/operations.py:72-76 | the error for a table where some row lacks a key column names a key column absent from some row |
| Rows.KeyLessStrictTotal | lib/operations.py:118-123 | Python's `<` on key lists, as modelled, is irreflexive, transitive and total |
| Grouping.Runs | lib/operations.py:76 | groupby's runs concatenate back to the input, are non-empty, uniform in key, with neighbouring runs of different key, and are no more than the rows |
| Grouping.RunsUnique | lib/operations.py:76 | any cut of the rows into maximal runs of equal key is exactly groupby's |
| Grouping.GroupBy | lib/operations.py:72-76 | grouping by key columns fails iff some row lacks a key column, and otherwise is the run partition under the key projection |
| Grouping.RunsAppend | lib/operations.py:76 | when the key changes at the seam, grouping a concatenation groups each part on its own |
| Grouping.LastGroupKey | lib/operations.py:76 | the last run has the key of the last row |
| Grouping.RunsOfDistinctNeighbours | lib/operations.py:76 | when neighbouring rows always differ in key, every row is a run of its own, even if a key comes back |
| Grouping.RunKeys | lib/operations.py:115-116 | the keys of the runs are exactly the keys of the rows |
| Sorting.SortBy | lib/graph.py:57 | the sort is a stable sort of its input (ordered by key; for each key the same rows in the same order) and a permutation |
| Sorting.StableSortUnique | lib/graph.py:57 | two stable sorts of the same input are equal |
| Mappers.Project | lib/operations.py:244-245 | Project succeeds iff the row has every listed column, then yields one row with exactly the listed columns and the input's values; otherwise KeyError names a listed missing column |
| Mappers.Multiplied | lib/operations.py:215-218 | the running product succeeds iff every listed column is present and an integer; a failure names a listed column that is missing or not an integer |
| Mappers.MultipliedAppend | lib/operations.py:216-218 | the product over two column lists is the product of the two products |
| Mappers.MultipliedStopsAtError | lib/operations.py:217-218 | once the loop has raised, the later columns change nothing |
| Mappers.Product | lib/operations.py:215-220 | Product's loop yields the row with the product written into the result column, or the error of the running product |
| Reducers.CopyKeys | lib/operations.py:431-432 | copying the key columns of the sample row equals selecting them, with the same KeyError |
| Reducers.FirstReducer | lib/operations.py:150-156 | the loop yields the first row of the group, and fails on an empty group |
| Reducers.Counted | lib/operations.py:422-434 | Count fails on an empty group or a sample row lacking a key column; otherwise one row holding the key columns of the first row and the group size in the count column, and nothing else |
| Reducers.Scan | lib/operations.py:426-429 | the scan loop finds the first row and the number of rows |
| Reducers.Count | lib/operations.py:422-434 | Count's loops compute `Counted` |
| Reducers.SafeCounted | lib/operations.py:445-459 | SafeCount fails exactly when Count does; otherwise it yields Count's row once per input row |
| Reducers.SafeCount | lib/operations.py:445-459 | SafeCount's loops compute `SafeCounted` |
| Reducers.ZeroTotals | lib/operations.py:475-476 | the first loop of Sum sets every listed column's total to 0 |
| Reducers.AddRow | lib/operations.py:481-482 | adding one row succeeds iff all listed columns of the row are integers, and keeps the totals' columns |
| Reducers.AddRowAdds | lib/operations.py:481-482 | adding one row increases each total by the row's value, once per listing of the column |
| Reducers.AddRowLoop | lib/operations.py:481-482 | the inner loop of Sum computes `AddRow` |
| Reducers.Totals | lib/operations.py:475-483 | the totals exist iff every row holds integers in every listed column, and have exactly the listed columns |
| Reducers.TotalsSum | lib/operations.py:478-482 | each total is the column's sum over the group, times how often it is listed |
| Reducers.TotalsStopAtError | lib/operations.py:478-482 | once a row has raised, later rows change nothing |
| Reducers.WriteTotals | lib/operations.py:487-488 | the last loop of Sum writes every listed total into the result row |
| Reducers.Summed | lib/operations.py:470-489 | Sum fails on an empty group, a sample row without a key column, or a non-integer listed value; otherwise one row with exactly the key and listed columns, the sums, and the first row's keys |
| Reducers.EmitTotals | lib/operations.py:484-489 | after the totals of the whole group, the end of Sum raises on an empty group or a sample row lacking a key column, and otherwise yields `Summed`'s row |
| Reducers.Sum | lib/operations.py:470-489 | Sum's loops compute `Summed` |
| Reducers.TopN | lib/operations.py:375-377 | TopN yields nothing for n <= 0; otherwise it fails iff a row lacks the column, and then yields min(n, size) rows, a prefix of the stable descending sort by the column |
| Joiners.SuffixedPart | lib/operations.py:504-505 | the suffixed copies have exactly the suffixed names and the row's values |
| Joiners.MergedColumns | lib/operations.py:493-510 | a merged row has the plain columns and both suffixed copies of every clashing column, and no others |
| Joiners.MergedAt | lib/operations.py:499-509 | when no output name collides, each input column lands where merge puts it: clashing non-key columns under both suffixes, others under their own name with the left value first |
| Joiners.MergedValues | lib/operations.py:493-510 | the same for every column at once |
| Joiners.MergedDetermined | lib/operations.py:493-510 | a row with merge's columns that agrees with merge on every input column is merge's row |
| Joiners.MergeColumn | lib/operations.py:499-508 | one pass of merge's loop adds exactly the names its column produces, with merge's values for that column when no name collides, and leaves every other name as it was |
| Joiners.Merge | lib/operations.py:493-510 | merge's loop over the union of columns yields merge's column set, and merge's row when no output name collides |
| Joiners.Cross | lib/operations.py:517-522 | the cross product has \|a\|·\|b\| rows, the merge of left i and right j at position j·\|a\|+i |
| Joiners.InnerJoin | lib/operations.py:513-522 | InnerJoiner never fails, yields the cross product of two groups and nothing when a group is None |
| Joiners.OuterJoin | lib/operations.py:525-542 | OuterJoiner fails iff both groups are None; the cross product of two groups; a lone group passed through unchanged |
| Joiners.LeftJoin | lib/operations.py:545-559 | LeftJoiner never fails; the cross product; a lone left group passed through; nothing without a left group |
| Joiners.RightJoin | lib/operations.py:562-576 | RightJoiner never fails; the cross product; a lone right group passed through; nothing without a right group |
| Operations.Map | lib/operations.py:36-47 | Map succeeds iff the mapper succeeds on every row; the empty input yields nothing |
| Operations.MapAppend | lib/operations.py:46-47 | Map over a concatenation is the chained output of Map over each part |
| Operations.MapSingle | lib/operations.py:46-47 | Map over one row is the mapper's output for it |
| Operations.MapDummyIdentity | lib/operations.py:142-145 | Map with DummyMapper returns its input |
| Operations.MapFilter | lib/operations.py:223-233 | Map with Filter never fails, keeps no more rows than it gets, and keeps exactly the rows satisfying the condition, each as many times as it occurs in the input |
| Operations.Satisfying | lib/operations.py:231-233 | the indices from a given one on of the rows satisfying the condition: all such indices, each in range and satisfying it, strictly ascending |
| Operations.MapFilterOrder | lib/operations.py:223-233 | Filter keeps the satisfying rows in input order: its output is the input read at the ascending indices of the satisfying rows |
| Operations.MapProject | lib/operations.py:236-245 | Map with Project succeeds iff every row has the columns, and yields row by row the projection onto them |
| Operations.MapCompose | lib/operations.py:46-47 | mapping twice equals mapping once with the composed mapper when the first map succeeds, and fails with it otherwise |
| Operations.ReduceGroups | lib/operations.py:76-77 | the reducer loop succeeds iff every reducer call does |
| Operations.Reduce | lib/operations.py:60-77 | Reduce on nothing yields nothing; a row without a key column raises KeyError on a key column; otherwise it succeeds iff the reducer succeeds on every run |
| Operations.ReduceGroupsAppend | lib/operations.py:76-77 | reducing a concatenation of groups chains the two outputs |
| Operations.ReduceAppend | lib/operations.py:76-77 | when the key changes at the seam, Reduce over a concatenation chains the two outputs |
| Operations.OneRowPerGroup | lib/operations.py:76-77 | a reducer yielding one row per group gives one output row per run, in run order |
| Operations.ReduceFirstOnDistinctNeighbours | lib/operations.py:76-77 | Reduce with FirstReducer on rows whose neighbours differ in key returns the input: it does not merge equal keys that are apart |
| Operations.ReduceCount | lib/operations.py:414-434 | Reduce with Count succeeds iff every row has the key columns, and yields per run its size and key columns |
| Operations.ReduceSumFails | lib/operations.py:478-486 | Reduce with Sum succeeds iff every row has the key columns and integers in every listed column |
| Operations.ReduceSum | lib/operations.py:462-489 | Reduce with Sum yields per run the column sums and key columns, whenever it succeeds |
| SortMergeJoin.Trace | lib/operations.py:125-137 | Join's loops only call the joiner with at least one group, indices in range, and two groups only when their keys are equal |
| SortMergeJoin.IdealCovers | lib/operations.py:125-137 | the reference merge calls the joiner once for each left group and once for each right group, in order, and pairs two groups only when their keys agree |
| SortMergeJoin.Emit | lib/operations.py:127-137 | the output of a call sequence succeeds iff every joiner call does |
| SortMergeJoin.Joined | lib/operations.py:105-137 | Join raises KeyError when a row of either side lacks a key column |
| SortMergeJoin.LeftRun | lib/operations.py:128-130 | the left loop stops with the left key no longer below the right one, having emitted exactly the calls of `Trace` up to there |
| SortMergeJoin.RightRun | lib/operations.py:131-133 | the right loop stops with the right key no longer below the left one, having emitted exactly the calls of `Trace` up to there |
| SortMergeJoin.Join | lib/operations.py:105-137 | Join's loops compute `Joined` |
| SortMergeJoin.SortedRunsAscending | lib/operations.py:115-116 | input sorted by key is grouped into runs of strictly ascending key |
| SortMergeJoin.TraceIdealRightSubset | lib/operations.py:125-137 | on ascending groups where every right key is also a left key, Join's loops make exactly the reference merge's calls |
| SortMergeJoin.TraceIdealLeftSubset | lib/operations.py:125-137 | the same when every left key is also a right key |
| SortMergeJoin.IdealPairsEqualKeys | lib/operations.py:135-137 | the reference merge pairs every left group with the right group of the same key |
| SortMergeJoin.JoinedSameKeys | lib/operations.py:125-137 | for sorted inputs holding the same keys, the joiner is called once per key, in ascending order, with both groups |
| SortMergeJoin.OuterJoinNeverFails | lib/operations.py:541-542 | Join never calls the joiner with two None groups: an outer join fails only on a missing key column |
| SortMergeJoin.JoinedOneSideEmpty | lib/operations.py:555-574 | against an empty side, LeftJoiner returns the left input and RightJoiner nothing, and the other way round |
| SortMergeJoin.JoinedSingleRows | lib/operations.py:136-137 | one left and one right row with equal keys give the single merge of the two, left row first |
| SortMergeJoin.LostGroupExample | lib/operations.py:130-137 | an outer join of left keys 1, 3 with right key 2 yields the rows of keys 1 and 2 only |
| SortMergeJoin.MissedMatchExample | lib/operations.py:130-137 | an inner join of left keys 2, 3 with right keys 1, 3 yields nothing |
| Graphs.SortRows | lib/graph.py:52-58 | the sort stage fails iff a row lacks a key column, and otherwise yields a stable ascending sort and permutation of its input |
| Graphs.Run | lib/graph.py:70-76 | a successful run reads only inputs that were supplied; a source graph yields exactly its input table, and fails iff it is missing |
| Graphs.RunDependsOnSources | lib/graph.py:13-20 | running a graph twice on inputs agreeing on the names it reads gives the same result |
| Graphs.MapStagesCompose | lib/graph.py:35-41 | two map stages succeed iff one stage with the composed mapper does, and then yield the same rows |
| Graphs.DummyStageIdentity | lib/graph.py:35-41 | a map stage with DummyMapper yields its predecessor's result |
| Graphs.SortStageSorts | lib/graph.py:52-58 | the sort stage succeeds iff the predecessor does and all its rows have the keys, and yields the unique stable ascending sort, a permutation |
| Graphs.ReduceStageKeepsOrder | lib/graph.py:43-50 | a reduce stage does not sort: FirstReducer on rows whose neighbours differ in key passes every row through |
| Graphs.ReduceStageRepeatsKey | lib/graph.py:43-50 | keys 1, 2, 1 give three rows from a reduce stage with FirstReducer |
| Graphs.JoinStageSides | lib/graph.py:60-68 | LeftJoiner keeps `join_graph`'s rows against an empty receiver and RightJoiner the receiver's against an empty `join_graph`; the other joiner then yields nothing |
| Graphs.JoinStageMergesOtherFirst | lib/graph.py:66-67 | joining single rows merges the `join_graph` row as the left row, so its clashing columns take `suffix_a` |

## Left out

- Values are integers and strings only. Floats, `None`, nested rows and lists are not modelled.
- `Rows.KeyLessStrictTotal`: an integer is ordered before every string. Python raises TypeError when it compares the two.
- Laziness. Every stage is evaluated in full, and the first failure ends the run. So the model says whether a run fails, but not which exception a lazy run reports first. It also leaves out the rows `run_iter` yields before the exception.
- `run` and `run_iter` are one function, `Graphs.Run`: `run` is `list()` of the same generator.
- `Joiners.Merge`: when a suffixed name equals another output column, the value stored there depends on Python's iteration order over a set. For that case the contract states only the column set.
- Aliasing. `SafeCount` yields the same dict object once per row. `Product`, `FilterPunctuation` and `LowerCase` write into the row they are given. The model yields equal values and cannot express shared identity.
- `Mappers.Product`: multiplication of strings (repetition) and floats is not modelled. A non-integer factor is an error here.
- `Reducers.Sum`: addition of floats or strings is not modelled. A non-integer value is an error here.
- ExternalSort is not part of this model. The sort stage is specified by its contract only: a stable ascending sort by the key columns, raising KeyError for a missing key column. Its external-memory algorithm is not modelled.
- `graph_iter_from_file`: file I/O and `print`.
- The text-processing and statistics operators (`FilterPunctuation`, `LowerCase`, `Split`, `Idf`, `Pmi`, `ProcessLength`, `ProcessTime`, `ProcessSpeed`, `TermFrequency`) are not modelled: they need string case folding, punctuation tables, floating point, date parsing and logarithms.
- Input tables are given as a map from names to row sequences. Python takes zero-argument factories; the model does not express that each run calls the factory afresh.
