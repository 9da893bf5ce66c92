/** `itertools.groupby` as Reduce and Join use it: maximal contiguous runs of equal key. */
module Grouping {
  import opened Rows

  /** One run of rows sharing a key: the `(key, group)` pairs that groupby yields. */
  datatype Group = Group(key: Key, rows: seq<Row>)

  function Flatten(gs: seq<Group>): (rows: seq<Row>)
  {
    if gs == [] then [] else gs[0].rows + Flatten(gs[1..])
  }

  lemma {:induction false} FlattenAppend(a: seq<Group>, b: seq<Group>)
    ensures Flatten(a + b) == Flatten(a) + Flatten(b)
  {
    if a == [] {
      assert a + b == b;
    } else {
      assert (a + b)[1..] == a[1..] + b;
      FlattenAppend(a[1..], b);
    }
  }

  /** Every row of every group is a row of the flattened sequence. */
  lemma {:induction false} InFlatten(gs: seq<Group>, i: nat, x: Row)
    requires i < |gs| && x in gs[i].rows
    ensures x in Flatten(gs)
  {
    if i > 0 {
      InFlatten(gs[1..], i - 1, x);
    }
  }

  /** Every row of the flattened sequence comes from some group. */
  lemma {:induction false} InSomeGroup(gs: seq<Group>, x: Row) returns (i: nat)
    requires x in Flatten(gs)
    ensures i < |gs| && x in gs[i].rows
  {
    if x in gs[0].rows {
      i := 0;
    } else {
      var i' := InSomeGroup(gs[1..], x);
      i := i' + 1;
    }
  }

  /** The keys of the groups from index `i` on. */
  function KeysFrom(gs: seq<Group>, i: nat): set<Key> {
    set k | i <= k < |gs| :: gs[k].key
  }

  /** `gs` cuts `rows` into maximal runs of equal key: the groups concatenate back to the
      input, none is empty, each is uniform in key, and neighbouring groups differ in key. */
  ghost predicate IsRunPartition(gs: seq<Group>, rows: seq<Row>, key: Row -> Key) {
    && Flatten(gs) == rows
    && (forall i :: 0 <= i < |gs| ==> gs[i].rows != [])
    && (forall i, r :: 0 <= i < |gs| && r in gs[i].rows ==> key(r) == gs[i].key)
    && (forall i :: 0 <= i < |gs| - 1 ==> gs[i].key != gs[i + 1].key)
  }

  /** The groups of `rows` under `key`, built from the front. */
  function Runs(rows: seq<Row>, key: Row -> Key): (gs: seq<Group>)
    ensures IsRunPartition(gs, rows, key)
    ensures rows != [] ==> gs != [] && gs[0].key == key(rows[0])
    ensures |gs| <= |rows|
  {
    if rows == [] then []
    else
      var k := key(rows[0]);
      var rest := Runs(rows[1..], key);
      assert rows == [rows[0]] + rows[1..];
      if rest != [] && rest[0].key == k then
        ExtendFirstRun(rows[0], rows[1..], rest, key);
        [Group(k, [rows[0]] + rest[0].rows)] + rest[1..]
      else
        StartNewRun(rows[0], rows[1..], rest, key);
        [Group(k, [rows[0]])] + rest
  }

  /** A row with the key of the first run joins that run. */
  lemma ExtendFirstRun(x: Row, tail: seq<Row>, rest: seq<Group>, key: Row -> Key)
    requires IsRunPartition(rest, tail, key) && rest != [] && rest[0].key == key(x)
    ensures IsRunPartition([Group(key(x), [x] + rest[0].rows)] + rest[1..], [x] + tail, key)
  {
    var gs := [Group(key(x), [x] + rest[0].rows)] + rest[1..];
    assert gs[1..] == rest[1..];
    assert Flatten(rest) == rest[0].rows + Flatten(rest[1..]);
    assert forall i :: 1 <= i < |gs| ==> gs[i] == rest[i];
  }

  /** A row with another key than the first run starts a run of its own. */
  lemma StartNewRun(x: Row, tail: seq<Row>, rest: seq<Group>, key: Row -> Key)
    requires IsRunPartition(rest, tail, key) && (rest != [] ==> rest[0].key != key(x))
    ensures IsRunPartition([Group(key(x), [x])] + rest, [x] + tail, key)
  {
    var gs := [Group(key(x), [x])] + rest;
    assert gs[1..] == rest;
  }

  /** The run partition is unique: whatever cuts `rows` into maximal runs is Runs(rows). */
  lemma {:induction false} RunsUnique(gs: seq<Group>, rows: seq<Row>, key: Row -> Key)
    requires IsRunPartition(gs, rows, key)
    ensures gs == Runs(rows, key)
    decreases |rows|
  {
    if rows != [] {
      assert gs != [];
      var g := gs[0];
      assert Flatten(gs) == g.rows + Flatten(gs[1..]);
      assert g.rows[0] == rows[0];
      assert key(rows[0]) == g.key by { assert rows[0] in g.rows; }
      if |g.rows| > 1 {
        var gs' := [Group(g.key, g.rows[1..])] + gs[1..];
        assert gs'[1..] == gs[1..];
        assert Flatten(gs') == g.rows[1..] + Flatten(gs[1..]);
        assert g.rows == [g.rows[0]] + g.rows[1..];
        assert Flatten(gs') == rows[1..];
        forall i, r | 0 <= i < |gs'| && r in gs'[i].rows ensures key(r) == gs'[i].key {
          if i == 0 { assert r in g.rows; } else { assert gs'[i] == gs[i]; }
        }
        forall i | 0 <= i < |gs'| - 1 ensures gs'[i].key != gs'[i + 1].key {
          assert gs'[i + 1] == gs[i + 1];
          if i > 0 { assert gs'[i] == gs[i]; }
        }
        assert forall i :: 1 <= i < |gs'| ==> gs'[i] == gs[i];
        RunsUnique(gs', rows[1..], key);
        assert [rows[0]] + g.rows[1..] == g.rows;
      } else {
        var gs' := gs[1..];
        assert g.rows == [rows[0]];
        assert Flatten(gs') == rows[1..];
        assert forall i :: 0 <= i < |gs'| ==> gs'[i] == gs[i + 1];
        RunsUnique(gs', rows[1..], key);
        assert gs == [g] + gs';
      }
    }
  }

  /** `itertools.groupby(rows, get_value)`: the key of every row is read, so one missing key
      column fails the whole grouping. */
  function GroupBy(rows: seq<Row>, keys: seq<string>): (r: Result<seq<Group>>)
    ensures r.Ok? <==> AllHaveKeys(rows, keys)
    ensures r.Ok? ==> IsRunPartition(r.value, rows, KeyFn(keys))
  {
    if AllHaveKeys(rows, keys) then Ok(Runs(rows, KeyFn(keys))) else Err(MissingKeyError(rows, keys))
  }

  /** Groups never span a change of key: grouping a concatenation whose seam changes key
      groups each part on its own. */
  lemma RunsAppend(a: seq<Row>, b: seq<Row>, key: Row -> Key)
    requires a != [] && b != [] && key(a[|a| - 1]) != key(b[0])
    ensures Runs(a + b, key) == Runs(a, key) + Runs(b, key)
  {
    var ga, gb := Runs(a, key), Runs(b, key);
    LastGroupKey(a, key);
    AppendPartitions(ga, gb, a, b, key);
    RunsUnique(ga + gb, a + b, key);
  }

  /** Two run partitions whose seam changes key together partition the concatenation. */
  lemma AppendPartitions(ga: seq<Group>, gb: seq<Group>, a: seq<Row>, b: seq<Row>, key: Row -> Key)
    requires IsRunPartition(ga, a, key) && IsRunPartition(gb, b, key)
    requires ga != [] && gb != [] ==> ga[|ga| - 1].key != gb[0].key
    ensures IsRunPartition(ga + gb, a + b, key)
  {
    var gs := ga + gb;
    FlattenAppend(ga, gb);
    forall i | 0 <= i < |gs| ensures gs[i].rows != [] {
      if i >= |ga| { assert gs[i] == gb[i - |ga|]; }
    }
    forall i, r | 0 <= i < |gs| && r in gs[i].rows ensures key(r) == gs[i].key {
      if i >= |ga| { assert gs[i] == gb[i - |ga|]; }
    }
    forall i | 0 <= i < |gs| - 1 ensures gs[i].key != gs[i + 1].key {
      if i + 1 < |ga| {
      } else if i + 1 == |ga| {
      } else {
        assert gs[i] == gb[i - |ga|] && gs[i + 1] == gb[i + 1 - |ga|];
      }
    }
  }

  lemma {:induction false} LastGroupKey(rows: seq<Row>, key: Row -> Key)
    requires rows != []
    ensures var gs := Runs(rows, key); gs[|gs| - 1].key == key(rows[|rows| - 1])
  {
    var gs := Runs(rows, key);
    var last := gs[|gs| - 1];
    assert last.rows != [];
    FlattenAppend(gs[..|gs| - 1], [last]);
    assert gs == gs[..|gs| - 1] + [last];
    assert Flatten([last]) == last.rows + Flatten([]);
    assert rows[|rows| - 1] == last.rows[|last.rows| - 1];
    assert rows[|rows| - 1] in last.rows;
  }

  /** Rows whose neighbours always differ in key form one singleton group each. */
  lemma {:induction false} RunsOfDistinctNeighbours(rows: seq<Row>, key: Row -> Key)
    requires forall i :: 0 <= i < |rows| - 1 ==> key(rows[i]) != key(rows[i + 1])
    ensures |Runs(rows, key)| == |rows|
    ensures forall i :: 0 <= i < |rows| ==> Runs(rows, key)[i] == Group(key(rows[i]), [rows[i]])
  {
    if rows != [] {
      RunsOfDistinctNeighbours(rows[1..], key);
      var rest := Runs(rows[1..], key);
      if rest != [] {
        assert rest[0].key == key(rows[1]);
      }
    }
  }

  /** The groups' keys are exactly the keys of the rows. */
  lemma RunKeys(rows: seq<Row>, key: Row -> Key)
    ensures KeysFrom(Runs(rows, key), 0) == set r | r in rows :: key(r)
  {
    var gs := Runs(rows, key);
    forall k | k in KeysFrom(gs, 0) ensures k in set r | r in rows :: key(r) {
      var a :| 0 <= a < |gs| && gs[a].key == k;
      InFlatten(gs, a, gs[a].rows[0]);
    }
    forall r | r in rows ensures key(r) in KeysFrom(gs, 0) {
      var a := InSomeGroup(gs, r);
    }
  }
}
