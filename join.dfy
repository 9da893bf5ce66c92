/** The Join operation: two cursors walk the groups of the left and the right stream, which
    groupby cuts by the same key columns, and hand each pair of groups to a joiner.

    Trace is the sequence of joiner calls the loops of Join make, exactly as written. Ideal is
    the textbook merge of two ascending group sequences, which calls the joiner once for every
    group. They agree whenever the key set of one side contains the other's; otherwise Join can
    drop groups, as LostGroupExample and MissedMatchExample show. */
module SortMergeJoin {
  import opened Rows
  import opened Grouping
  import opened Joiners
  import Sorting

  /** The `less` helper of Join: an exhausted side (None) compares above every key. */
  predicate Less(a: Option<Key>, b: Option<Key>) {
    if a.None? then false else if b.None? then true else KeyLess(a.value, b.value)
  }

  /** The key of the group a cursor stands on; None once the side is exhausted. */
  function Cur(gs: seq<Group>, i: nat): Option<Key> {
    if i < |gs| then Some(gs[i].key) else None
  }

  /** `next(iterator, (None, None))`: an exhausted side stays exhausted. */
  function Next(gs: seq<Group>, i: nat): nat {
    if i < |gs| then i + 1 else i
  }

  /** One joiner call, by the index of the left and of the right group it is given; None
      stands for a None group. */
  datatype Call = Call(left: Option<nat>, right: Option<nat>)

  /** Which of the two inner loops of Join the cursors are in. */
  datatype Phase = AdvanceLeft | AdvanceRight

  /** A call the joiner can be given: at least one group, indices in range, and two groups
      only when their keys agree. */
  predicate ValidCall(ls: seq<Group>, rs: seq<Group>, c: Call) {
    && (c.left.Some? || c.right.Some?)
    && (c.left.Some? ==> c.left.value < |ls|)
    && (c.right.Some? ==> c.right.value < |rs|)
    && (c.left.Some? && c.right.Some? ==> ls[c.left.value].key == rs[c.right.value].key)
  }

  /** The joiner calls of Join's loops from cursors `i` and `j` on. In phase AdvanceLeft the
      left loop may still run; once the right loop has run, the left loop is not tried again
      before the match test, and both cursors then move on, matched or not. */
  function Trace(ls: seq<Group>, rs: seq<Group>, i: nat, j: nat, phase: Phase): (calls: seq<Call>)
    requires i <= |ls| && j <= |rs|
    ensures forall k :: 0 <= k < |calls| ==> ValidCall(ls, rs, calls[k])
    decreases |ls| - i + |rs| - j, if phase == AdvanceLeft then 1 else 0
  {
    if phase == AdvanceLeft && Less(Cur(ls, i), Cur(rs, j)) then
      [Call(Some(i), None)] + Trace(ls, rs, i + 1, j, AdvanceLeft)
    else if Less(Cur(rs, j), Cur(ls, i)) then
      [Call(None, Some(j))] + Trace(ls, rs, i, j + 1, AdvanceRight)
    else if i == |ls| && j == |rs| then []
    else
      (if Cur(ls, i) == Cur(rs, j) then [Call(Some(i), Some(j))] else [])
      + Trace(ls, rs, Next(ls, i), Next(rs, j), AdvanceLeft)
  }

  /** The numbers `a` up to `b - 1` in order. */
  function Range(a: nat, b: nat): (r: seq<nat>)
    ensures |r| == if a < b then b - a else 0
    decreases b - a
  {
    if a >= b then [] else [a] + Range(a + 1, b)
  }

  /** The left group indices of a call sequence, in call order. */
  function LeftIndices(calls: seq<Call>): seq<nat> {
    if calls == [] then []
    else (if calls[0].left.Some? then [calls[0].left.value] else []) + LeftIndices(calls[1..])
  }

  /** The right group indices of a call sequence, in call order. */
  function RightIndices(calls: seq<Call>): seq<nat> {
    if calls == [] then []
    else (if calls[0].right.Some? then [calls[0].right.value] else []) + RightIndices(calls[1..])
  }

  lemma IndicesCons(c: Call, rest: seq<Call>)
    ensures LeftIndices([c] + rest) == (if c.left.Some? then [c.left.value] else []) + LeftIndices(rest)
    ensures RightIndices([c] + rest) == (if c.right.Some? then [c.right.value] else []) + RightIndices(rest)
  {
    assert ([c] + rest)[1..] == rest;
  }

  /** Putting a valid call for groups `i` and `j` in front of calls that cover the groups
      after them covers the groups from `i` and from `j` on. */
  lemma CoverCons(ls: seq<Group>, rs: seq<Group>, c: Call, rest: seq<Call>, i: nat, j: nat)
    requires ValidCall(ls, rs, c) && forall k :: 0 <= k < |rest| ==> ValidCall(ls, rs, rest[k])
    requires c.left.Some? ==> c.left.value == i
    requires c.right.Some? ==> c.right.value == j
    requires c.left.None? ==> i <= |ls|
    requires c.right.None? ==> j <= |rs|
    requires LeftIndices(rest) == Range(if c.left.Some? then i + 1 else i, |ls|)
    requires RightIndices(rest) == Range(if c.right.Some? then j + 1 else j, |rs|)
    ensures forall k :: 0 <= k < |[c] + rest| ==> ValidCall(ls, rs, ([c] + rest)[k])
    ensures LeftIndices([c] + rest) == Range(i, |ls|)
    ensures RightIndices([c] + rest) == Range(j, |rs|)
  {
    IndicesCons(c, rest);
    forall k | 0 <= k < |[c] + rest| ensures ValidCall(ls, rs, ([c] + rest)[k]) {
      if k > 0 {
        assert ([c] + rest)[k] == rest[k - 1];
      }
    }
    if c.left.None? {
      assert [] + LeftIndices(rest) == LeftIndices(rest);
    }
    if c.right.None? {
      assert [] + RightIndices(rest) == RightIndices(rest);
    }
  }

  /** The textbook sort-merge: the smaller key goes first, equal keys go together. */
  function Ideal(ls: seq<Group>, rs: seq<Group>, i: nat, j: nat): seq<Call>
    requires i <= |ls| && j <= |rs|
    decreases |ls| - i + |rs| - j
  {
    if Less(Cur(ls, i), Cur(rs, j)) then [Call(Some(i), None)] + Ideal(ls, rs, i + 1, j)
    else if Less(Cur(rs, j), Cur(ls, i)) then [Call(None, Some(j))] + Ideal(ls, rs, i, j + 1)
    else if i == |ls| && j == |rs| then []
    else [Call(Some(i), Some(j))] + Ideal(ls, rs, i + 1, j + 1)
  }

  /** The textbook merge calls the joiner exactly once for every group of either side, in
      order, and pairs two groups only when their keys agree. */
  lemma {:induction false} IdealCovers(ls: seq<Group>, rs: seq<Group>, i: nat, j: nat)
    requires i <= |ls| && j <= |rs|
    ensures forall k :: 0 <= k < |Ideal(ls, rs, i, j)| ==> ValidCall(ls, rs, Ideal(ls, rs, i, j)[k])
    ensures LeftIndices(Ideal(ls, rs, i, j)) == Range(i, |ls|)
    ensures RightIndices(Ideal(ls, rs, i, j)) == Range(j, |rs|)
    decreases |ls| - i + |rs| - j
  {
    if Less(Cur(ls, i), Cur(rs, j)) {
      IdealCovers(ls, rs, i + 1, j);
      CoverCons(ls, rs, Call(Some(i), None), Ideal(ls, rs, i + 1, j), i, j);
    } else if Less(Cur(rs, j), Cur(ls, i)) {
      IdealCovers(ls, rs, i, j + 1);
      CoverCons(ls, rs, Call(None, Some(j)), Ideal(ls, rs, i, j + 1), i, j);
    } else if i < |ls| || j < |rs| {
      assert i < |ls| && j < |rs|;
      KeyLessTrichotomous(ls[i].key, rs[j].key);
      IdealCovers(ls, rs, i + 1, j + 1);
      CoverCons(ls, rs, Call(Some(i), Some(j)), Ideal(ls, rs, i + 1, j + 1), i, j);
    }
  }

  /** The group a call passes for one side. */
  function GroupAt(gs: seq<Group>, index: Option<nat>): Option<seq<Row>> {
    if index.Some? && index.value < |gs| then Some(gs[index.value].rows) else None
  }

  /** The output of a sequence of joiner calls: their outputs in order; the first failing call
      ends the stream. */
  function Emit(joiner: Joiner, keys: seq<string>, ls: seq<Group>, rs: seq<Group>, calls: seq<Call>): (r: Result<seq<Row>>)
    ensures r.Ok? <==> forall k :: 0 <= k < |calls| ==>
      joiner(keys, GroupAt(ls, calls[k].left), GroupAt(rs, calls[k].right)).Ok?
  {
    if calls == [] then Ok([])
    else
      var rest := Emit(joiner, keys, ls, rs, calls[1..]);
      assert forall k :: 1 <= k < |calls| ==> calls[k] == calls[1..][k - 1];
      Then(joiner(keys, GroupAt(ls, calls[0].left), GroupAt(rs, calls[0].right)), rest)
  }

  lemma EmitCons(joiner: Joiner, keys: seq<string>, ls: seq<Group>, rs: seq<Group>, c: Call, rest: seq<Call>)
    ensures Emit(joiner, keys, ls, rs, [c] + rest)
         == Then(joiner(keys, GroupAt(ls, c.left), GroupAt(rs, c.right)), Emit(joiner, keys, ls, rs, rest))
  {
    assert ([c] + rest)[1..] == rest;
  }

  /** Join's output for a left and a right stream: both are grouped by the key columns (a row
      lacking one raises), then the joiner calls of Trace run from the first groups on. */
  function Joined(joiner: Joiner, keys: seq<string>, left: seq<Row>, right: seq<Row>): (r: Result<seq<Row>>)
    ensures !AllHaveKeys(left, keys) || !AllHaveKeys(right, keys) ==> r.Err? && r.error.MissingColumn?
  {
    match GroupBy(left, keys)
    case Err(e) => Err(e)
    case Ok(ls) =>
      match GroupBy(right, keys)
      case Err(e) => Err(e)
      case Ok(rs) => Emit(joiner, keys, ls, rs, Trace(ls, rs, 0, 0, AdvanceLeft))
  }

  /** Emitting a call after output `out`: a failing call ends the stream with its error,
      otherwise its rows are appended. */
  lemma EmitStep(joiner: Joiner, keys: seq<string>, ls: seq<Group>, rs: seq<Group>, out: seq<Row>, c: Call, rest: seq<Call>)
    ensures var part := joiner(keys, GroupAt(ls, c.left), GroupAt(rs, c.right));
      var whole := Then(Ok(out), Emit(joiner, keys, ls, rs, [c] + rest));
      && (part.Err? ==> whole == Err(part.error))
      && (part.Ok? ==> whole == Then(Ok(out + part.value), Emit(joiner, keys, ls, rs, rest)))
  {
    EmitCons(joiner, keys, ls, rs, c, rest);
    var part := joiner(keys, GroupAt(ls, c.left), GroupAt(rs, c.right));
    if part.Ok? {
      ThenPrefix(out, part.value, Emit(joiner, keys, ls, rs, rest));
    }
  }

  /** The left loop of Join: yield every left group whose key is below the right one. On
      success `o` is the output so far and `i'` the left cursor where the loop stops. */
  method LeftRun(joiner: Joiner, keys: seq<string>, ls: seq<Group>, rs: seq<Group>, out: seq<Row>, i: nat, j: nat)
    returns (o: Result<seq<Row>>, i': nat)
    requires i <= |ls| && j <= |rs|
    ensures i <= i' <= |ls|
    ensures o.Ok? ==> !Less(Cur(ls, i'), Cur(rs, j))
    ensures Then(Ok(out), Remaining(joiner, keys, ls, rs, i, j, AdvanceLeft))
         == if o.Ok? then Then(o, Remaining(joiner, keys, ls, rs, i', j, AdvanceLeft)) else o
  {
    var acc := out;
    i' := i;
    while Less(Cur(ls, i'), Cur(rs, j))
      invariant i <= i' <= |ls|
      invariant Then(Ok(out), Remaining(joiner, keys, ls, rs, i, j, AdvanceLeft))
             == Then(Ok(acc), Remaining(joiner, keys, ls, rs, i', j, AdvanceLeft))
      decreases |ls| - i'
    {
      LeftStep(joiner, keys, ls, rs, acc, i', j);
      var part := joiner(keys, Some(ls[i'].rows), None);
      if part.Err? {
        return Err(part.error), i';
      }
      acc := acc + part.value;
      i' := i' + 1;
    }
    o := Ok(acc);
  }

  /** The right loop of Join: yield every right group whose key is below the left one. */
  method RightRun(joiner: Joiner, keys: seq<string>, ls: seq<Group>, rs: seq<Group>, out: seq<Row>, i: nat, j: nat)
    returns (o: Result<seq<Row>>, j': nat)
    requires i <= |ls| && j <= |rs|
    ensures j <= j' <= |rs|
    ensures o.Ok? ==> !Less(Cur(rs, j'), Cur(ls, i))
    ensures Then(Ok(out), Remaining(joiner, keys, ls, rs, i, j, AdvanceRight))
         == if o.Ok? then Then(o, Remaining(joiner, keys, ls, rs, i, j', AdvanceRight)) else o
  {
    var acc := out;
    j' := j;
    while Less(Cur(rs, j'), Cur(ls, i))
      invariant j <= j' <= |rs|
      invariant Then(Ok(out), Remaining(joiner, keys, ls, rs, i, j, AdvanceRight))
             == Then(Ok(acc), Remaining(joiner, keys, ls, rs, i, j', AdvanceRight))
      decreases |rs| - j'
    {
      RightStep(joiner, keys, ls, rs, acc, i, j');
      var part := joiner(keys, None, Some(rs[j'].rows));
      if part.Err? {
        return Err(part.error), j';
      }
      acc := acc + part.value;
      j' := j' + 1;
    }
    o := Ok(acc);
  }

  /** Join's loops: fetch a group from each side, let the left cursor catch up, then the right
      one, stop when both sides are exhausted, and join the two groups if their keys agree.
      The two `next` calls that open each pass are the cursor moves at the end of the previous
      pass (and the initial cursors 0, 0). */
  /** The output of the joiner calls still to come from cursors `i` and `j` in `phase`. */
  function Remaining(joiner: Joiner, keys: seq<string>, ls: seq<Group>, rs: seq<Group>, i: nat, j: nat, phase: Phase): Result<seq<Row>>
    requires i <= |ls| && j <= |rs|
  {
    Emit(joiner, keys, ls, rs, Trace(ls, rs, i, j, phase))
  }

  /** The left loop's step: a left group on its own. */
  lemma LeftStep(joiner: Joiner, keys: seq<string>, ls: seq<Group>, rs: seq<Group>, out: seq<Row>, i: nat, j: nat)
    requires i <= |ls| && j <= |rs| && Less(Cur(ls, i), Cur(rs, j))
    ensures i < |ls|
    ensures var part := joiner(keys, Some(ls[i].rows), None);
      var whole := Then(Ok(out), Remaining(joiner, keys, ls, rs, i, j, AdvanceLeft));
      && (part.Err? ==> whole == Err(part.error))
      && (part.Ok? ==> whole == Then(Ok(out + part.value), Remaining(joiner, keys, ls, rs, i + 1, j, AdvanceLeft)))
  {
    EmitStep(joiner, keys, ls, rs, out, Call(Some(i), None), Trace(ls, rs, i + 1, j, AdvanceLeft));
  }

  /** The right loop's step: a right group on its own. */
  lemma RightStep(joiner: Joiner, keys: seq<string>, ls: seq<Group>, rs: seq<Group>, out: seq<Row>, i: nat, j: nat)
    requires i <= |ls| && j <= |rs| && Less(Cur(rs, j), Cur(ls, i))
    ensures j < |rs|
    ensures var part := joiner(keys, None, Some(rs[j].rows));
      var whole := Then(Ok(out), Remaining(joiner, keys, ls, rs, i, j, AdvanceRight));
      && (part.Err? ==> whole == Err(part.error))
      && (part.Ok? ==> whole == Then(Ok(out + part.value), Remaining(joiner, keys, ls, rs, i, j + 1, AdvanceRight)))
  {
    EmitStep(joiner, keys, ls, rs, out, Call(None, Some(j)), Trace(ls, rs, i, j + 1, AdvanceRight));
  }

  /** The end of a pass: both cursors move on, after joining the two groups if their keys
      agree. */
  lemma MatchStep(joiner: Joiner, keys: seq<string>, ls: seq<Group>, rs: seq<Group>, out: seq<Row>, i: nat, j: nat)
    requires i <= |ls| && j <= |rs| && !Less(Cur(rs, j), Cur(ls, i))
    requires i < |ls| || j < |rs|
    ensures Cur(ls, i) == Cur(rs, j) ==> i < |ls| && j < |rs|
    ensures var whole := Then(Ok(out), Remaining(joiner, keys, ls, rs, i, j, AdvanceRight));
      var rest := Remaining(joiner, keys, ls, rs, Next(ls, i), Next(rs, j), AdvanceLeft);
      if Cur(ls, i) == Cur(rs, j) then
        var part := joiner(keys, Some(ls[i].rows), Some(rs[j].rows));
        && (part.Err? ==> whole == Err(part.error))
        && (part.Ok? ==> whole == Then(Ok(out + part.value), rest))
      else whole == Then(Ok(out), rest)
  {
    var rest := Trace(ls, rs, Next(ls, i), Next(rs, j), AdvanceLeft);
    if Cur(ls, i) == Cur(rs, j) {
      EmitStep(joiner, keys, ls, rs, out, Call(Some(i), Some(j)), rest);
    } else {
      assert Trace(ls, rs, i, j, AdvanceRight) == [] + rest;
      assert [] + rest == rest;
    }
  }

  /** The left loop has stopped: the right loop starts from the same calls. */
  lemma PhaseSwitch(joiner: Joiner, keys: seq<string>, ls: seq<Group>, rs: seq<Group>, i: nat, j: nat)
    requires i <= |ls| && j <= |rs| && !Less(Cur(ls, i), Cur(rs, j))
    ensures Remaining(joiner, keys, ls, rs, i, j, AdvanceLeft) == Remaining(joiner, keys, ls, rs, i, j, AdvanceRight)
  {
    assert Trace(ls, rs, i, j, AdvanceLeft) == Trace(ls, rs, i, j, AdvanceRight);
  }

  /** Both sides exhausted: no more calls. */
  lemma DoneStep(joiner: Joiner, keys: seq<string>, ls: seq<Group>, rs: seq<Group>, out: seq<Row>, phase: Phase)
    ensures Then(Ok(out), Remaining(joiner, keys, ls, rs, |ls|, |rs|, phase)) == Ok(out)
  {
    assert out + [] == out;
  }

  method Join(joiner: Joiner, keys: seq<string>, left: seq<Row>, right: seq<Row>) returns (r: Result<seq<Row>>)
    ensures r == Joined(joiner, keys, left, right)
  {
    var lg := GroupBy(left, keys);
    if lg.Err? {
      return Err(lg.error);
    }
    var rg := GroupBy(right, keys);
    if rg.Err? {
      return Err(rg.error);
    }
    var ls, rs := lg.value, rg.value;
    var out: seq<Row> := [];
    var i: nat, j: nat := 0, 0;
    ghost var all := Emit(joiner, keys, ls, rs, Trace(ls, rs, 0, 0, AdvanceLeft));
    assert Joined(joiner, keys, left, right) == all;
    if all.Ok? {
      assert out + all.value == all.value;
    }
    while true
      invariant i <= |ls| && j <= |rs|
      invariant all == Then(Ok(out), Remaining(joiner, keys, ls, rs, i, j, AdvanceLeft))
      decreases |ls| - i + |rs| - j
    {
      var o;
      o, i := LeftRun(joiner, keys, ls, rs, out, i, j);
      if o.Err? {
        return o;
      }
      out := o.value;
      PhaseSwitch(joiner, keys, ls, rs, i, j);
      o, j := RightRun(joiner, keys, ls, rs, out, i, j);
      if o.Err? {
        return o;
      }
      out := o.value;
      if i == |ls| && j == |rs| {
        DoneStep(joiner, keys, ls, rs, out, AdvanceRight);
        break;
      }
      MatchStep(joiner, keys, ls, rs, out, i, j);
      if Cur(ls, i) == Cur(rs, j) {
        var part := joiner(keys, Some(ls[i].rows), Some(rs[j].rows));
        if part.Err? {
          return Err(part.error);
        }
        out := out + part.value;
      }
      i, j := Next(ls, i), Next(rs, j);
    }
    r := Ok(out);
  }

  // ---------------------------------------------------------------------------
  // Properties of the call sequence

  /** Strictly ascending group keys: what groupby yields on input sorted by the key columns. */
  predicate Ascending(gs: seq<Group>) {
    forall a, b :: 0 <= a < b < |gs| ==> KeyLess(gs[a].key, gs[b].key)
  }

  /** Input sorted ascending by key is cut into groups of strictly ascending key. */
  lemma {:induction false} SortedRunsAscending(rows: seq<Row>, key: Row -> Key)
    requires Sorting.Sorted(rows, key, false)
    ensures Ascending(Runs(rows, key))
    decreases |rows|
  {
    if rows != [] {
      var tail := rows[1..];
      assert Sorting.Sorted(tail, key, false) by {
        forall a, b | 0 <= a < b < |tail| ensures !Sorting.Before(key(tail[b]), key(tail[a]), false) {
          assert tail[a] == rows[a + 1] && tail[b] == rows[b + 1];
        }
      }
      SortedRunsAscending(tail, key);
      KeyLessStrictTotal();
      var rest := Runs(tail, key);
      var gs := Runs(rows, key);
      var k := key(rows[0]);
      if rest != [] && rest[0].key == k {
        assert forall a :: 0 <= a < |gs| ==> gs[a].key == rest[a].key;
      } else if rest != [] {
        assert !KeyLess(key(rows[1]), k);
        assert KeyLess(k, rest[0].key);
        forall a, b | 0 <= a < b < |gs| ensures KeyLess(gs[a].key, gs[b].key) {
          assert gs[b] == rest[b - 1];
          if a > 0 {
            assert gs[a] == rest[a - 1];
          } else if b > 1 {
            assert KeyLess(rest[0].key, rest[b - 1].key);
          }
        }
      }
    }
  }

  /** One step of both call sequences when the left group's key is the smaller. */
  lemma StepLeft(ls: seq<Group>, rs: seq<Group>, i: nat, j: nat)
    requires i <= |ls| && j <= |rs| && Less(Cur(ls, i), Cur(rs, j))
    ensures i < |ls|
    ensures Trace(ls, rs, i, j, AdvanceLeft) == [Call(Some(i), None)] + Trace(ls, rs, i + 1, j, AdvanceLeft)
    ensures Ideal(ls, rs, i, j) == [Call(Some(i), None)] + Ideal(ls, rs, i + 1, j)
  {
  }

  /** One step of both call sequences when the right group's key is the smaller. */
  lemma StepRight(ls: seq<Group>, rs: seq<Group>, i: nat, j: nat, phase: Phase)
    requires i <= |ls| && j <= |rs| && Less(Cur(rs, j), Cur(ls, i))
    requires phase == AdvanceLeft ==> !Less(Cur(ls, i), Cur(rs, j))
    ensures j < |rs|
    ensures Trace(ls, rs, i, j, phase) == [Call(None, Some(j))] + Trace(ls, rs, i, j + 1, AdvanceRight)
    ensures Ideal(ls, rs, i, j) == [Call(None, Some(j))] + Ideal(ls, rs, i, j + 1)
  {
    if i < |ls| {
      KeyLessAsymmetric(rs[j].key, ls[i].key);
    }
  }

  /** One step of both call sequences when the two groups share their key. */
  lemma StepBoth(ls: seq<Group>, rs: seq<Group>, i: nat, j: nat, phase: Phase)
    requires i < |ls| && j < |rs| && ls[i].key == rs[j].key
    ensures Trace(ls, rs, i, j, phase) == [Call(Some(i), Some(j))] + Trace(ls, rs, i + 1, j + 1, AdvanceLeft)
    ensures Ideal(ls, rs, i, j) == [Call(Some(i), Some(j))] + Ideal(ls, rs, i + 1, j + 1)
  {
    KeyLessIrreflexive(ls[i].key);
  }

  /** Past a left group whose key is below the current right key, the right keys are still
      all left keys. */
  lemma RightSubsetPastLeft(ls: seq<Group>, rs: seq<Group>, i: nat, j: nat)
    requires i < |ls| && j <= |rs| && Ascending(rs)
    requires KeysFrom(rs, j) <= KeysFrom(ls, i) && Less(Cur(ls, i), Cur(rs, j))
    ensures KeysFrom(rs, j) <= KeysFrom(ls, i + 1)
  {
    forall k | k in KeysFrom(rs, j) ensures k in KeysFrom(ls, i + 1) {
      var b :| j <= b < |rs| && rs[b].key == k;
      if b > j {
        KeyLessStrictTotal();
        assert KeyLess(rs[j].key, rs[b].key);
      } else {
        KeyLessIrreflexive(k);
      }
      assert k != ls[i].key;
    }
  }

  /** When neither current key is below the other, both sides still have a group, the keys
      agree, and past them the right keys are still all left keys. */
  lemma RightSubsetPastBoth(ls: seq<Group>, rs: seq<Group>, i: nat, j: nat)
    requires i <= |ls| && j <= |rs| && Ascending(ls) && Ascending(rs)
    requires KeysFrom(rs, j) <= KeysFrom(ls, i)
    requires !Less(Cur(ls, i), Cur(rs, j)) && !Less(Cur(rs, j), Cur(ls, i)) && (i < |ls| || j < |rs|)
    ensures i < |ls| && j < |rs| && ls[i].key == rs[j].key
    ensures KeysFrom(rs, j + 1) <= KeysFrom(ls, i + 1)
  {
    KeyLessTrichotomous(ls[i].key, rs[j].key);
    var i', j' := i + 1, j + 1;
    forall k | k in KeysFrom(rs, j') ensures k in KeysFrom(ls, i') {
      var b :| j' <= b < |rs| && rs[b].key == k;
      assert KeyLess(rs[j].key, k);
      assert k in KeysFrom(ls, i);
      var a :| i <= a < |ls| && ls[a].key == k;
      KeyLessIrreflexive(k);
      assert a != i;
    }
  }

  /** When every right key is also a left key, the loops of Join make exactly the calls of the
      textbook merge: no group is lost. */
  lemma {:induction false} TraceIdealRightSubset(ls: seq<Group>, rs: seq<Group>, i: nat, j: nat)
    requires i <= |ls| && j <= |rs| && Ascending(ls) && Ascending(rs)
    requires KeysFrom(rs, j) <= KeysFrom(ls, i)
    ensures Trace(ls, rs, i, j, AdvanceLeft) == Ideal(ls, rs, i, j)
    decreases |ls| - i + |rs| - j
  {
    if j < |rs| {
      assert rs[j].key in KeysFrom(rs, j);
      NotBelow(ls, i, rs[j].key);
    }
    if Less(Cur(ls, i), Cur(rs, j)) {
      RightSubsetPastLeft(ls, rs, i, j);
      TraceIdealRightSubset(ls, rs, i + 1, j);
      StepLeft(ls, rs, i, j);
    } else if Less(Cur(rs, j), Cur(ls, i)) {
      assert false;
    } else if i < |ls| || j < |rs| {
      RightSubsetPastBoth(ls, rs, i, j);
      TraceIdealRightSubset(ls, rs, i + 1, j + 1);
      StepBoth(ls, rs, i, j, AdvanceLeft);
    }
  }

  /** Past a right group whose key is below the current left key, the left keys are still
      all right keys. */
  lemma LeftSubsetPastRight(ls: seq<Group>, rs: seq<Group>, i: nat, j: nat)
    requires i <= |ls| && j < |rs| && Ascending(ls)
    requires KeysFrom(ls, i) <= KeysFrom(rs, j) && Less(Cur(rs, j), Cur(ls, i))
    ensures KeysFrom(ls, i) <= KeysFrom(rs, j + 1)
  {
    forall k | k in KeysFrom(ls, i) ensures k in KeysFrom(rs, j + 1) {
      var a :| i <= a < |ls| && ls[a].key == k;
      if a > i {
        KeyLessStrictTotal();
        assert KeyLess(ls[i].key, ls[a].key);
      } else {
        KeyLessIrreflexive(k);
      }
      assert k != rs[j].key;
    }
  }

  /** When neither current key is below the other, both sides still have a group, the keys
      agree, and past them the left keys are still all right keys. */
  lemma LeftSubsetPastBoth(ls: seq<Group>, rs: seq<Group>, i: nat, j: nat)
    requires i <= |ls| && j <= |rs| && Ascending(ls) && Ascending(rs)
    requires KeysFrom(ls, i) <= KeysFrom(rs, j)
    requires !Less(Cur(ls, i), Cur(rs, j)) && !Less(Cur(rs, j), Cur(ls, i)) && (i < |ls| || j < |rs|)
    ensures i < |ls| && j < |rs| && ls[i].key == rs[j].key
    ensures KeysFrom(ls, i + 1) <= KeysFrom(rs, j + 1)
  {
    if i < |ls| {
      assert ls[i].key in KeysFrom(rs, j);
    }
    KeyLessTrichotomous(ls[i].key, rs[j].key);
    var i', j' := i + 1, j + 1;
    forall k | k in KeysFrom(ls, i') ensures k in KeysFrom(rs, j') {
      var a :| i' <= a < |ls| && ls[a].key == k;
      assert KeyLess(ls[i].key, k);
      assert k in KeysFrom(rs, j);
      var b :| j <= b < |rs| && rs[b].key == k;
      KeyLessIrreflexive(k);
      assert b != j;
    }
  }

  /** When every left key is also a right key, the loops of Join make exactly the calls of the
      textbook merge, whichever loop the cursors are in. */
  lemma {:induction false} TraceIdealLeftSubset(ls: seq<Group>, rs: seq<Group>, i: nat, j: nat, phase: Phase)
    requires i <= |ls| && j <= |rs| && Ascending(ls) && Ascending(rs)
    requires KeysFrom(ls, i) <= KeysFrom(rs, j)
    ensures Trace(ls, rs, i, j, phase) == Ideal(ls, rs, i, j)
    decreases |ls| - i + |rs| - j
  {
    if i < |ls| {
      assert ls[i].key in KeysFrom(ls, i);
      NotBelow(rs, j, ls[i].key);
    }
    if Less(Cur(ls, i), Cur(rs, j)) {
      assert false;
    } else if Less(Cur(rs, j), Cur(ls, i)) {
      LeftSubsetPastRight(ls, rs, i, j);
      TraceIdealLeftSubset(ls, rs, i, j + 1, AdvanceRight);
      StepRight(ls, rs, i, j, phase);
    } else if i < |ls| || j < |rs| {
      LeftSubsetPastBoth(ls, rs, i, j);
      TraceIdealLeftSubset(ls, rs, i + 1, j + 1, AdvanceLeft);
      StepBoth(ls, rs, i, j, phase);
    }
  }

  /** A key strictly below another is not equal to that key or to any key above it. */
  lemma BelowDistinct(x: Key, y: Key, z: Key)
    requires KeyLess(x, y) && (y == z || KeyLess(y, z))
    ensures x != z
  {
    KeyLessStrictTotal();
  }

  /** On ascending groups the textbook merge pairs every left group with the right group of
      the same key. */
  lemma {:induction false} IdealPairsEqualKeys(ls: seq<Group>, rs: seq<Group>, i: nat, j: nat, a: nat, b: nat)
    requires i <= |ls| && j <= |rs| && Ascending(ls) && Ascending(rs)
    requires i <= a < |ls| && j <= b < |rs| && ls[a].key == rs[b].key
    ensures Call(Some(a), Some(b)) in Ideal(ls, rs, i, j)
    decreases |ls| - i + |rs| - j
  {
    if Less(Cur(ls, i), Cur(rs, j)) {
      BelowDistinct(ls[i].key, rs[j].key, rs[b].key);
      IdealPairsEqualKeys(ls, rs, i + 1, j, a, b);
      StepLeft(ls, rs, i, j);
    } else if Less(Cur(rs, j), Cur(ls, i)) {
      BelowDistinct(rs[j].key, ls[i].key, ls[a].key);
      IdealPairsEqualKeys(ls, rs, i, j + 1, a, b);
      StepRight(ls, rs, i, j, AdvanceRight);
    } else {
      KeyLessTrichotomous(ls[i].key, rs[j].key);
      StepBoth(ls, rs, i, j, AdvanceLeft);
      if a == i {
        KeyLessIrreflexive(rs[j].key);
        assert b == j;
      } else {
        KeyLessIrreflexive(ls[i].key);
        assert b != j;
        IdealPairsEqualKeys(ls, rs, i + 1, j + 1, a, b);
      }
    }
  }

  /** The keys of a group sequence, in order. */
  function KeySeq(gs: seq<Group>): (ks: seq<Key>)
    ensures |ks| == |gs| && forall k :: 0 <= k < |gs| ==> ks[k] == gs[k].key
  {
    if gs == [] then [] else [gs[0].key] + KeySeq(gs[1..])
  }

  /** In an ascending sequence every later key is above the first. */
  lemma MinKey(gs: seq<Group>, i: nat)
    requires Ascending(gs) && i < |gs|
    ensures forall k :: k in KeysFrom(gs, i) ==> k == gs[i].key || KeyLess(gs[i].key, k)
  {
  }

  /** A key of the groups from `i` on is not below the group at `i`. */
  lemma NotBelow(gs: seq<Group>, i: nat, k: Key)
    requires Ascending(gs) && i <= |gs| && k in KeysFrom(gs, i)
    ensures !Less(Some(k), Cur(gs, i))
  {
    MinKey(gs, i);
    KeyLessStrictTotal();
  }

  /** In an ascending sequence the first key does not come back. */
  lemma KeysFromTail(gs: seq<Group>, i: nat)
    requires Ascending(gs) && i < |gs|
    ensures KeysFrom(gs, i + 1) == KeysFrom(gs, i) - {gs[i].key}
  {
    KeyLessStrictTotal();
    assert forall c :: i < c < |gs| ==> KeyLess(gs[i].key, gs[c].key);
  }

  /** Ascending group sequences with the same key set have the same keys in the same order. */
  lemma {:induction false} SameKeysFrom(ls: seq<Group>, rs: seq<Group>, i: nat, j: nat)
    requires i <= |ls| && j <= |rs| && Ascending(ls) && Ascending(rs)
    requires KeysFrom(ls, i) == KeysFrom(rs, j)
    ensures KeySeq(ls[i..]) == KeySeq(rs[j..])
    decreases |ls| - i
  {
    if i < |ls| {
      assert ls[i].key in KeysFrom(ls, i);
    }
    if j < |rs| {
      assert rs[j].key in KeysFrom(rs, j);
    }
    if i < |ls| {
      MinKey(ls, i);
      MinKey(rs, j);
      KeyLessStrictTotal();
      assert ls[i].key == rs[j].key;
      var i', j' := i + 1, j + 1;
      KeysFromTail(ls, i);
      KeysFromTail(rs, j);
      SameKeysFrom(ls, rs, i', j');
      assert ls[i..][1..] == ls[i'..] && rs[j..][1..] == rs[j'..];
    }
  }

  /** Joiner calls pairing group `a` with group `a` for every `a` from `from` on. */
  function Diagonal(from: nat, n: nat): (calls: seq<Call>)
    ensures |calls| == if from < n then n - from else 0
    ensures forall k :: 0 <= k < |calls| ==> calls[k] == Call(Some(from + k), Some(from + k))
    decreases n - from
  {
    if from >= n then [] else [Call(Some(from), Some(from))] + Diagonal(from + 1, n)
  }

  /** Two sides with the same keys in the same order: one call per key, both groups given. */
  lemma {:induction false} TraceDiagonal(ls: seq<Group>, rs: seq<Group>, i: nat)
    requires |ls| == |rs| && i <= |ls|
    requires forall k :: 0 <= k < |ls| ==> ls[k].key == rs[k].key
    ensures Trace(ls, rs, i, i, AdvanceLeft) == Diagonal(i, |ls|)
    decreases |ls| - i
  {
    if i < |ls| {
      StepBoth(ls, rs, i, i, AdvanceLeft);
      TraceDiagonal(ls, rs, i + 1);
    }
  }

  /** Join of two inputs sorted by the key columns that hold the same keys: the joiner is
      called once per key, in ascending key order, with both groups of that key. */
  lemma JoinedSameKeys(joiner: Joiner, keys: seq<string>, left: seq<Row>, right: seq<Row>)
    requires AllHaveKeys(left, keys) && AllHaveKeys(right, keys)
    requires Sorting.Sorted(left, KeyFn(keys), false) && Sorting.Sorted(right, KeyFn(keys), false)
    requires (set r | r in left :: KeyValues(r, keys)) == (set r | r in right :: KeyValues(r, keys))
    ensures var ls, rs := Runs(left, KeyFn(keys)), Runs(right, KeyFn(keys));
      && Ascending(ls)
      && KeySeq(ls) == KeySeq(rs)
      && Joined(joiner, keys, left, right) == Emit(joiner, keys, ls, rs, Diagonal(0, |ls|))
  {
    var key := KeyFn(keys);
    var ls, rs := Runs(left, key), Runs(right, key);
    SortedRunsAscending(left, key);
    SortedRunsAscending(right, key);
    SameRunKeys(left, right, keys);
    SameKeysFrom(ls, rs, 0, 0);
    assert ls[0..] == ls && rs[0..] == rs;
    forall k | 0 <= k < |ls| ensures ls[k].key == rs[k].key {
      assert KeySeq(ls)[k] == KeySeq(rs)[k];
    }
    TraceDiagonal(ls, rs, 0);
    assert GroupBy(left, keys) == Ok(ls) && GroupBy(right, keys) == Ok(rs);
  }

  /** Inputs with the same key values have groups with the same key set. */
  lemma SameRunKeys(left: seq<Row>, right: seq<Row>, keys: seq<string>)
    requires (set r | r in left :: KeyValues(r, keys)) == (set r | r in right :: KeyValues(r, keys))
    ensures KeysFrom(Runs(left, KeyFn(keys)), 0) == KeysFrom(Runs(right, KeyFn(keys)), 0)
  {
    var key := KeyFn(keys);
    RunKeys(left, key);
    RunKeys(right, key);
    assert (set r | r in left :: key(r)) == (set r | r in left :: KeyValues(r, keys));
    assert (set r | r in right :: key(r)) == (set r | r in right :: KeyValues(r, keys));
  }

  /** Every call Join makes has a group on at least one side, so OuterJoiner's raise for two
      None groups is never reached through Join. */
  lemma OuterJoinNeverFails(sa: string, sb: string, keys: seq<string>, left: seq<Row>, right: seq<Row>)
    ensures Joined(Outer(sa, sb), keys, left, right).Ok? <==> AllHaveKeys(left, keys) && AllHaveKeys(right, keys)
  {
    if AllHaveKeys(left, keys) && AllHaveKeys(right, keys) {
      var ls, rs := Runs(left, KeyFn(keys)), Runs(right, KeyFn(keys));
      var calls := Trace(ls, rs, 0, 0, AdvanceLeft);
      forall k | 0 <= k < |calls|
        ensures Outer(sa, sb)(keys, GroupAt(ls, calls[k].left), GroupAt(rs, calls[k].right)).Ok?
      {
        assert ValidCall(ls, rs, calls[k]);
      }
    }
  }

  /** With no right groups the left loop passes every left group on alone. */
  lemma {:induction false} EmitRightEmpty(sa: string, sb: string, keys: seq<string>, ls: seq<Group>, i: nat)
    requires i <= |ls|
    ensures Emit(Left(sa, sb), keys, ls, [], Trace(ls, [], i, 0, AdvanceLeft)) == Ok(Flatten(ls[i..]))
    ensures Emit(Right(sa, sb), keys, ls, [], Trace(ls, [], i, 0, AdvanceLeft)) == Ok([])
    decreases |ls| - i
  {
    if i < |ls| {
      var rest := Trace(ls, [], i + 1, 0, AdvanceLeft);
      assert Trace(ls, [], i, 0, AdvanceLeft) == [Call(Some(i), None)] + rest;
      EmitCons(Left(sa, sb), keys, ls, [], Call(Some(i), None), rest);
      EmitCons(Right(sa, sb), keys, ls, [], Call(Some(i), None), rest);
      EmitRightEmpty(sa, sb, keys, ls, i + 1);
      assert ls[i..][1..] == ls[i + 1..];
    } else {
      assert ls[i..] == [];
    }
  }

  /** With no left groups the right loop passes every right group on alone. */
  lemma {:induction false} EmitLeftEmpty(sa: string, sb: string, keys: seq<string>, rs: seq<Group>, j: nat, phase: Phase)
    requires j <= |rs|
    ensures Emit(Right(sa, sb), keys, [], rs, Trace([], rs, 0, j, phase)) == Ok(Flatten(rs[j..]))
    ensures Emit(Left(sa, sb), keys, [], rs, Trace([], rs, 0, j, phase)) == Ok([])
    decreases |rs| - j
  {
    if j < |rs| {
      var rest := Trace([], rs, 0, j + 1, AdvanceRight);
      assert Trace([], rs, 0, j, phase) == [Call(None, Some(j))] + rest;
      EmitCons(Right(sa, sb), keys, [], rs, Call(None, Some(j)), rest);
      EmitCons(Left(sa, sb), keys, [], rs, Call(None, Some(j)), rest);
      EmitLeftEmpty(sa, sb, keys, rs, j + 1, AdvanceRight);
      assert rs[j..][1..] == rs[j + 1..];
    } else {
      assert rs[j..] == [];
    }
  }

  /** Which side LeftJoiner keeps: against an empty right stream it passes the left stream
      through unchanged, and RightJoiner yields nothing; against an empty left stream the
      roles swap. */
  lemma JoinedOneSideEmpty(sa: string, sb: string, keys: seq<string>, rows: seq<Row>)
    requires AllHaveKeys(rows, keys)
    ensures Joined(Left(sa, sb), keys, rows, []) == Ok(rows)
    ensures Joined(Right(sa, sb), keys, rows, []) == Ok([])
    ensures Joined(Right(sa, sb), keys, [], rows) == Ok(rows)
    ensures Joined(Left(sa, sb), keys, [], rows) == Ok([])
  {
    var gs := Runs(rows, KeyFn(keys));
    assert GroupBy(rows, keys) == Ok(gs);
    assert GroupBy([], keys) == Ok([]);
    assert gs[0..] == gs;
    EmitRightEmpty(sa, sb, keys, gs, 0);
    EmitLeftEmpty(sa, sb, keys, gs, 0, AdvanceLeft);
  }

  /** Two single rows with equal key values: the inner joiner is called once, with both, and
      yields their merge. */
  lemma JoinedSingleRows(sa: string, sb: string, keys: seq<string>, lr: Row, rr: Row)
    requires HasKeys(lr, keys) && HasKeys(rr, keys) && KeyValues(lr, keys) == KeyValues(rr, keys)
    ensures Joined(Inner(sa, sb), keys, [lr], [rr]) == Ok([Merged(lr, rr, keys, sa, sb)])
  {
    var ls, rs := Runs([lr], KeyFn(keys)), Runs([rr], KeyFn(keys));
    SingleRun(lr, keys);
    SingleRun(rr, keys);
    assert GroupBy([lr], keys) == Ok(ls) && GroupBy([rr], keys) == Ok(rs);
    SingleTrace(ls, rs);
    SingleEmit(sa, sb, keys, ls, rs);
  }

  /** One row is one group. */
  lemma SingleRun(row: Row, keys: seq<string>)
    ensures Runs([row], KeyFn(keys)) == [Group(KeyValues(row, keys), [row])]
  {
    assert [row][1..] == [];
  }

  /** One group on each side with the same key: a single call with both. */
  lemma SingleTrace(ls: seq<Group>, rs: seq<Group>)
    requires |ls| == 1 && |rs| == 1 && ls[0].key == rs[0].key
    ensures Trace(ls, rs, 0, 0, AdvanceLeft) == [Call(Some(0), Some(0))]
  {
    KeyLessIrreflexive(ls[0].key);
    assert Trace(ls, rs, 1, 1, AdvanceLeft) == [];
  }

  /** The inner joiner on two one-row groups yields their merge. */
  lemma SingleEmit(sa: string, sb: string, keys: seq<string>, ls: seq<Group>, rs: seq<Group>)
    requires |ls| == 1 && |rs| == 1 && |ls[0].rows| == 1 && |rs[0].rows| == 1
    ensures Emit(Inner(sa, sb), keys, ls, rs, [Call(Some(0), Some(0))])
         == Ok([Merged(ls[0].rows[0], rs[0].rows[0], keys, sa, sb)])
  {
    var lr, rr := ls[0].rows[0], rs[0].rows[0];
    assert ls[0].rows == [lr] && rs[0].rows == [rr];
    var c := Cross([lr], [rr], keys, sa, sb);
    assert c == [Merged(lr, rr, keys, sa, sb)] by {
      assert |c| == 1 && c[0 * 1 + 0] == Merged(lr, rr, keys, sa, sb);
    }
    EmitCons(Inner(sa, sb), keys, ls, rs, Call(Some(0), Some(0)), []);
    assert c + [] == c;
  }

  /** A one-column row for the examples below. */
  function KeyRow(k: int): Row {
    map["k" := IntVal(k)]
  }

  /** The group of one example row. */
  function KeyGroup(k: int): Group {
    Group([IntVal(k)], [KeyRow(k)])
  }

  /** Grouping example rows with two different keys by column "k": one group each. */
  lemma KeyRowRuns(a: int, b: int)
    requires a != b
    ensures GroupBy([KeyRow(a)], ["k"]) == Ok([KeyGroup(a)])
    ensures GroupBy([KeyRow(a), KeyRow(b)], ["k"]) == Ok([KeyGroup(a), KeyGroup(b)])
  {
    KeyRowGroups(a, b);
    assert HasKeys(KeyRow(a), ["k"]) && HasKeys(KeyRow(b), ["k"]);
    assert AllHaveKeys([KeyRow(a)], ["k"]);
    assert AllHaveKeys([KeyRow(a), KeyRow(b)], ["k"]);
  }

  lemma KeyRowGroups(a: int, b: int)
    requires a != b
    ensures Runs([KeyRow(a)], KeyFn(["k"])) == [KeyGroup(a)]
    ensures Runs([KeyRow(a), KeyRow(b)], KeyFn(["k"])) == [KeyGroup(a), KeyGroup(b)]
  {
    var key := KeyFn(["k"]);
    assert key(KeyRow(a)) == [IntVal(a)];
    assert key(KeyRow(b)) == [IntVal(b)];
    assert [KeyRow(a), KeyRow(b)][1..] == [KeyRow(b)];
    assert [KeyRow(b)][1..] == [];
  }

  /** Integer keys compare as the integers do. */
  lemma IntKeyLess(a: int, b: int)
    requires a < b
    ensures KeyLess([IntVal(a)], [IntVal(b)])
  {
    assert [IntVal(a)][1..] == [];
  }

  /** Two left groups around one right group: the left loop yields the first, the right loop
      the right group, and then both cursors move on past the second left group. */
  lemma {:induction false} AroundTrace(ls: seq<Group>, rs: seq<Group>)
    requires |ls| == 2 && |rs| == 1
    requires KeyLess(ls[0].key, rs[0].key) && KeyLess(rs[0].key, ls[1].key)
    ensures Trace(ls, rs, 0, 0, AdvanceLeft) == [Call(Some(0), None), Call(None, Some(0))]
  {
    KeyLessAsymmetric(rs[0].key, ls[1].key);
    assert Trace(ls, rs, 2, 1, AdvanceLeft) == [];
    assert Trace(ls, rs, 1, 1, AdvanceRight) == [];
    assert Trace(ls, rs, 1, 0, AdvanceLeft) == [Call(None, Some(0))];
  }

  /** The outer joiner on a lone left group and then a lone right group passes both on. */
  lemma AroundEmit(sa: string, sb: string, keys: seq<string>, ls: seq<Group>, rs: seq<Group>)
    requires |ls| == 2 && |rs| == 1
    ensures Emit(Outer(sa, sb), keys, ls, rs, [Call(Some(0), None), Call(None, Some(0))])
         == Ok(ls[0].rows + rs[0].rows)
  {
    var second := [Call(None, Some(0))];
    EmitCons(Outer(sa, sb), keys, ls, rs, Call(None, Some(0)), []);
    assert rs[0].rows + [] == rs[0].rows;
    assert Emit(Outer(sa, sb), keys, ls, rs, second) == Ok(rs[0].rows);
    EmitCons(Outer(sa, sb), keys, ls, rs, Call(Some(0), None), second);
    assert [Call(Some(0), None)] + second == [Call(Some(0), None), Call(None, Some(0))];
  }

  /** Left keys 1, 3 against right key 2: after the right group 2 the left cursor stands on 3,
      no match follows and both cursors move on, so the outer join never sees group 3. */
  lemma LostGroupExample(sa: string, sb: string)
    ensures Joined(Outer(sa, sb), ["k"], [KeyRow(1), KeyRow(3)], [KeyRow(2)]) == Ok([KeyRow(1), KeyRow(2)])
  {
    var keys := ["k"];
    KeyRowRuns(1, 3);
    KeyRowRuns(2, 3);
    var ls, rs := [KeyGroup(1), KeyGroup(3)], [KeyGroup(2)];
    IntKeyLess(1, 2);
    IntKeyLess(2, 3);
    AroundTrace(ls, rs);
    AroundEmit(sa, sb, keys, ls, rs);
    assert [KeyRow(1)] + [KeyRow(2)] == [KeyRow(1), KeyRow(2)];
  }

  /** A right group below both left groups, then a right group equal to the second: the right
      loop yields the first right group, the cursors then stand on unequal keys and both move
      on, and the left loop yields the second left group alone. */
  lemma {:induction false} SkewTrace(ls: seq<Group>, rs: seq<Group>)
    requires |ls| == 2 && |rs| == 2
    requires KeyLess(rs[0].key, ls[0].key) && KeyLess(ls[0].key, rs[1].key)
    ensures Trace(ls, rs, 0, 0, AdvanceLeft) == [Call(None, Some(0)), Call(Some(1), None)]
  {
    KeyLessAsymmetric(rs[0].key, ls[0].key);
    KeyLessAsymmetric(ls[0].key, rs[1].key);
    assert Trace(ls, rs, 2, 2, AdvanceLeft) == [];
    assert Trace(ls, rs, 1, 2, AdvanceLeft) == [Call(Some(1), None)];
    assert Trace(ls, rs, 0, 1, AdvanceRight) == [Call(Some(1), None)];
  }

  /** The inner joiner yields nothing for groups without a partner. */
  lemma SkewEmit(sa: string, sb: string, keys: seq<string>, ls: seq<Group>, rs: seq<Group>)
    requires |ls| == 2 && |rs| == 2
    ensures Emit(Inner(sa, sb), keys, ls, rs, [Call(None, Some(0)), Call(Some(1), None)]) == Ok([])
  {
    var second := [Call(Some(1), None)];
    EmitCons(Inner(sa, sb), keys, ls, rs, Call(Some(1), None), []);
    EmitCons(Inner(sa, sb), keys, ls, rs, Call(None, Some(0)), second);
    assert [Call(None, Some(0))] + second == [Call(None, Some(0)), Call(Some(1), None)];
  }

  /** Left keys 2, 3 against right keys 1, 3: after the right group 1 the cursors stand on 2
      and 3, which do not match, and both move on, so the inner join never pairs the two
      groups of key 3. */
  lemma MissedMatchExample(sa: string, sb: string)
    ensures Joined(Inner(sa, sb), ["k"], [KeyRow(2), KeyRow(3)], [KeyRow(1), KeyRow(3)]) == Ok([])
  {
    var keys := ["k"];
    KeyRowRuns(2, 3);
    KeyRowRuns(1, 3);
    var ls, rs := [KeyGroup(2), KeyGroup(3)], [KeyGroup(1), KeyGroup(3)];
    IntKeyLess(1, 2);
    IntKeyLess(2, 3);
    SkewTrace(ls, rs);
    SkewEmit(sa, sb, keys, ls, rs);
  }
}
