/** Stable sorting by a key, as the sort stage and `heapq.nlargest` need it.

    The sort stage delegates to an external-memory sort whose code is not part of this model;
    it is modelled by its contract alone: the output is sorted by key and, for every key, holds
    the input's rows of that key in their input order. StableSortUnique shows that this contract
    determines the output, so SortBy (an insertion sort) stands for any sort meeting it. */
module Sorting {
  import opened Rows

  /** Key `a` goes strictly before key `b`: ascending, or descending when `reverse`. */
  predicate Before(a: Key, b: Key, reverse: bool) {
    if reverse then KeyLess(b, a) else KeyLess(a, b)
  }

  /** Before is irreflexive and asymmetric at given keys. */
  lemma BeforeIrreflexive(a: Key, reverse: bool)
    ensures !Before(a, a, reverse)
  {
    KeyLessIrreflexive(a);
  }

  lemma BeforeAsymmetric(a: Key, b: Key, reverse: bool)
    requires Before(a, b, reverse)
    ensures !Before(b, a, reverse)
  {
    if reverse { KeyLessAsymmetric(b, a); } else { KeyLessAsymmetric(a, b); }
  }

  /** Not going before is transitive: it is "after or equal" in a total order. */
  lemma NotBeforeTransitive(a: Key, b: Key, c: Key, reverse: bool)
    requires !Before(a, b, reverse) && !Before(b, c, reverse)
    ensures !Before(a, c, reverse)
  {
    KeyLessStrictTotal();
  }

  /** No row is preceded by a row whose key goes strictly after its own. */
  predicate Sorted(rows: seq<Row>, key: Row -> Key, reverse: bool) {
    forall i, j :: 0 <= i < j < |rows| ==> !Before(key(rows[j]), key(rows[i]), reverse)
  }

  /** The rows of `rows` whose key is `k`, in their order in `rows`. */
  function Having(rows: seq<Row>, key: Row -> Key, k: Key): seq<Row> {
    if rows == [] then []
    else (if key(rows[0]) == k then [rows[0]] else []) + Having(rows[1..], key, k)
  }

  /** `out` is a stable sort of `input`: sorted, and for every key the same rows in the same order. */
  ghost predicate IsStableSortOf(out: seq<Row>, input: seq<Row>, key: Row -> Key, reverse: bool) {
    Sorted(out, key, reverse) && forall k :: Having(out, key, k) == Having(input, key, k)
  }

  lemma {:induction false} HavingWitness(rows: seq<Row>, key: Row -> Key, k: Key) returns (j: nat)
    requires Having(rows, key, k) != []
    ensures j < |rows| && key(rows[j]) == k
  {
    if key(rows[0]) == k {
      j := 0;
    } else {
      var j' := HavingWitness(rows[1..], key, k);
      j := j' + 1;
    }
  }

  /** Inserting `x` before the first row that does not go strictly before it. */
  function Insert(x: Row, t: seq<Row>, key: Row -> Key, reverse: bool): (r: seq<Row>)
    ensures multiset(r) == multiset([x] + t)
  {
    if t == [] || !Before(key(t[0]), key(x), reverse) then [x] + t
    else
      assert t == [t[0]] + t[1..];
      [t[0]] + Insert(x, t[1..], key, reverse)
  }

  lemma {:induction false} InsertSorted(x: Row, t: seq<Row>, key: Row -> Key, reverse: bool)
    requires Sorted(t, key, reverse)
    ensures Sorted(Insert(x, t, key, reverse), key, reverse)
  {
    if t != [] && Before(key(t[0]), key(x), reverse) {
      var rest := Insert(x, t[1..], key, reverse);
      InsertSorted(x, t[1..], key, reverse);
      BeforeAsymmetric(key(t[0]), key(x), reverse);
      forall m | 0 <= m < |t[1..]| ensures !Before(key(t[1..][m]), key(t[0]), reverse) {
        assert t[1..][m] == t[m + 1];
      }
      InsertBounded(x, t[1..], key, reverse, key(t[0]));
      var r := [t[0]] + rest;
      forall j | 0 < j < |r| ensures !Before(key(r[j]), key(r[0]), reverse) {
        assert r[j] == rest[j - 1] && !Before(key(rest[j - 1]), key(t[0]), reverse);
      }
      forall i, j | 0 <= i < j < |r| ensures !Before(key(r[j]), key(r[i]), reverse) {
        if i > 0 {
          assert r[i] == rest[i - 1] && r[j] == rest[j - 1];
        }
      }
    } else if t != [] {
      forall j | 0 < j < |t| ensures !Before(key(t[j]), key(x), reverse) {
        NotBeforeTransitive(key(t[j]), key(t[0]), key(x), reverse);
      }
    }
  }

  /** Inserting keeps every row at or after a bound that `x` and every row of `t` respect. */
  lemma {:induction false} InsertBounded(x: Row, t: seq<Row>, key: Row -> Key, reverse: bool, b: Key)
    requires !Before(key(x), b, reverse)
    requires forall m :: 0 <= m < |t| ==> !Before(key(t[m]), b, reverse)
    ensures forall m :: 0 <= m < |Insert(x, t, key, reverse)| ==> !Before(key(Insert(x, t, key, reverse)[m]), b, reverse)
  {
    var r := Insert(x, t, key, reverse);
    if t != [] && Before(key(t[0]), key(x), reverse) {
      var rest := Insert(x, t[1..], key, reverse);
      forall m | 0 <= m < |t[1..]| ensures !Before(key(t[1..][m]), b, reverse) {
        assert t[1..][m] == t[m + 1];
      }
      InsertBounded(x, t[1..], key, reverse, b);
      forall m | 0 < m < |r| ensures !Before(key(r[m]), b, reverse) {
        assert r[m] == rest[m - 1] && !Before(key(rest[m - 1]), b, reverse);
      }
    } else {
      forall m | 0 < m < |r| ensures !Before(key(r[m]), b, reverse) {
        assert r[m] == t[m - 1] && !Before(key(t[m - 1]), b, reverse);
      }
    }
  }

  lemma HavingCons(y: Row, t: seq<Row>, key: Row -> Key, k: Key)
    ensures Having([y] + t, key, k) == (if key(y) == k then [y] else []) + Having(t, key, k)
  {
    assert ([y] + t)[1..] == t;
  }

  /** Insert puts `x` ahead of every row of its own key: stability, one row at a time. */
  lemma {:induction false} InsertHaving(x: Row, t: seq<Row>, key: Row -> Key, reverse: bool, k: Key)
    ensures Having(Insert(x, t, key, reverse), key, k)
         == (if key(x) == k then [x] else []) + Having(t, key, k)
  {
    if t == [] || !Before(key(t[0]), key(x), reverse) {
      HavingCons(x, t, key, k);
    } else {
      InsertHaving(x, t[1..], key, reverse, k);
      InsertHavingStep(x, t, key, reverse, k);
    }
  }

  /** The inductive step of InsertHaving: `x` passes a first row of another key. */
  lemma InsertHavingStep(x: Row, t: seq<Row>, key: Row -> Key, reverse: bool, k: Key)
    requires t != [] && Before(key(t[0]), key(x), reverse)
    requires Having(Insert(x, t[1..], key, reverse), key, k)
          == (if key(x) == k then [x] else []) + Having(t[1..], key, k)
    ensures Having(Insert(x, t, key, reverse), key, k)
         == (if key(x) == k then [x] else []) + Having(t, key, k)
  {
    var hx: seq<Row> := if key(x) == k then [x] else [];
    var h0: seq<Row> := if key(t[0]) == k then [t[0]] else [];
    var rest := Insert(x, t[1..], key, reverse);
    var tail := Having(t[1..], key, k);
    assert Insert(x, t, key, reverse) == [t[0]] + rest;
    HavingCons(t[0], rest, key, k);
    HeadTail(t);
    HavingCons(t[0], t[1..], key, k);
    BeforeIrreflexive(key(x), reverse);
    SwapEmpty(h0, hx, tail);
  }

  /** Stable insertion sort; the model of the sort stage and of `sorted(..., reverse=...)`. */
  function SortBy(rows: seq<Row>, key: Row -> Key, reverse: bool): (s: seq<Row>)
    ensures IsStableSortOf(s, rows, key, reverse)
    ensures multiset(s) == multiset(rows)
  {
    if rows == [] then []
    else
      var rest := SortBy(rows[1..], key, reverse);
      InsertSorted(rows[0], rest, key, reverse);
      forall k ensures Having(Insert(rows[0], rest, key, reverse), key, k) == Having(rows, key, k) {
        InsertHaving(rows[0], rest, key, reverse, k);
      }
      assert rows == [rows[0]] + rows[1..];
      Insert(rows[0], rest, key, reverse)
  }

  /** A stable sort is unique: two stable sorts of the same input are the same sequence. */
  lemma StableSortUnique(a: seq<Row>, b: seq<Row>, input: seq<Row>, key: Row -> Key, reverse: bool)
    requires IsStableSortOf(a, input, key, reverse) && IsStableSortOf(b, input, key, reverse)
    ensures a == b
  {
    forall k ensures Having(a, key, k) == Having(b, key, k) {
      assert Having(a, key, k) == Having(input, key, k);
    }
    SortedSameHavingEqual(a, b, key, reverse);
  }

  lemma {:induction false} SortedSameHavingEqual(a: seq<Row>, b: seq<Row>, key: Row -> Key, reverse: bool)
    requires Sorted(a, key, reverse) && Sorted(b, key, reverse)
    requires forall k :: Having(a, key, k) == Having(b, key, k)
    ensures a == b
    decreases |a| + |b|
  {
    if a != [] {
      SameHead(a, b, key, reverse);
      SameTailHaving(a, b, key);
      SortedSameHavingEqual(a[1..], b[1..], key, reverse);
      assert a == [a[0]] + a[1..] && b == [b[0]] + b[1..];
    } else if b != [] {
      SameHead(b, a, key, reverse);
    }
  }

  /** The first rows of two sorted sequences with the same rows per key coincide. */
  lemma SameHead(a: seq<Row>, b: seq<Row>, key: Row -> Key, reverse: bool)
    requires a != [] && Sorted(a, key, reverse) && Sorted(b, key, reverse)
    requires forall k :: Having(a, key, k) == Having(b, key, k)
    ensures b != [] && a[0] == b[0]
  {
    var ka := key(a[0]);
    assert Having(a, key, ka) != [];
    var jb := HavingWitness(b, key, ka);
    var kb := key(b[0]);
    assert Having(b, key, kb) != [];
    var ja := HavingWitness(a, key, kb);
    assert !Before(kb, ka, reverse) by {
      if ja > 0 { assert !Before(key(a[ja]), key(a[0]), reverse); } else { BeforeIrreflexive(ka, reverse); }
    }
    assert !Before(ka, kb, reverse) by {
      if jb > 0 { assert !Before(key(b[jb]), key(b[0]), reverse); } else { BeforeIrreflexive(kb, reverse); }
    }
    KeyLessTrichotomous(ka, kb);
    assert ka == kb;
    assert Having(a, key, ka) == [a[0]] + Having(a[1..], key, ka);
    assert Having(b, key, ka) == [b[0]] + Having(b[1..], key, ka);
    assert Having(a, key, ka)[0] == a[0] && Having(b, key, ka)[0] == b[0];
  }

  lemma SameTailHaving(a: seq<Row>, b: seq<Row>, key: Row -> Key)
    requires a != [] && b != [] && a[0] == b[0]
    requires forall k :: Having(a, key, k) == Having(b, key, k)
    ensures forall k :: Having(a[1..], key, k) == Having(b[1..], key, k)
  {
    forall k ensures Having(a[1..], key, k) == Having(b[1..], key, k) {
      var h := if key(a[0]) == k then [a[0]] else [];
      var ha, hb := Having(a[1..], key, k), Having(b[1..], key, k);
      assert Having(a, key, k) == h + ha;
      assert Having(b, key, k) == h + hb;
      assert ha == (h + ha)[|h|..] && hb == (h + hb)[|h|..];
    }
  }
}
