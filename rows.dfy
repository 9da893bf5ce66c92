/** Rows, values, errors, key projections and the order Python uses on key lists. */
module Rows {

  /** A column value; the modelled plug-ins only ever see integers and strings. */
  datatype Value = IntVal(i: int) | StrVal(s: string)

  /** A table row: a mapping from column name to value. */
  type Row = map<string, Value>

  /** The projection of a row on a tuple of key columns, `[row[key] for key in keys]`. */
  type Key = seq<Value>

  datatype Option<T> = None | Some(value: T)

  /** The exceptions the modelled code can raise. */
  datatype Error =
    | MissingColumn(column: string)  // KeyError on `row[column]`
    | MissingSource(name: string)    // KeyError on `kwargs[name]`
    | NotAnInteger(column: string)   // arithmetic on a value that is not an integer
    | EmptyGroup                     // `assert row_sample is not None` in a reducer
    | BothGroupsNone                 // the explicit raise of OuterJoiner

  datatype Result<T> = Ok(value: T) | Err(error: Error)

  /** Output of one stage followed by the output of the rest; the first failure wins. */
  function Then(first: Result<seq<Row>>, rest: Result<seq<Row>>): (r: Result<seq<Row>>)
    ensures r.Ok? <==> first.Ok? && rest.Ok?
    ensures r.Ok? ==> r.value == first.value + rest.value
    ensures r.Err? ==> r == (if first.Err? then first else rest)
  {
    match first
    case Err(e) => Err(e)
    case Ok(a) =>
      match rest
      case Err(e) => Err(e)
      case Ok(b) => Ok(a + b)
  }

  lemma ThenAssociative(a: Result<seq<Row>>, b: Result<seq<Row>>, c: Result<seq<Row>>)
    ensures Then(Then(a, b), c) == Then(a, Then(b, c))
  {
    if a.Ok? && b.Ok? && c.Ok? {
      assert (a.value + b.value) + c.value == a.value + (b.value + c.value);
    }
  }

  /** Output already produced, then a stage, then the rest: the stage's rows join the prefix. */
  lemma ThenPrefix(out: seq<Row>, part: seq<Row>, rest: Result<seq<Row>>)
    ensures Then(Ok(out), Then(Ok(part), rest)) == Then(Ok(out + part), rest)
  {
    if rest.Ok? {
      assert out + (part + rest.value) == (out + part) + rest.value;
    }
  }

  predicate HasKeys(row: Row, keys: seq<string>) {
    forall k :: k in keys ==> k in row
  }

  predicate AllHaveKeys(rows: seq<Row>, keys: seq<string>) {
    forall i :: 0 <= i < |rows| ==> HasKeys(rows[i], keys)
  }

  /** Every listed column is present and holds an integer. */
  predicate IntColumns(row: Row, columns: seq<string>) {
    forall c :: c in columns ==> c in row && row[c].IntVal?
  }

  /** The key projection; a missing column reads as 0 here, and every caller checks HasKeys first. */
  function KeyValues(row: Row, keys: seq<string>): (k: Key)
    ensures |k| == |keys|
    ensures HasKeys(row, keys) ==> forall i :: 0 <= i < |keys| ==> k[i] == row[keys[i]]
  {
    seq(|keys|, i requires 0 <= i < |keys| => if keys[i] in row then row[keys[i]] else IntVal(0))
  }

  /** The key function handed to groupby and to the sort: one term for every use. */
  function KeyFn(keys: seq<string>): Row -> Key {
    row => KeyValues(row, keys)
  }

  /** The first key column, in key order, that `row` lacks: the column whose KeyError Python reports. */
  function FirstMissing(row: Row, keys: seq<string>): (c: string)
    requires !HasKeys(row, keys)
    ensures c in keys && c !in row
  {
    if keys[0] !in row then keys[0] else FirstMissing(row, keys[1..])
  }

  /** `{c: row[c] for c in columns}`, with the KeyError of the first missing column. */
  function Select(row: Row, columns: seq<string>): (r: Result<Row>)
    ensures r.Ok? <==> HasKeys(row, columns)
    ensures r.Ok? ==> r.value.Keys == (set c | c in columns) && forall c :: c in columns ==> r.value[c] == row[c]
    ensures r.Err? ==> r.error.MissingColumn? && r.error.column in columns && r.error.column !in row
  {
    if HasKeys(row, columns) then Ok(map c | c in columns :: row[c])
    else Err(MissingColumn(FirstMissing(row, columns)))
  }

  /** Index of the first row lacking a key column. */
  function FirstRowMissing(rows: seq<Row>, keys: seq<string>): (i: nat)
    requires !AllHaveKeys(rows, keys)
    ensures i < |rows| && !HasKeys(rows[i], keys)
    ensures forall j :: 0 <= j < i ==> HasKeys(rows[j], keys)
  {
    if !HasKeys(rows[0], keys) then 0
    else
      var i := FirstRowMissing(rows[1..], keys);
      assert forall j :: 1 <= j < i + 1 ==> rows[j] == rows[1..][j - 1];
      i + 1
  }

  /** The KeyError raised when some row of `rows` lacks a key column. */
  function MissingKeyError(rows: seq<Row>, keys: seq<string>): (e: Error)
    requires !AllHaveKeys(rows, keys)
    ensures e.MissingColumn? && e.column in keys
    ensures exists i :: 0 <= i < |rows| && e.column !in rows[i]
  {
    var i := FirstRowMissing(rows, keys);
    MissingColumn(FirstMissing(rows[i], keys))
  }

  // ---------------------------------------------------------------------------
  // Ordering. Python compares lists (and strings) lexicographically: the first
  // position where the elements differ decides, and a proper prefix is smaller.

  ghost predicate Irreflexive<T(!new)>(less: (T, T) -> bool) {
    forall x :: !less(x, x)
  }

  ghost predicate Transitive<T(!new)>(less: (T, T) -> bool) {
    forall x, y, z :: less(x, y) && less(y, z) ==> less(x, z)
  }

  ghost predicate Trichotomous<T(!new)>(less: (T, T) -> bool) {
    forall x, y :: x == y || less(x, y) || less(y, x)
  }

  ghost predicate StrictTotalOrder<T(!new)>(less: (T, T) -> bool) {
    Irreflexive(less) && Transitive(less) && Trichotomous(less)
  }

  /** Lexicographic extension of `less` to sequences. */
  predicate Lex<T(==)>(a: seq<T>, b: seq<T>, less: (T, T) -> bool) {
    if a == [] then b != []
    else if b == [] then false
    else if a[0] == b[0] then Lex(a[1..], b[1..], less)
    else less(a[0], b[0])
  }

  lemma {:induction false} LexIrreflexive<T(!new)>(a: seq<T>, less: (T, T) -> bool)
    requires Irreflexive(less)
    ensures !Lex(a, a, less)
  {
    if a != [] {
      LexIrreflexive(a[1..], less);
    }
  }

  lemma {:induction false} LexTransitive<T(!new)>(a: seq<T>, b: seq<T>, c: seq<T>, less: (T, T) -> bool)
    requires Transitive(less) && Irreflexive(less)
    requires Lex(a, b, less) && Lex(b, c, less)
    ensures Lex(a, c, less)
  {
    if a != [] && b != [] && c != [] {
      if a[0] == b[0] && b[0] == c[0] {
        LexTransitive(a[1..], b[1..], c[1..], less);
      }
    }
  }

  lemma {:induction false} LexTrichotomous<T(!new)>(a: seq<T>, b: seq<T>, less: (T, T) -> bool)
    requires Trichotomous(less)
    ensures a == b || Lex(a, b, less) || Lex(b, a, less)
  {
    if a != [] && b != [] && a[0] == b[0] {
      LexTrichotomous(a[1..], b[1..], less);
      if a[1..] == b[1..] {
        assert a == [a[0]] + a[1..] && b == [b[0]] + b[1..];
      }
    }
  }

  lemma LexStrictTotal<T(!new)>(less: (T, T) -> bool)
    requires StrictTotalOrder(less)
    ensures StrictTotalOrder((a: seq<T>, b: seq<T>) => Lex(a, b, less))
  {
    var lex := (a: seq<T>, b: seq<T>) => Lex(a, b, less);
    forall a: seq<T> ensures !lex(a, a) {
      LexIrreflexive(a, less);
    }
    forall a: seq<T>, b: seq<T>, c: seq<T> | lex(a, b) && lex(b, c) ensures lex(a, c) {
      LexTransitive(a, b, c, less);
    }
    forall a: seq<T>, b: seq<T> ensures a == b || lex(a, b) || lex(b, a) {
      LexTrichotomous(a, b, less);
    }
  }

  predicate CharLess(a: char, b: char) {
    a < b
  }

  /** Python's `<` on two values: integers numerically, strings by code point.
      Python raises TypeError for an integer against a string; here every integer comes first. */
  predicate ValueLess(a: Value, b: Value) {
    match (a, b)
    case (IntVal(x), IntVal(y)) => x < y
    case (StrVal(x), StrVal(y)) => Lex(x, y, CharLess)
    case (IntVal(_), StrVal(_)) => true
    case (StrVal(_), IntVal(_)) => false
  }

  /** Python's `<` on two key lists. */
  predicate KeyLess(a: Key, b: Key) {
    Lex(a, b, ValueLess)
  }

  lemma ValueLessStrictTotal()
    ensures StrictTotalOrder(ValueLess)
  {
    LexStrictTotal(CharLess);
    forall a: Value ensures !ValueLess(a, a) {
      if a.StrVal? { LexIrreflexive(a.s, CharLess); }
    }
    forall a: Value, b: Value, c: Value | ValueLess(a, b) && ValueLess(b, c) ensures ValueLess(a, c) {
      if a.StrVal? && b.StrVal? && c.StrVal? { LexTransitive(a.s, b.s, c.s, CharLess); }
    }
    forall a: Value, b: Value ensures a == b || ValueLess(a, b) || ValueLess(b, a) {
      if a.StrVal? && b.StrVal? { LexTrichotomous(a.s, b.s, CharLess); }
    }
  }

  /** KeyLess is a strict total order: irreflexive, transitive, and any two keys are comparable. */
  lemma KeyLessStrictTotal()
    ensures forall a: Key :: !KeyLess(a, a)
    ensures forall a: Key, b: Key, c: Key :: KeyLess(a, b) && KeyLess(b, c) ==> KeyLess(a, c)
    ensures forall a: Key, b: Key :: a == b || KeyLess(a, b) || KeyLess(b, a)
  {
    ValueLessStrictTotal();
    forall a: Key ensures !KeyLess(a, a) {
      LexIrreflexive(a, ValueLess);
    }
    forall a: Key, b: Key, c: Key | KeyLess(a, b) && KeyLess(b, c) ensures KeyLess(a, c) {
      LexTransitive(a, b, c, ValueLess);
    }
    forall a: Key, b: Key ensures a == b || KeyLess(a, b) || KeyLess(b, a) {
      LexTrichotomous(a, b, ValueLess);
    }
  }

  /** Sequence identities stated once over any element type, so that proofs about rows use
      them without comparing rows (maps) element by element. */
  lemma HeadTail<T>(s: seq<T>)
    requires s != []
    ensures s == [s[0]] + s[1..]
  {
  }

  lemma SameElements<T>(a: seq<T>, b: seq<T>)
    requires |a| == |b| && forall i :: 0 <= i < |a| ==> a[i] == b[i]
    ensures a == b
  {
  }

  lemma SwapEmpty<T>(a: seq<T>, b: seq<T>, c: seq<T>)
    requires a == [] || b == []
    ensures a + (b + c) == b + (a + c)
  {
  }

  /** The strict total order at given keys, for proofs that need one instance only. */
  lemma KeyLessIrreflexive(a: Key)
    ensures !KeyLess(a, a)
  {
    KeyLessStrictTotal();
  }

  lemma KeyLessAsymmetric(a: Key, b: Key)
    requires KeyLess(a, b)
    ensures !KeyLess(b, a)
  {
    KeyLessStrictTotal();
  }

  lemma KeyLessTrichotomous(a: Key, b: Key)
    ensures a == b || KeyLess(a, b) || KeyLess(b, a)
  {
    KeyLessStrictTotal();
  }
}
