/** The column merge of two rows and the four join strategies built on it. */
module Joiners {
  import opened Rows

  /** Columns present in both rows that are not join keys: these get suffixed. */
  function Clashing(l: Row, r: Row, keys: seq<string>): set<string> {
    set c | c in l && c in r && c !in keys
  }

  /** Columns copied under their own name: in one row only, or a join key present in both. */
  function Plain(l: Row, r: Row, keys: seq<string>): set<string> {
    set c | c in l.Keys + r.Keys && c !in Clashing(l, r, keys)
  }

  function Suffixed(cs: set<string>, suffix: string): set<string> {
    set c | c in cs :: c + suffix
  }

  lemma SuffixInjective(suffix: string)
    ensures forall c: string, d: string :: c + suffix == d + suffix ==> c == d
  {
    forall c: string, d: string | c + suffix == d + suffix ensures c == d {
      assert c == (c + suffix)[..|c|];
      assert d == (d + suffix)[..|d|];
    }
  }

  /** No output name is produced twice: a suffixed name never meets a plain name or
      a name carrying the other suffix. Only then is the merge independent of the order
      in which the set of columns is visited. */
  predicate NoClash(l: Row, r: Row, keys: seq<string>, sa: string, sb: string) {
    var plain, clashing := Plain(l, r, keys), Clashing(l, r, keys);
    && Suffixed(clashing, sa) !! plain
    && Suffixed(clashing, sb) !! plain
    && Suffixed(clashing, sa) !! Suffixed(clashing, sb)
  }

  /** The copies of the columns `cs` of `row` under their suffixed names. */
  function SuffixedPart(row: Row, cs: set<string>, suffix: string): (p: Row)
    requires cs <= row.Keys
    ensures p.Keys == Suffixed(cs, suffix)
    ensures forall c :: c in cs ==> p[c + suffix] == row[c]
  {
    SuffixInjective(suffix);
    map c | c in cs :: c + suffix := row[c]
  }

  /** The plain columns, from the left row where it has them and from the right row otherwise. */
  function PlainPart(l: Row, r: Row, keys: seq<string>): (p: Row)
    ensures p.Keys == Plain(l, r, keys)
    ensures forall c :: c in p ==> p[c] == if c in l then l[c] else r[c]
  {
    map c | c in Plain(l, r, keys) :: if c in l then l[c] else r[c]
  }

  /** `merge(left_row, right_row, main_keys, suf_a, suf_b)` as a value. Where NoClash fails,
      the source's result depends on set iteration order; this definition lets the right
      row's suffixed columns win. */
  function Merged(l: Row, r: Row, keys: seq<string>, sa: string, sb: string): (m: Row)
  {
    var clashing := Clashing(l, r, keys);
    PlainPart(l, r, keys)
      + SuffixedPart(l, clashing, sa)
      + SuffixedPart(r, clashing, sb)
  }

  /** The columns of a merged row: the plain columns and both suffixed copies of each clashing one. */
  lemma MergedColumns(l: Row, r: Row, keys: seq<string>, sa: string, sb: string)
    ensures Merged(l, r, keys, sa, sb).Keys
         == Plain(l, r, keys) + Suffixed(Clashing(l, r, keys), sa) + Suffixed(Clashing(l, r, keys), sb)
  {
    var clashing := Clashing(l, r, keys);
    var plain := PlainPart(l, r, keys);
    var a, b := SuffixedPart(l, clashing, sa), SuffixedPart(r, clashing, sb);
    assert Merged(l, r, keys, sa, sb) == plain + a + b;
    assert (plain + a + b).Keys == plain.Keys + a.Keys + b.Keys;
  }

  /** What one column of the inputs becomes in a merged row free of clashes. */
  predicate MergedColumn(m: Row, l: Row, r: Row, keys: seq<string>, sa: string, sb: string, c: string) {
    if c in l && c in r && c !in keys then
      c + sa in m && m[c + sa] == l[c] && c + sb in m && m[c + sb] == r[c]
    else if c in l then c in m && m[c] == l[c]
    else c in r ==> c in m && m[c] == r[c]
  }

  lemma MergedClashingAt(l: Row, r: Row, keys: seq<string>, sa: string, sb: string, c: string)
    requires c in Clashing(l, r, keys)
    requires c + sa !in Suffixed(Clashing(l, r, keys), sb)
    ensures var m := Merged(l, r, keys, sa, sb); c + sa in m && m[c + sa] == l[c] && c + sb in m && m[c + sb] == r[c]
  {
    var clashing := Clashing(l, r, keys);
    var a, b := SuffixedPart(l, clashing, sa), SuffixedPart(r, clashing, sb);
    assert c + sb in b && b[c + sb] == r[c];
    assert c + sa in a && a[c + sa] == l[c];
  }

  lemma MergedPlainAt(l: Row, r: Row, keys: seq<string>, sa: string, sb: string, c: string)
    requires c in Plain(l, r, keys)
    requires c !in Suffixed(Clashing(l, r, keys), sa) && c !in Suffixed(Clashing(l, r, keys), sb)
    ensures var m := Merged(l, r, keys, sa, sb); c in m && m[c] == if c in l then l[c] else r[c]
  {
  }

  lemma MergedAt(l: Row, r: Row, keys: seq<string>, sa: string, sb: string, c: string)
    requires NoClash(l, r, keys, sa, sb)
    ensures MergedColumn(Merged(l, r, keys, sa, sb), l, r, keys, sa, sb, c)
  {
    var clashing := Clashing(l, r, keys);
    if c in clashing {
      MergedClashingAt(l, r, keys, sa, sb, c);
    } else if c in l.Keys + r.Keys {
      assert c in Plain(l, r, keys);
      MergedPlainAt(l, r, keys, sa, sb, c);
    }
  }

  /** Column by column, when no output name is produced twice: a join key present in both rows
      takes the left value, another shared column becomes `c + sa` with the left value and
      `c + sb` with the right value, and a column of one row only is copied unchanged. */
  lemma MergedValues(l: Row, r: Row, keys: seq<string>, sa: string, sb: string)
    requires NoClash(l, r, keys, sa, sb)
    ensures forall c :: MergedColumn(Merged(l, r, keys, sa, sb), l, r, keys, sa, sb, c)
  {
    forall c ensures MergedColumn(Merged(l, r, keys, sa, sb), l, r, keys, sa, sb, c) {
      MergedAt(l, r, keys, sa, sb, c);
    }
  }

  /** The output names one column of the inputs produces. */
  function NamesOf(l: Row, r: Row, keys: seq<string>, sa: string, sb: string, c: string): set<string> {
    if c in Clashing(l, r, keys) then {c + sa, c + sb}
    else if c in l.Keys + r.Keys then {c}
    else {}
  }

  /** The output names produced by the columns in `done`. */
  function NamesFrom(l: Row, r: Row, keys: seq<string>, sa: string, sb: string, done: set<string>): set<string> {
    var clashing := Clashing(l, r, keys) * done;
    (Plain(l, r, keys) * done) + Suffixed(clashing, sa) + Suffixed(clashing, sb)
  }

  lemma NamesFromNone(l: Row, r: Row, keys: seq<string>, sa: string, sb: string)
    ensures NamesFrom(l, r, keys, sa, sb, {}) == {}
  {
    assert Clashing(l, r, keys) * {} == {};
  }

  lemma NamesFromAdd(l: Row, r: Row, keys: seq<string>, sa: string, sb: string, done: set<string>, c: string)
    ensures NamesFrom(l, r, keys, sa, sb, done + {c})
         == NamesFrom(l, r, keys, sa, sb, done) + NamesOf(l, r, keys, sa, sb, c)
  {
    var clashing := Clashing(l, r, keys);
    if c in clashing {
      assert c + sa in Suffixed(clashing * (done + {c}), sa);
      assert c + sb in Suffixed(clashing * (done + {c}), sb);
    }
  }

  /** Once every column is visited, the names built are those of the merged row. */
  lemma AllNames(l: Row, r: Row, keys: seq<string>, sa: string, sb: string, m: Row)
    requires m.Keys == NamesFrom(l, r, keys, sa, sb, l.Keys + r.Keys)
    ensures m.Keys == Merged(l, r, keys, sa, sb).Keys
  {
    var all := l.Keys + r.Keys;
    assert Plain(l, r, keys) * all == Plain(l, r, keys);
    assert Clashing(l, r, keys) * all == Clashing(l, r, keys);
    MergedColumns(l, r, keys, sa, sb);
  }

  /** Without clashes, distinct columns produce disjoint sets of output names. */
  lemma NamesApart(l: Row, r: Row, keys: seq<string>, sa: string, sb: string, c: string, d: string)
    requires NoClash(l, r, keys, sa, sb) && c != d
    ensures NamesOf(l, r, keys, sa, sb, c) !! NamesOf(l, r, keys, sa, sb, d)
  {
    SuffixInjective(sa);
    SuffixInjective(sb);
    var clashing := Clashing(l, r, keys);
    if c in clashing {
      assert c + sa in Suffixed(clashing, sa) && c + sb in Suffixed(clashing, sb);
    }
    if d in clashing {
      assert d + sa in Suffixed(clashing, sa) && d + sb in Suffixed(clashing, sb);
    }
  }

  /** Visiting column `c` sets the names `c` produces and leaves every other name alone, so it
      keeps the columns visited before intact. */
  lemma VisitStep(before: Row, m: Row, l: Row, r: Row, keys: seq<string>, sa: string, sb: string, done: set<string>, c: string)
    requires NoClash(l, r, keys, sa, sb) && c !in done
    requires forall d :: d in done ==> MergedColumn(before, l, r, keys, sa, sb, d)
    requires MergedColumn(m, l, r, keys, sa, sb, c)
    requires forall o :: o !in NamesOf(l, r, keys, sa, sb, c) ==> (o in m <==> o in before) && (o in m ==> m[o] == before[o])
    ensures forall d :: d in done + {c} ==> MergedColumn(m, l, r, keys, sa, sb, d)
  {
    forall d | d in done ensures MergedColumn(m, l, r, keys, sa, sb, d) {
      NamesApart(l, r, keys, sa, sb, c, d);
      assert MergedColumn(before, l, r, keys, sa, sb, d);
      if d in Clashing(l, r, keys) {
        assert d + sa in NamesOf(l, r, keys, sa, sb, d) && d + sb in NamesOf(l, r, keys, sa, sb, d);
      } else {
        assert d in NamesOf(l, r, keys, sa, sb, d) || d !in l.Keys + r.Keys;
      }
    }
  }

  /** A row with the merged row's names that gets every column right is the merged row. */
  lemma MergedDetermined(m: Row, l: Row, r: Row, keys: seq<string>, sa: string, sb: string)
    requires NoClash(l, r, keys, sa, sb)
    requires m.Keys == Merged(l, r, keys, sa, sb).Keys
    requires forall d :: d in l.Keys + r.Keys ==> MergedColumn(m, l, r, keys, sa, sb, d)
    ensures m == Merged(l, r, keys, sa, sb)
  {
    var spec := Merged(l, r, keys, sa, sb);
    MergedColumns(l, r, keys, sa, sb);
    forall o | o in m ensures m[o] == spec[o] {
      MergedNameAgrees(m, l, r, keys, sa, sb, o);
    }
  }

  /** One output name of a row as in MergedDetermined holds merge's value. */
  lemma MergedNameAgrees(m: Row, l: Row, r: Row, keys: seq<string>, sa: string, sb: string, o: string)
    requires NoClash(l, r, keys, sa, sb)
    requires m.Keys == Merged(l, r, keys, sa, sb).Keys
    requires forall d :: d in l.Keys + r.Keys ==> MergedColumn(m, l, r, keys, sa, sb, d)
    requires o in m
    ensures m[o] == Merged(l, r, keys, sa, sb)[o]
  {
    MergedColumns(l, r, keys, sa, sb);
    var d := NameSource(l, r, keys, sa, sb, o);
    MergedAt(l, r, keys, sa, sb, d);
    SameColumnSameName(m, Merged(l, r, keys, sa, sb), l, r, keys, sa, sb, d, o);
  }

  /** Every name of a merged row is produced by some column of the inputs. */
  lemma NameSource(l: Row, r: Row, keys: seq<string>, sa: string, sb: string, o: string) returns (d: string)
    requires o in Plain(l, r, keys) + Suffixed(Clashing(l, r, keys), sa) + Suffixed(Clashing(l, r, keys), sb)
    ensures o in NamesOf(l, r, keys, sa, sb, d)
  {
    var clashing := Clashing(l, r, keys);
    if o in Plain(l, r, keys) {
      d := o;
    } else if o in Suffixed(clashing, sa) {
      d :| d in clashing && o == d + sa;
    } else {
      d :| d in clashing && o == d + sb;
    }
  }

  /** Two rows that both hold column `d` as a merge does agree on every name `d` produces. */
  lemma SameColumnSameName(m1: Row, m2: Row, l: Row, r: Row, keys: seq<string>, sa: string, sb: string, d: string, o: string)
    requires MergedColumn(m1, l, r, keys, sa, sb, d) && MergedColumn(m2, l, r, keys, sa, sb, d)
    requires o in NamesOf(l, r, keys, sa, sb, d)
    ensures o in m1 && o in m2 && m1[o] == m2[o]
  {
  }

  /** The loop of `merge`: visit the union of both rows' columns in an unspecified order.
      The column set it builds is always Merged's; its values are Merged's whenever no
      output name is produced twice. */
  method Merge(l: Row, r: Row, keys: seq<string>, sa: string, sb: string) returns (m: Row)
    ensures m.Keys == Merged(l, r, keys, sa, sb).Keys
    ensures NoClash(l, r, keys, sa, sb) ==> m == Merged(l, r, keys, sa, sb)
  {
    var columns := l.Keys + r.Keys;
    ghost var done: set<string> := {};
    m := map[];
    NamesFromNone(l, r, keys, sa, sb);
    while columns != {}
      invariant columns + done == l.Keys + r.Keys && columns !! done
      invariant m.Keys == NamesFrom(l, r, keys, sa, sb, done)
      invariant NoClash(l, r, keys, sa, sb) ==> forall d :: d in done ==> MergedColumn(m, l, r, keys, sa, sb, d)
      decreases columns
    {
      var c :| c in columns;
      ghost var before := m;
      m := MergeColumn(m, l, r, keys, sa, sb, c);
      NamesFromAdd(l, r, keys, sa, sb, done, c);
      if NoClash(l, r, keys, sa, sb) {
        VisitStep(before, m, l, r, keys, sa, sb, done, c);
      }
      columns := columns - {c};
      done := done + {c};
    }
    assert done == l.Keys + r.Keys;
    MergeDone(l, r, keys, sa, sb, m);
  }

  /** Once `merge` has visited every column, it has built the merged row's names, and the
      merged row itself when no name is produced twice. */
  lemma MergeDone(l: Row, r: Row, keys: seq<string>, sa: string, sb: string, m: Row)
    requires m.Keys == NamesFrom(l, r, keys, sa, sb, l.Keys + r.Keys)
    requires NoClash(l, r, keys, sa, sb) ==> forall d :: d in l.Keys + r.Keys ==> MergedColumn(m, l, r, keys, sa, sb, d)
    ensures m.Keys == Merged(l, r, keys, sa, sb).Keys
    ensures NoClash(l, r, keys, sa, sb) ==> m == Merged(l, r, keys, sa, sb)
  {
    AllNames(l, r, keys, sa, sb, m);
    if NoClash(l, r, keys, sa, sb) {
      MergedDetermined(m, l, r, keys, sa, sb);
    }
  }

  /** One pass of `merge`'s loop: column `c` of the inputs written into `m0` under the names
      it produces; every other name is left as it was. */
  method MergeColumn(m0: Row, l: Row, r: Row, keys: seq<string>, sa: string, sb: string, c: string) returns (m: Row)
    requires c in l.Keys + r.Keys
    ensures m.Keys == m0.Keys + NamesOf(l, r, keys, sa, sb, c)
    ensures NoClash(l, r, keys, sa, sb) ==> MergedColumn(m, l, r, keys, sa, sb, c)
    ensures forall o :: o !in NamesOf(l, r, keys, sa, sb, c) ==> (o in m <==> o in m0) && (o in m ==> m[o] == m0[o])
  {
    m := m0;
    if c in l && c in r {
      if c in keys {
        m := m[c := l[c]];
      } else {
        m := m[c + sa := l[c]];
        m := m[c + sb := r[c]];
        if NoClash(l, r, keys, sa, sb) {
          assert c + sa in Suffixed(Clashing(l, r, keys), sa) && c + sb in Suffixed(Clashing(l, r, keys), sb);
        }
      }
    } else if c in l {
      m := m[c := l[c]];
    } else {
      m := m[c := r[c]];
    }
  }

  /** The rows `merge(left_row, right, ...)` for every left row, in left order. */
  function MergeEach(a: seq<Row>, right: Row, keys: seq<string>, sa: string, sb: string): (out: seq<Row>)
    ensures |out| == |a|
    ensures forall i {:trigger Merged(a[i], right, keys, sa, sb)} :: 0 <= i < |a| ==> out[i] == Merged(a[i], right, keys, sa, sb)
  {
    seq(|a|, i requires 0 <= i < |a| => Merged(a[i], right, keys, sa, sb))
  }

  /** `out` holds one merged row per pair, right row major and left row minor: the pair of
      left row `i` and right row `j` sits at position `j * |a| + i`. */
  predicate IsCross(out: seq<Row>, a: seq<Row>, b: seq<Row>, keys: seq<string>, sa: string, sb: string) {
    && |out| == |b| * |a|
    && forall j, i {:trigger Merged(a[i], b[j], keys, sa, sb)} :: 0 <= j < |b| && 0 <= i < |a| ==>
         j * |a| + i < |out| && out[j * |a| + i] == Merged(a[i], b[j], keys, sa, sb)
  }

  /** The rows of the first right row, then the cross product with the other right rows. */
  lemma CrossCons(a: seq<Row>, b: seq<Row>, keys: seq<string>, sa: string, sb: string, rest: seq<Row>)
    requires b != [] && IsCross(rest, a, b[1..], keys, sa, sb)
    ensures IsCross(MergeEach(a, b[0], keys, sa, sb) + rest, a, b, keys, sa, sb)
  {
    BlockLength(MergeEach(a, b[0], keys, sa, sb), rest, |b| - 1);
    CrossConsPairs(a, b, keys, sa, sb, rest);
  }

  /** CrossCons at every pair of rows. */
  lemma CrossConsPairs(a: seq<Row>, b: seq<Row>, keys: seq<string>, sa: string, sb: string, rest: seq<Row>)
    requires b != [] && IsCross(rest, a, b[1..], keys, sa, sb)
    ensures var out := MergeEach(a, b[0], keys, sa, sb) + rest;
      forall j, i {:trigger Merged(a[i], b[j], keys, sa, sb)} :: 0 <= j < |b| && 0 <= i < |a| ==>
        j * |a| + i < |out| && out[j * |a| + i] == Merged(a[i], b[j], keys, sa, sb)
  {
    forall j, i {:trigger Merged(a[i], b[j], keys, sa, sb)} | 0 <= j < |b| && 0 <= i < |a|
      ensures var out := MergeEach(a, b[0], keys, sa, sb) + rest;
        j * |a| + i < |out| && out[j * |a| + i] == Merged(a[i], b[j], keys, sa, sb)
    {
      CrossConsAt(a, b, keys, sa, sb, rest, j, i);
    }
  }

  /** CrossCons at one pair of rows. */
  lemma CrossConsAt(a: seq<Row>, b: seq<Row>, keys: seq<string>, sa: string, sb: string, rest: seq<Row>, j: nat, i: nat)
    requires b != [] && IsCross(rest, a, b[1..], keys, sa, sb)
    requires j < |b| && i < |a|
    ensures var out := MergeEach(a, b[0], keys, sa, sb) + rest;
      j * |a| + i < |out| && out[j * |a| + i] == Merged(a[i], b[j], keys, sa, sb)
  {
    var head := MergeEach(a, b[0], keys, sa, sb);
    var merged := Merged(a[i], b[j], keys, sa, sb);
    if j == 0 {
      assert head[i] == merged;
      BlockAt(head, rest, 0, i, merged);
    } else {
      assert b[1..][j - 1] == b[j];
      assert rest[(j - 1) * |a| + i] == Merged(a[i], b[1..][j - 1], keys, sa, sb);
      BlockAt(head, rest, j, i, merged);
    }
  }

  /** In blocks of `|head|` elements, block 0 of `head + rest` is `head` and block `j + 1` is
      block `j` of `rest`. */
  lemma BlockAt<T>(head: seq<T>, rest: seq<T>, j: nat, i: nat, x: T)
    requires i < |head|
    requires j == 0 ==> head[i] == x
    requires 0 < j ==> (j - 1) * |head| + i < |rest| && rest[(j - 1) * |head| + i] == x
    ensures j * |head| + i < |head + rest| && (head + rest)[j * |head| + i] == x
  {
    if 0 < j {
      assert j * |head| == (j - 1) * |head| + |head|;
    }
  }

  /** `head` followed by `m` blocks of `|head|` elements is `m + 1` blocks. */
  lemma BlockLength<T>(head: seq<T>, rest: seq<T>, m: nat)
    requires |rest| == m * |head|
    ensures |head + rest| == (m + 1) * |head|
  {
  }

  /** The nested loops of every joiner: right row outer, left row inner. */
  function Cross(a: seq<Row>, b: seq<Row>, keys: seq<string>, sa: string, sb: string): (out: seq<Row>)
    ensures IsCross(out, a, b, keys, sa, sb)
  {
    if b == [] then []
    else
      var rest := Cross(a, b[1..], keys, sa, sb);
      CrossCons(a, b, keys, sa, sb, rest);
      MergeEach(a, b[0], keys, sa, sb) + rest
  }

  /** InnerJoiner: the cross product when both groups are present, nothing otherwise. */
  function InnerJoin(sa: string, sb: string, keys: seq<string>, a: Option<seq<Row>>, b: Option<seq<Row>>): (r: Result<seq<Row>>)
    ensures r.Ok?
    ensures a.Some? && b.Some? ==> IsCross(r.value, a.value, b.value, keys, sa, sb)
    ensures a.None? || b.None? ==> r.value == []
  {
    if a.Some? && b.Some? then Ok(Cross(a.value, b.value, keys, sa, sb)) else Ok([])
  }

  /** OuterJoiner: a group missing its partner is passed through; two missing groups raise. */
  function OuterJoin(sa: string, sb: string, keys: seq<string>, a: Option<seq<Row>>, b: Option<seq<Row>>): (r: Result<seq<Row>>)
    ensures r.Err? <==> a.None? && b.None?
    ensures r.Err? ==> r.error == BothGroupsNone
    ensures a.Some? && b.Some? ==> IsCross(r.value, a.value, b.value, keys, sa, sb)
    ensures a.Some? && b.None? ==> r.value == a.value
    ensures a.None? && b.Some? ==> r.value == b.value
  {
    if a.Some? && b.Some? then Ok(Cross(a.value, b.value, keys, sa, sb))
    else if a.Some? then Ok(a.value)
    else if b.Some? then Ok(b.value)
    else Err(BothGroupsNone)
  }

  /** LeftJoiner: only a left group missing its partner is passed through. */
  function LeftJoin(sa: string, sb: string, keys: seq<string>, a: Option<seq<Row>>, b: Option<seq<Row>>): (r: Result<seq<Row>>)
    ensures r.Ok?
    ensures a.Some? && b.Some? ==> IsCross(r.value, a.value, b.value, keys, sa, sb)
    ensures a.Some? && b.None? ==> r.value == a.value
    ensures a.None? ==> r.value == []
  {
    if a.Some? && b.Some? then Ok(Cross(a.value, b.value, keys, sa, sb))
    else if a.Some? then Ok(a.value)
    else Ok([])
  }

  /** RightJoiner: only a right group missing its partner is passed through. */
  function RightJoin(sa: string, sb: string, keys: seq<string>, a: Option<seq<Row>>, b: Option<seq<Row>>): (r: Result<seq<Row>>)
    ensures r.Ok?
    ensures a.Some? && b.Some? ==> IsCross(r.value, a.value, b.value, keys, sa, sb)
    ensures a.None? && b.Some? ==> r.value == b.value
    ensures b.None? ==> r.value == []
  {
    if a.Some? && b.Some? then Ok(Cross(a.value, b.value, keys, sa, sb))
    else if b.Some? then Ok(b.value)
    else Ok([])
  }

  /** A joiner as Join calls it: the key columns, then the left and the right group, either
      of which may be None. */
  type Joiner = (seq<string>, Option<seq<Row>>, Option<seq<Row>>) -> Result<seq<Row>>

  function Inner(sa: string, sb: string): Joiner {
    (keys, a, b) => InnerJoin(sa, sb, keys, a, b)
  }

  function Outer(sa: string, sb: string): Joiner {
    (keys, a, b) => OuterJoin(sa, sb, keys, a, b)
  }

  function Left(sa: string, sb: string): Joiner {
    (keys, a, b) => LeftJoin(sa, sb, keys, a, b)
  }

  function Right(sa: string, sb: string): Joiner {
    (keys, a, b) => RightJoin(sa, sb, keys, a, b)
  }
}
