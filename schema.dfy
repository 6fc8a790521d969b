/**
 * Schema normalisation: flattening the two-level header, keeping the rows
 * whose reign number is numeric, dropping columns by label, inserting a
 * missing column next to an anchor, and cutting the columns after a
 * boundary column.
 */
module Schema {
  import opened Wrappers
  import opened Text
  import opened Tables
  import opened Coercion

  /** `columns.droplevel(0).str.lower()`: the field row of the header, lower-cased. */
  function FlattenLabels(labels: seq<Label>): (h: seq<string>)
    ensures |h| == |labels|
    ensures forall k :: 0 <= k < |h| ==> HasNoUpper(h[k]) && Lower(h[k]) == Lower(labels[k].field)
  {
    seq(|labels|, k requires 0 <= k < |labels| => Lower(labels[k].field))
  }

  /** Only the field row matters: two headers with the same field row flatten alike. */
  lemma FlattenIgnoresGroups(a: seq<Label>, b: seq<Label>)
    requires |a| == |b| && forall k :: 0 <= k < |a| ==> a[k].field == b[k].field
    ensures FlattenLabels(a) == FlattenLabels(b)
  {
  }

  /** The table with its header flattened; the rows are untouched. */
  function Flatten(raw: RawTable): (t: Table)
    requires raw.Valid()
    ensures t.Valid() && t.rows == raw.rows && t.headers == FlattenLabels(raw.labels)
  {
    Table(FlattenLabels(raw.labels), raw.rows)
  }

  /** The rows whose cell `j` converts to a number, in their original order. */
  function KeepNumeric(rows: seq<Row>, j: nat): (r: seq<Row>)
    requires forall row :: row in rows ==> j < |row|
    ensures |r| <= |rows|
    ensures forall row :: row in r ==> row in rows && IsNumeric(row[j])
    ensures forall row :: row in rows && IsNumeric(row[j]) ==> row in r
  {
    if rows == [] then []
    else
      var rest := KeepNumeric(rows[1..], j);
      assert forall row :: row in rows ==> row == rows[0] || row in rows[1..];
      if IsNumeric(rows[0][j]) then [rows[0]] + rest else rest
  }

  /** `a` is `b` with some elements left out and the rest in the same order. */
  predicate IsSubsequence<T(==)>(a: seq<T>, b: seq<T>)
    decreases |b|
  {
    if a == [] then true
    else if b == [] then false
    else if a[0] == b[0] then IsSubsequence(a[1..], b[1..])
    else IsSubsequence(a, b[1..])
  }

  /** The retained rows are a subsequence of the input: relative order is preserved. */
  lemma {:induction false} KeepNumericInOrder(rows: seq<Row>, j: nat)
    requires forall row :: row in rows ==> j < |row|
    ensures IsSubsequence(KeepNumeric(rows, j), rows)
  {
    if rows != [] {
      KeepNumericInOrder(rows[1..], j);
      var rest := KeepNumeric(rows[1..], j);
      if IsNumeric(rows[0][j]) {
        assert KeepNumeric(rows, j) == [rows[0]] + rest;
        assert ([rows[0]] + rest)[1..] == rest;
      } else {
        // a retained row is numeric, so it is never the dropped first row
        assert rest != [] ==> rest[0] != rows[0];
      }
    }
  }

  /** The mask is applied row by row: a single row survives exactly when its cell `j` is numeric. */
  lemma KeepNumericOne(x: Row, j: nat)
    requires j < |x|
    ensures KeepNumeric([x], j) == if IsNumeric(x[j]) then [x] else []
  {
    assert [x][1..] == [];
  }

  /**
   * Every copy of a numeric row is kept and no copy of any other row is;
   * with `KeepNumericInOrder` this fixes the result completely.
   */
  lemma {:induction false} KeepNumericCounts(rows: seq<Row>, j: nat, x: Row)
    requires forall row :: row in rows ==> j < |row|
    requires j < |x|
    ensures multiset(KeepNumeric(rows, j))[x] == if IsNumeric(x[j]) then multiset(rows)[x] else 0
  {
    if rows != [] {
      assert rows == [rows[0]] + rows[1..];
      KeepNumericCounts(rows[1..], j, x);
    }
  }

  /** Keeping the rows of `t` whose column `j` is numeric; the columns are unchanged. */
  function FilterNumeric(t: Table, j: nat): (r: Table)
    requires t.Valid() && j < |t.headers|
    ensures r.Valid() && r.headers == t.headers && r.rows == KeepNumeric(t.rows, j)
  {
    Table(t.headers, KeepNumeric(t.rows, j))
  }

  /** Reign numbers "1", "N/A", "2": the middle row is dropped, the other two kept in order. */
  lemma ReignScenario()
    ensures KeepNumeric([[Str("1")], [Str("N/A")], [Str("2")]], 0) == [[Str("1")], [Str("2")]]
  {
    var rows: seq<Row> := [[Str("1")], [Str("N/A")], [Str("2")]];
    Numeric.NonNumericText();
    assert IsNumeric(Str("1")) && IsNumeric(Str("2"));
    assert rows[1..][1..] == [[Str("2")]];
  }

  /** `columns[-2:]`: the labels of the last two columns (all of them when there are fewer). */
  function LastTwo(h: seq<string>): (r: seq<string>)
    ensures |h| >= 2 ==> r == [h[|h| - 2], h[|h| - 1]]
    ensures |h| < 2 ==> r == h
  {
    if |h| >= 2 then h[|h| - 2..] else h
  }

  /** The positions from `from` on whose label is not in `labels`, in increasing order. */
  function KeptColumns(h: seq<string>, labels: set<string>, from: nat): (idx: seq<nat>)
    requires from <= |h|
    decreases |h| - from
    ensures forall k :: 0 <= k < |idx| ==> from <= idx[k] < |h| && h[idx[k]] !in labels
  {
    if from == |h| then []
    else (if h[from] in labels then [] else [from]) + KeptColumns(h, labels, from + 1)
  }

  /** The kept positions are increasing and include every position whose label is kept. */
  lemma KeptColumnsComplete(h: seq<string>, labels: set<string>, from: nat)
    requires from <= |h|
    ensures var idx := KeptColumns(h, labels, from);
      && (forall a, b :: 0 <= a < b < |idx| ==> idx[a] < idx[b])
      && (forall j :: from <= j < |h| && h[j] !in labels ==> j in idx)
  {
    KeptColumnsIncreasing(h, labels, from);
    KeptColumnsCover(h, labels, from);
  }

  /** Strictly increasing positions. */
  predicate Increasing(idx: seq<nat>) {
    forall a, b :: 0 <= a < b < |idx| ==> idx[a] < idx[b]
  }

  lemma {:induction false} KeptColumnsIncreasing(h: seq<string>, labels: set<string>, from: nat)
    requires from <= |h|
    decreases |h| - from
    ensures Increasing(KeptColumns(h, labels, from))
  {
    if from < |h| {
      KeptColumnsIncreasing(h, labels, from + 1);
      var rest := KeptColumns(h, labels, from + 1);
      var head: seq<nat> := if h[from] in labels then [] else [from];
      var idx := head + rest;
      assert KeptColumns(h, labels, from) == idx;
      forall a, b | 0 <= a < b < |idx| ensures idx[a] < idx[b] {
        var b' := b - |head|;
        assert 0 <= b' < |rest| && idx[b] == rest[b'] && from < rest[b'];
        if a >= |head| {
          var a' := a - |head|;
          assert 0 <= a' < b' && idx[a] == rest[a'];
          assert rest[a'] < rest[b'];
        } else {
          assert idx[a] == from;
        }
      }
    }
  }

  lemma {:induction false} KeptColumnsCover(h: seq<string>, labels: set<string>, from: nat)
    requires from <= |h|
    decreases |h| - from
    ensures forall j :: from <= j < |h| && h[j] !in labels ==> j in KeptColumns(h, labels, from)
  {
    if from < |h| {
      KeptColumnsCover(h, labels, from + 1);
      var rest := KeptColumns(h, labels, from + 1);
      var head: seq<nat> := if h[from] in labels then [] else [from];
      var idx := head + rest;
      assert KeptColumns(h, labels, from) == idx;
      forall j | from <= j < |h| && h[j] !in labels ensures j in idx {
        if j == from {
          assert idx[0] == from;
        } else {
          assert j in rest;
        }
      }
    }
  }

  /** `drop(labels, axis=1)`: every column whose label is one of `labels` is removed. */
  function DropLabels(t: Table, labels: seq<string>): (r: Table)
    requires t.Valid()
    ensures r.Valid() && |r.rows| == |t.rows|
    ensures forall x :: x in r.headers <==> x in t.headers && x !in labels
  {
    var idx := KeptColumns(t.headers, set x | x in labels, 0);
    KeptColumnsComplete(t.headers, set x | x in labels, 0);
    var r := Project(t, idx);
    assert forall x :: x in t.headers && x !in labels ==>
      exists k :: 0 <= k < |idx| && r.headers[k] == x;
    r
  }

  /** The positions `lo` to `hi - 1`, in order. */
  function Range(lo: nat, hi: nat): (r: seq<nat>)
    decreases hi - lo
    ensures |r| == if lo <= hi then hi - lo else 0
    ensures forall k :: 0 <= k < |r| ==> r[k] == lo + k
  {
    if lo >= hi then [] else [lo] + Range(lo + 1, hi)
  }

  lemma {:induction false} KeptColumnsBelow(h: seq<string>, labels: set<string>, from: nat)
    requires 2 <= |h| && from <= |h| - 2
    requires forall j :: 0 <= j < |h| - 2 ==> h[j] !in labels
    requires h[|h| - 2] in labels && h[|h| - 1] in labels
    ensures KeptColumns(h, labels, from) == Range(from, |h| - 2)
    decreases |h| - from
  {
    var n := |h|;
    if from < n - 2 {
      KeptColumnsBelow(h, labels, from + 1);
      assert KeptColumns(h, labels, from) == [from] + KeptColumns(h, labels, from + 1);
      assert Range(from, n - 2) == [from] + Range(from + 1, n - 2);
    } else {
      assert KeptColumns(h, labels, n) == [];
      assert KeptColumns(h, labels, n - 1) == [] + KeptColumns(h, labels, n);
      assert KeptColumns(h, labels, n - 2) == [] + KeptColumns(h, labels, n - 1);
    }
  }

  lemma ProjectRange(t: Table, n: nat)
    requires t.Valid() && n <= |t.headers|
    ensures Project(t, Range(0, n)) == Prefix(t, n)
  {
    var r, p := Project(t, Range(0, n)), Prefix(t, n);
    assert r.headers == p.headers;
    forall i | 0 <= i < |t.rows| ensures r.rows[i] == p.rows[i] {
      assert t.rows[i] in t.rows;
    }
    assert r.rows == p.rows;
  }

  /**
   * When the last two labels occur nowhere else, dropping them removes
   * exactly the last two columns and keeps the others in order.
   */
  lemma DropLastTwoExact(t: Table)
    requires t.Valid() && |t.headers| >= 2
    requires t.headers[|t.headers| - 2] !in t.headers[..|t.headers| - 2]
    requires t.headers[|t.headers| - 1] !in t.headers[..|t.headers| - 2]
    ensures DropLabels(t, LastTwo(t.headers)) == Prefix(t, |t.headers| - 2)
  {
    var h, n := t.headers, |t.headers|;
    var labels := set x | x in LastTwo(h);
    forall j | 0 <= j < n - 2 ensures h[j] !in labels {
      assert h[..n - 2][j] == h[j];
    }
    KeptColumnsBelow(h, labels, 0);
    ProjectRange(t, n - 2);
  }

  /**
   * A label that is not dropped keeps its column: its first occurrence
   * after dropping holds the cells of its first occurrence before.
   */
  lemma DropLabelsKeepsColumn(t: Table, labels: seq<string>, name: string)
    requires t.Valid() && name in t.headers && name !in labels
    ensures SameColumn(t, DropLabels(t, labels), name)
  {
    var idx := KeptColumns(t.headers, set x | x in labels, 0);
    var r := DropLabels(t, labels);
    var q := IndexOf(t.headers, name).value;
    var k0 := DropLabelsFind(t, labels, name);
    assert r == Project(t, idx);
    assert Column(r, k0) == Column(t, q);
  }

  /** Where a kept label's first column lands after dropping. */
  lemma DropLabelsFind(t: Table, labels: seq<string>, name: string) returns (k0: nat)
    requires t.Valid() && name in t.headers && name !in labels
    ensures var idx := KeptColumns(t.headers, set x | x in labels, 0);
      && k0 < |idx| && idx[k0] == IndexOf(t.headers, name).value
      && IndexOf(DropLabels(t, labels).headers, name) == Some(k0)
  {
    var idx := KeptColumns(t.headers, set x | x in labels, 0);
    KeptColumnsComplete(t.headers, set x | x in labels, 0);
    var h := DropLabels(t, labels).headers;
    var q := IndexOf(t.headers, name).value;
    k0 :| 0 <= k0 < |idx| && idx[k0] == q;
    assert h[k0] == name;
    assert name !in h[..k0] by {
      forall k | 0 <= k < k0 ensures h[k] != name {
        assert idx[k] < q;
        assert t.headers[..q][idx[k]] == t.headers[idx[k]];
      }
    }
    IndexOfUnique(h, name, k0);
  }

  /**
   * `df.insert(df.columns.get_loc(anchor) + 1, name, None)`: a column of
   * missing values right after the anchor; an error when the anchor is
   * absent or the label already exists.
   */
  function AddColumnAfter(t: Table, anchor: string, name: string): (r: Result<Table, Error>)
    requires t.Valid()
    ensures r.Err? <==> anchor !in t.headers || name in t.headers
    ensures anchor !in t.headers ==> r == Err(MissingColumn(anchor))
    ensures anchor in t.headers && name in t.headers ==> r == Err(DuplicateColumn(name))
    ensures r.Ok? ==> r.value.Valid()
  {
    match IndexOf(t.headers, anchor)
    case None => Err(MissingColumn(anchor))
    case Some(k) =>
      if name in t.headers then Err(DuplicateColumn(name)) else Ok(InsertColumn(t, k + 1, name, Null))
  }

  /**
   * After the insertion the new column sits right after the anchor and is
   * missing in every row; there is one column more, as many rows, every
   * other cell keeps its value and order, and removing the new column
   * gives back the table.
   */
  lemma AddColumnAfterShape(t: Table, anchor: string, name: string)
    requires t.Valid() && AddColumnAfter(t, anchor, name).Ok?
    ensures var r := AddColumnAfter(t, anchor, name).value;
      var k := IndexOf(t.headers, anchor).value;
      && |r.headers| == |t.headers| + 1 && |r.rows| == |t.rows|
      && r.headers[k] == anchor && r.headers[k + 1] == name
      && (forall i :: 0 <= i < |r.rows| ==> r.rows[i][k + 1] == Null)
      && RemoveColumn(r, k + 1) == t
  {
    var k := IndexOf(t.headers, anchor).value;
    InsertColumnShape(t, k + 1, name, Null);
    RemoveInsertedColumn(t, k + 1, name, Null);
  }

  /**
   * `.loc[:, :name]`: the columns from the first up to and including the
   * first one labelled `name`; an error when there is none.
   */
  function TruncateAt(t: Table, name: string): (r: Result<Table, Error>)
    requires t.Valid()
    ensures r.Err? <==> name !in t.headers
    ensures r.Err? ==> r.error == MissingColumn(name)
    ensures r.Ok? ==> var u := r.value;
      && u.Valid() && 0 < |u.headers| <= |t.headers| && |u.rows| == |t.rows|
      && u.headers == t.headers[..|u.headers|]
      && u.headers[|u.headers| - 1] == name && name !in u.headers[..|u.headers| - 1]
      && forall i :: 0 <= i < |t.rows| ==> u.rows[i] == t.rows[i][..|u.headers|]
  {
    match IndexOf(t.headers, name)
    case None => Err(MissingColumn(name))
    case Some(k) =>
      assert t.headers[..k + 1][..k] == t.headers[..k];
      Ok(Prefix(t, k + 1))
  }

  /** Cutting after the boundary column a second time changes nothing. */
  lemma TruncateIdempotent(t: Table, name: string)
    requires t.Valid() && TruncateAt(t, name).Ok?
    ensures TruncateAt(TruncateAt(t, name).value, name) == TruncateAt(t, name)
  {
    var u := TruncateAt(t, name).value;
    var n := |u.headers|;
    IndexOfUnique(u.headers, name, n - 1);
    var v := TruncateAt(u, name).value;
    assert v.headers == u.headers;
    forall i | 0 <= i < |u.rows| ensures v.rows[i] == u.rows[i] {
      assert u.rows[i] in u.rows;
    }
    assert v.rows == u.rows;
  }
}
