/**
 * Dimension tables with surrogate keys: the distinct values of a fact
 * column in order of first occurrence, numbered from 1, and the rewrite of
 * the fact column to those numbers.
 */
module Dimensions {
  import opened Tables

  predicate NoDuplicates<T(==)>(s: seq<T>) {
    forall i, j :: 0 <= i < j < |s| ==> s[i] != s[j]
  }

  /** `Series.unique()`: the distinct values of `s`, each once, in order of first occurrence. */
  function Distinct<T(==, !new)>(s: seq<T>): (r: seq<T>)
    ensures NoDuplicates(r)
    ensures forall x :: x in r <==> x in s
    ensures |r| <= |s|
  {
    if s == [] then []
    else
      var d := Distinct(s[..|s| - 1]);
      var x := s[|s| - 1];
      assert s == s[..|s| - 1] + [x];
      if x in d then d else d + [x]
  }

  /** The position of the first occurrence of `x` in `s`. */
  function FirstIndex<T(==)>(s: seq<T>, x: T): (k: nat)
    requires x in s
    ensures k < |s| && s[k] == x && x !in s[..k]
  {
    if s[0] == x then 0
    else
      var k := FirstIndex(s[1..], x) + 1;
      assert s[..k] == [s[0]] + s[1..][..k - 1];
      k
  }

  lemma FirstIndexInPrefix<T>(s: seq<T>, n: nat, x: T)
    requires n <= |s| && x in s[..n]
    ensures x in s && FirstIndex(s, x) == FirstIndex(s[..n], x)
  {
    var b := FirstIndex(s[..n], x);
    assert s[..n][b] == s[b];
    assert s[..n][..b] == s[..b];
    IndexOfFirst(s, x, b);
  }

  /** Any position holding the first occurrence of `x` is the one `FirstIndex` finds. */
  lemma IndexOfFirst<T>(s: seq<T>, x: T, k: nat)
    requires k < |s| && s[k] == x && x !in s[..k]
    ensures FirstIndex(s, x) == k
  {
  }

  /** The values of `d` occur in `s`, and in the order of their first occurrences there. */
  ghost predicate InFirstOccurrenceOrder<T>(s: seq<T>, d: seq<T>) {
    && (forall x :: x in d ==> x in s)
    && (forall i, j :: 0 <= i < j < |d| ==> FirstIndex(s, d[i]) < FirstIndex(s, d[j]))
  }

  /** The distinct values come in the order of their first occurrences in the column. */
  lemma {:induction false} DistinctInFirstOccurrenceOrder<T(!new)>(s: seq<T>)
    ensures InFirstOccurrenceOrder(s, Distinct(s))
  {
    if s != [] {
      var n := |s| - 1;
      var p, x := s[..n], s[n];
      DistinctInFirstOccurrenceOrder(p);
      var dp := Distinct(p);
      var d := Distinct(s);
      assert s == p + [x];
      forall i, j | 0 <= i < j < |d|
        ensures FirstIndex(s, d[i]) < FirstIndex(s, d[j])
      {
        assert d[i] == dp[i] && dp[i] in p;
        FirstIndexInPrefix(s, n, d[i]);
        if j < |dp| {
          assert d[j] == dp[j];
          FirstIndexInPrefix(s, n, d[j]);
          assert FirstIndex(p, dp[i]) < FirstIndex(p, dp[j]);
        } else {
          assert d[j] == x && x !in p;
          IndexOfFirst(s, x, n);
        }
      }
    }
  }

  /** A dimension entry: the surrogate key and the value it stands for. */
  datatype DimRow = DimRow(id: int, name: Cell)

  /**
   * The dimension of a fact column: `DataFrame({col: s.unique()})` with
   * `insert(loc=0, value=index + 1)`.
   */
  function Dimension(col: seq<Cell>): (dim: seq<DimRow>)
    ensures |dim| <= |col|
    ensures forall k :: 0 <= k < |dim| ==> dim[k].id == k + 1 && dim[k].name in col
    ensures NoDuplicates(Names(dim))
  {
    var names := Distinct(col);
    seq(|names|, k requires 0 <= k < |names| => DimRow(k + 1, names[k]))
  }

  /** `set_index(name)[id].to_dict()`: from each name to its key (a later entry wins a repeated name). */
  function IdMap(dim: seq<DimRow>): (ids: map<Cell, int>)
    ensures forall c :: c in ids <==> c in Names(dim)
  {
    if dim == [] then map[]
    else
      var last := dim[|dim| - 1];
      NamesOfPrefix(dim);
      IdMap(dim[..|dim| - 1])[last.name := last.id]
  }

  /** The names of a dimension, in order. */
  function Names(dim: seq<DimRow>): seq<Cell>
  {
    seq(|dim|, k requires 0 <= k < |dim| => dim[k].name)
  }

  lemma NamesOfPrefix(dim: seq<DimRow>)
    requires dim != []
    ensures Names(dim) == Names(dim[..|dim| - 1]) + [dim[|dim| - 1].name]
  {
    var p := dim[..|dim| - 1];
    assert forall k :: 0 <= k < |p| ==> Names(dim)[k] == Names(p)[k];
  }

  lemma {:induction false} IdMapOfUniqueNames(dim: seq<DimRow>)
    requires NoDuplicates(Names(dim))
    ensures forall c :: c in IdMap(dim) <==> c in Names(dim)
    ensures forall k :: 0 <= k < |dim| ==> dim[k].name in IdMap(dim) && IdMap(dim)[dim[k].name] == dim[k].id
  {
    if dim != [] {
      var p := dim[..|dim| - 1];
      NamesOfPrefix(dim);
      assert forall i :: 0 <= i < |p| ==> Names(p)[i] == Names(dim)[i];
      IdMapOfUniqueNames(p);
      assert forall k :: 0 <= k < |dim| ==> Names(dim)[k] == dim[k].name;
    }
  }

  /** A dimension's keys are 1..n in order and its names are the distinct column values. */
  lemma DimensionShape(col: seq<Cell>)
    ensures var dim := Dimension(col);
      && Names(dim) == Distinct(col) && |dim| <= |col|
      && (forall k :: 0 <= k < |dim| ==> dim[k].id == k + 1)
  {
  }

  /** The lookup of a dimension numbered 1..n with unique names. */
  lemma KeysOfNames(dim: seq<DimRow>)
    requires NoDuplicates(Names(dim))
    requires forall k :: 0 <= k < |dim| ==> dim[k].id == k + 1
    ensures forall c :: c in IdMap(dim) <==> c in Names(dim)
    ensures forall c :: c in Names(dim) ==> 1 <= IdMap(dim)[c] <= |dim| && dim[IdMap(dim)[c] - 1].name == c
  {
    IdMapOfUniqueNames(dim);
    forall k | 0 <= k < |dim|
      ensures var c := Names(dim)[k]; 1 <= IdMap(dim)[c] <= |dim| && dim[IdMap(dim)[c] - 1].name == c
    {
      KeyOfName(dim, k);
    }
  }

  /** The name of entry `n` has key `n + 1`, which leads back to the same entry. */
  lemma KeyOfName(dim: seq<DimRow>, n: nat)
    requires NoDuplicates(Names(dim))
    requires forall k :: 0 <= k < |dim| ==> dim[k].id == k + 1
    requires n < |dim|
    ensures var c := Names(dim)[n];
      c in IdMap(dim) && IdMap(dim)[c] == n + 1 && dim[IdMap(dim)[c] - 1].name == c
  {
    IdMapOfUniqueNames(dim);
  }

  /**
   * Every value of the column has a key in the dimension's lookup, the key
   * lies in 1..n and the dimension entry with that key holds the value;
   * the lookup has no other keys.
   */
  lemma DimensionKeys(col: seq<Cell>)
    ensures var dim := Dimension(col); var ids := IdMap(dim);
      && (forall c :: c in ids <==> c in col)
      && (forall c :: c in col ==> 1 <= ids[c] <= |dim| && dim[ids[c] - 1].name == c)
  {
    DimensionNames(col);
    KeysOfColumn(col, Dimension(col));
  }

  lemma DimensionNames(col: seq<Cell>)
    ensures forall c :: c in Names(Dimension(col)) <==> c in col
  {
    DimensionShape(col);
  }

  lemma KeysOfColumn(col: seq<Cell>, dim: seq<DimRow>)
    requires NoDuplicates(Names(dim))
    requires forall k :: 0 <= k < |dim| ==> dim[k].id == k + 1
    requires forall c :: c in Names(dim) <==> c in col
    ensures var ids := IdMap(dim);
      && (forall c :: c in ids <==> c in col)
      && (forall c :: c in col ==> 1 <= ids[c] <= |dim| && dim[ids[c] - 1].name == c)
  {
    KeysOfNames(dim);
  }

  /** `Series.map(dict)`: the key of a value, or missing when the value has none. */
  function Lookup(ids: map<Cell, int>, c: Cell): Cell {
    if c in ids then Int(ids[c]) else Null
  }

  /** Column `j` with every cell replaced through `ids`; every other cell unchanged. */
  function RewriteColumn(t: Table, j: nat, ids: map<Cell, int>): (r: Table)
    requires t.Valid() && j < |t.headers|
    ensures r.Valid() && r.headers == t.headers && |r.rows| == |t.rows|
    ensures forall i :: 0 <= i < |t.rows| ==> r.rows[i] == t.rows[i][j := Lookup(ids, t.rows[i][j])]
  {
    Table(t.headers, seq(|t.rows|, i requires 0 <= i < |t.rows| => t.rows[i][j := Lookup(ids, t.rows[i][j])]))
  }

  /** `ids` gives every value of `col` a key in 1..|dim| whose entry in `dim` is that value. */
  ghost predicate KeysFor(col: seq<Cell>, dim: seq<DimRow>, ids: map<Cell, int>) {
    forall c :: c in col ==> c in ids && 1 <= ids[c] <= |dim| && dim[ids[c] - 1].name == c
  }

  /** The rewritten cells are keys that lead back to the original values. */
  lemma RewriteKeys(t: Table, j: nat, dim: seq<DimRow>, ids: map<Cell, int>)
    requires t.Valid() && j < |t.headers| && KeysFor(Column(t, j), dim, ids)
    ensures var r := RewriteColumn(t, j, ids);
      forall i :: 0 <= i < |t.rows| ==>
        r.rows[i][j].Int? && 1 <= r.rows[i][j].value <= |dim| && dim[r.rows[i][j].value - 1].name == t.rows[i][j]
  {
    var col := Column(t, j);
    forall i | 0 <= i < |t.rows| ensures t.rows[i][j] in col && |t.rows[i]| == |t.headers| {
      assert col[i] == t.rows[i][j];
      assert t.rows[i] in t.rows;
    }
  }

  /** Two rows share a key exactly when they shared the value. */
  lemma RewriteInjective(t: Table, j: nat, dim: seq<DimRow>, ids: map<Cell, int>)
    requires t.Valid() && j < |t.headers| && KeysFor(Column(t, j), dim, ids)
    ensures var r := RewriteColumn(t, j, ids);
      forall a, b :: 0 <= a < |t.rows| && 0 <= b < |t.rows| ==>
        (r.rows[a][j] == r.rows[b][j] <==> t.rows[a][j] == t.rows[b][j])
  {
    RewriteKeys(t, j, dim, ids);
  }

  /** Cells outside the rewritten column keep their values. */
  lemma RewriteFrame(t: Table, j: nat, ids: map<Cell, int>)
    requires t.Valid() && j < |t.headers|
    ensures var r := RewriteColumn(t, j, ids);
      forall i, k :: 0 <= i < |t.rows| && 0 <= k < |t.headers| && k != j ==> r.rows[i][k] == t.rows[i][k]
  {
    forall i | 0 <= i < |t.rows| ensures |t.rows[i]| == |t.headers| {
      assert t.rows[i] in t.rows;
    }
  }

  /**
   * The round trip of a rewrite through `ids`: every cell of column `j` becomes
   * a key whose entry in `dim` is the cell's original value; two rows get the
   * same key exactly when their original values are equal; all other cells
   * are unchanged.
   */
  ghost predicate RoundTrip(t: Table, j: nat, dim: seq<DimRow>, ids: map<Cell, int>)
    requires t.Valid() && j < |t.headers|
  {
    var r := RewriteColumn(t, j, ids);
    && (forall i :: 0 <= i < |t.rows| ==>
          r.rows[i][j].Int? && 1 <= r.rows[i][j].value <= |dim|
          && dim[r.rows[i][j].value - 1].name == t.rows[i][j])
    && (forall a, b :: 0 <= a < |t.rows| && 0 <= b < |t.rows| ==>
          (r.rows[a][j] == r.rows[b][j] <==> t.rows[a][j] == t.rows[b][j]))
    && (forall i, k :: 0 <= i < |t.rows| && 0 <= k < |t.headers| && k != j ==> r.rows[i][k] == t.rows[i][k])
  }

  /** Foreign-key round trip: mapping a column through its own dimension's lookup. */
  lemma ForeignKeyRoundTrip(t: Table, j: nat)
    requires t.Valid() && j < |t.headers|
    ensures var dim := Dimension(Column(t, j)); RoundTrip(t, j, dim, IdMap(dim))
  {
    DimensionKeysFor(Column(t, j));
    RewriteRoundTrip(t, j, Dimension(Column(t, j)), IdMap(Dimension(Column(t, j))));
  }

  lemma DimensionKeysFor(col: seq<Cell>)
    ensures KeysFor(col, Dimension(col), IdMap(Dimension(col)))
  {
    DimensionKeys(col);
  }

  /** The round trip holds for any dimension and lookup that key every value of the column. */
  lemma RewriteRoundTrip(t: Table, j: nat, dim: seq<DimRow>, ids: map<Cell, int>)
    requires t.Valid() && j < |t.headers| && KeysFor(Column(t, j), dim, ids)
    ensures RoundTrip(t, j, dim, ids)
  {
    RewriteKeys(t, j, dim, ids);
    RewriteInjective(t, j, dim, ids);
    RewriteFrame(t, j, ids);
  }

  /** Rewriting another column leaves the column labelled `name` as it was. */
  lemma RewriteKeeps(t: Table, j: nat, ids: map<Cell, int>, name: string)
    requires t.Valid() && j < |t.headers| && name in t.headers && t.headers[j] != name
    ensures var r := RewriteColumn(t, j, ids); SameColumn(t, r, name) && r.headers == t.headers
  {
    var c := IndexOf(t.headers, name).value;
    var r := RewriteColumn(t, j, ids);
    assert Column(r, c) == Column(t, c);
  }

  /** `keys[i]` is a key of `dim` whose entry holds `values[i]`, for every row `i`. */
  ghost predicate KeyedBy(keys: seq<Cell>, values: seq<Cell>, dim: seq<DimRow>) {
    && |keys| == |values|
    && forall i :: 0 <= i < |keys| ==>
         keys[i].Int? && 1 <= keys[i].value <= |dim| && dim[keys[i].value - 1].name == values[i]
  }

  /** The rewritten column is keyed by the dimension of the column it replaced. */
  lemma RewriteKeyed(t: Table, j: nat)
    requires t.Valid() && j < |t.headers|
    ensures var dim := Dimension(Column(t, j));
      KeyedBy(Column(RewriteColumn(t, j, IdMap(dim)), j), Column(t, j), dim)
  {
    DimensionKeysFor(Column(t, j));
    RewriteKeyedBy(t, j, Dimension(Column(t, j)), IdMap(Dimension(Column(t, j))));
  }

  lemma RewriteKeyedBy(t: Table, j: nat, dim: seq<DimRow>, ids: map<Cell, int>)
    requires t.Valid() && j < |t.headers| && KeysFor(Column(t, j), dim, ids)
    ensures KeyedBy(Column(RewriteColumn(t, j, ids), j), Column(t, j), dim)
  {
    RewriteKeys(t, j, dim, ids);
  }

  /**
   * The single-source dimension step (`unique` then `insert` of the key
   * column) as a loop: collect the values not seen before, in order, then
   * number them from 1.
   */
  method BuildDimension(col: seq<Cell>) returns (dim: seq<DimRow>)
    ensures dim == Dimension(col)
    ensures |dim| <= |col| && forall k :: 0 <= k < |dim| ==> dim[k].id == k + 1
  {
    var names: seq<Cell> := [];
    var seen: set<Cell> := {};
    for i := 0 to |col|
      invariant names == Distinct(col[..i])
      invariant forall c :: c in seen <==> c in names
    {
      assert col[..i + 1][..i] == col[..i];
      if col[i] !in seen {
        names := names + [col[i]];
        seen := seen + {col[i]};
      }
    }
    assert col[..|col|] == col;
    dim := [];
    for k := 0 to |names|
      invariant |dim| == k
      invariant forall n :: 0 <= n < k ==> dim[n] == DimRow(n + 1, names[n])
    {
      dim := dim + [DimRow(k + 1, names[k])];
    }
  }
}
