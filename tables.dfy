/**
 * The in-memory table the pipelines work on: ordered column labels and
 * rows of cells, one cell per column, and the column-level operations of
 * a data frame (look up a column by label, read it, assign it, insert,
 * remove, select and rename columns).
 *
 * Column labels are compared exactly; when a label occurs more than once
 * the first occurrence is the one looked up.
 */
module Tables {
  import opened Wrappers
  import opened Dates

  /**
   * A cell: the text of an HTML table cell, a missing value (an empty
   * cell, or a value that failed to convert), an integer, or a date.
   */
  datatype Cell = Str(text: string) | Null | Int(value: int) | Dated(date: Date)

  type Row = seq<Cell>

  datatype Table = Table(headers: seq<string>, rows: seq<Row>) {
    /** Every row has exactly one cell per column. */
    predicate Valid() {
      forall i :: 0 <= i < |rows| ==> |rows[i]| == |headers|
    }
  }

  /** A column label of a table whose header spans two rendered rows. */
  datatype Label = Label(group: string, field: string)

  /** A table as the HTML reader returns it, with two-level column labels. */
  datatype RawTable = RawTable(labels: seq<Label>, rows: seq<Row>) {
    predicate Valid() {
      forall i :: 0 <= i < |rows| ==> |rows[i]| == |labels|
    }
  }

  datatype Error =
    | MissingColumn(name: string)    // a label that is not a column (KeyError)
    | DuplicateColumn(name: string)  // inserting a label that is already a column (ValueError)
    | NoSuchTable(index: nat)        // a page with fewer tables than the index chosen (IndexError)

  /** The position of the first column labelled `name`. */
  function IndexOf(h: seq<string>, name: string): (r: Option<nat>)
    ensures r.Some? ==> r.value < |h| && h[r.value] == name && name !in h[..r.value]
    ensures r.None? <==> name !in h
  {
    if h == [] then None
    else if h[0] == name then Some(0)
    else match IndexOf(h[1..], name)
      case None => None
      case Some(k) =>
        assert h[..k + 1] == [h[0]] + h[1..][..k];
        Some(k + 1)
  }

  /** Any position holding the first occurrence of a label is the one `IndexOf` finds. */
  lemma IndexOfUnique(h: seq<string>, name: string, k: nat)
    requires k < |h| && h[k] == name && name !in h[..k]
    ensures IndexOf(h, name) == Some(k)
  {
  }

  /** Looking up a column: its position, or the error for a missing label. */
  function Locate(h: seq<string>, name: string): (r: Result<nat, Error>)
    ensures r.Ok? ==> IndexOf(h, name) == Some(r.value)
    ensures r.Err? ==> name !in h && r.error == MissingColumn(name)
  {
    match IndexOf(h, name)
    case Some(k) => Ok(k)
    case None => Err(MissingColumn(name))
  }

  /** The cells of column `j`, top to bottom. */
  function Column(t: Table, j: nat): (col: seq<Cell>)
    requires t.Valid() && j < |t.headers|
    ensures |col| == |t.rows|
    ensures forall i :: 0 <= i < |t.rows| ==> col[i] == t.rows[i][j]
  {
    seq(|t.rows|, i requires 0 <= i < |t.rows| => t.rows[i][j])
  }

  /** A column holding the same value in every row (a scalar assignment). */
  function Constant(c: Cell, n: nat): (col: seq<Cell>)
    ensures |col| == n && forall i :: 0 <= i < n ==> col[i] == c
  {
    seq(n, i => c)
  }

  /**
   * `df[name] = vals`: overwrite the column labelled `name` in place, or
   * append it as the last column when there is none.
   */
  function SetColumn(t: Table, name: string, vals: seq<Cell>): (r: Table)
    requires t.Valid() && |vals| == |t.rows|
    ensures r.Valid() && |r.rows| == |t.rows|
    ensures r.headers == if name in t.headers then t.headers else t.headers + [name]
  {
    match IndexOf(t.headers, name)
    case Some(k) =>
      Table(t.headers, seq(|t.rows|, i requires 0 <= i < |t.rows| => t.rows[i][k := vals[i]]))
    case None =>
      Table(t.headers + [name], seq(|t.rows|, i requires 0 <= i < |t.rows| => t.rows[i] + [vals[i]]))
  }

  /** Row by row: an existing column is overwritten in place, a new one is appended. */
  lemma SetColumnRows(t: Table, name: string, vals: seq<Cell>)
    requires t.Valid() && |vals| == |t.rows|
    ensures var r := SetColumn(t, name, vals);
      && (name in t.headers ==> forall i :: 0 <= i < |t.rows| ==>
            r.rows[i] == t.rows[i][IndexOf(t.headers, name).value := vals[i]])
      && (name !in t.headers ==> forall i :: 0 <= i < |t.rows| ==> r.rows[i] == t.rows[i] + [vals[i]])
  {
    forall i | 0 <= i < |t.rows| ensures |t.rows[i]| == |t.headers| {
      assert t.rows[i] in t.rows;
    }
  }

  /**
   * After the assignment the column labelled `name` holds `vals`, and every
   * cell of every other column keeps its value.
   */
  lemma SetColumnContents(t: Table, name: string, vals: seq<Cell>)
    requires t.Valid() && |vals| == |t.rows|
    ensures var r := SetColumn(t, name, vals);
      && IndexOf(r.headers, name).Some? && Column(r, IndexOf(r.headers, name).value) == vals
      && forall i, k :: 0 <= i < |t.rows| && 0 <= k < |t.headers| && t.headers[k] != name ==>
           r.rows[i][k] == t.rows[i][k]
  {
    var r := SetColumn(t, name, vals);
    forall i | 0 <= i < |t.rows| ensures |t.rows[i]| == |t.headers| {
      assert t.rows[i] in t.rows;
    }
    if name !in t.headers {
      IndexOfUnique(r.headers, name, |t.headers|);
    }
  }

  /** `df.insert(loc, name, fill)` without its duplicate check: a new column at position `loc`. */
  function InsertColumn(t: Table, loc: nat, name: string, fill: Cell): (r: Table)
    requires t.Valid() && loc <= |t.headers|
    ensures r.Valid() && |r.rows| == |t.rows|
  {
    Table(t.headers[..loc] + [name] + t.headers[loc..],
          seq(|t.rows|, i requires 0 <= i < |t.rows| => t.rows[i][..loc] + [fill] + t.rows[i][loc..]))
  }

  /** Removing column `j`: the partner of `InsertColumn`. */
  function RemoveColumn(t: Table, j: nat): (r: Table)
    requires t.Valid() && j < |t.headers|
    ensures r.Valid() && |r.rows| == |t.rows|
  {
    Table(t.headers[..j] + t.headers[j + 1..],
          seq(|t.rows|, i requires 0 <= i < |t.rows| => t.rows[i][..j] + t.rows[i][j + 1..]))
  }

  /**
   * Inserting a column puts the label and the fill value at position
   * `loc` of the header and of every row and shifts the rest one place right.
   */
  lemma InsertColumnShape(t: Table, loc: nat, name: string, fill: Cell)
    requires t.Valid() && loc <= |t.headers|
    ensures var r := InsertColumn(t, loc, name, fill);
      && |r.headers| == |t.headers| + 1 && r.headers[loc] == name
      && (forall k :: 0 <= k < loc ==> r.headers[k] == t.headers[k])
      && (forall k :: loc < k < |r.headers| ==> r.headers[k] == t.headers[k - 1])
      && (forall i :: 0 <= i < |t.rows| ==> r.rows[i][loc] == fill)
      && (forall i, k :: 0 <= i < |t.rows| && 0 <= k < loc ==> r.rows[i][k] == t.rows[i][k])
      && (forall i, k :: 0 <= i < |t.rows| && loc < k < |r.headers| ==> r.rows[i][k] == t.rows[i][k - 1])
  {
    var r := InsertColumn(t, loc, name, fill);
    forall i | 0 <= i < |t.rows|
      ensures |t.rows[i]| == |t.headers|
    {
      assert t.rows[i] in t.rows;
    }
  }

  lemma RemoveInsertedCell<T>(row: seq<T>, loc: nat, x: T)
    requires loc <= |row|
    ensures var r := row[..loc] + [x] + row[loc..]; r[..loc] + r[loc + 1..] == row
  {
    var r := row[..loc] + [x] + row[loc..];
    assert r[..loc] == row[..loc];
    assert r[loc + 1..] == row[loc..];
  }

  /** Removing the inserted column gives back the original table. */
  lemma RemoveInsertedColumn(t: Table, loc: nat, name: string, fill: Cell)
    requires t.Valid() && loc <= |t.headers|
    ensures RemoveColumn(InsertColumn(t, loc, name, fill), loc) == t
  {
    var r := InsertColumn(t, loc, name, fill);
    var back := RemoveColumn(r, loc);
    RemoveInsertedCell(t.headers, loc, name);
    forall i | 0 <= i < |t.rows|
      ensures back.rows[i] == t.rows[i]
    {
      assert t.rows[i] in t.rows;
      RemoveInsertedCell(t.rows[i], loc, fill);
    }
    assert back.rows == t.rows;
  }

  /** The first `n` columns. */
  function Prefix(t: Table, n: nat): (r: Table)
    requires t.Valid() && n <= |t.headers|
    ensures r.Valid() && |r.rows| == |t.rows| && r.headers == t.headers[..n]
    ensures forall i :: 0 <= i < |t.rows| ==> r.rows[i] == t.rows[i][..n]
  {
    Table(t.headers[..n], seq(|t.rows|, i requires 0 <= i < |t.rows| => t.rows[i][..n]))
  }

  /** The columns at the positions `idx`, in that order. */
  function Project(t: Table, idx: seq<nat>): (r: Table)
    requires t.Valid() && forall k :: 0 <= k < |idx| ==> idx[k] < |t.headers|
    ensures r.Valid() && |r.rows| == |t.rows| && |r.headers| == |idx|
    ensures forall k :: 0 <= k < |idx| ==> r.headers[k] == t.headers[idx[k]]
    ensures forall i, k :: 0 <= i < |t.rows| && 0 <= k < |idx| ==> r.rows[i][k] == t.rows[i][idx[k]]
  {
    Table(seq(|idx|, k requires 0 <= k < |idx| => t.headers[idx[k]]),
          seq(|t.rows|, i requires 0 <= i < |t.rows| =>
            seq(|idx|, k requires 0 <= k < |idx| => t.rows[i][idx[k]])))
  }

  /** `rename(columns=m)`: labels that are keys of `m` are replaced, all others kept. */
  function RenameHeaders(h: seq<string>, m: map<string, string>): (r: seq<string>)
    ensures |r| == |h|
    ensures forall k :: 0 <= k < |h| && h[k] !in m ==> r[k] == h[k]
    ensures forall k :: 0 <= k < |h| && h[k] in m ==> r[k] == m[h[k]]
  {
    seq(|h|, k requires 0 <= k < |h| => if h[k] in m then m[h[k]] else h[k])
  }

  function Rename(t: Table, m: map<string, string>): (r: Table)
    requires t.Valid()
    ensures r.Valid() && r.rows == t.rows && r.headers == RenameHeaders(t.headers, m)
  {
    Table(RenameHeaders(t.headers, m), t.rows)
  }

  /**
   * Renaming with `back`, which maps every new label to its old one, undoes
   * a renaming when none of the table's labels is itself a new label.
   */
  lemma RenameUndone(h: seq<string>, m: map<string, string>, back: map<string, string>)
    requires forall x :: x in m ==> m[x] in back && back[m[x]] == x
    requires forall k :: 0 <= k < |h| ==> h[k] !in back
    ensures RenameHeaders(RenameHeaders(h, m), back) == h
  {
  }

  /** Renaming twice is renaming once when no new label is itself renamed. */
  lemma RenameIdempotent(h: seq<string>, m: map<string, string>)
    requires forall x :: x in m ==> m[x] !in m
    ensures RenameHeaders(RenameHeaders(h, m), m) == RenameHeaders(h, m)
  {
  }

  /** A label that renaming neither removes nor produces keeps its first position. */
  lemma RenameKeepsIndexOf(h: seq<string>, m: map<string, string>, name: string)
    requires name !in m && forall x :: x in m ==> m[x] != name
    ensures IndexOf(RenameHeaders(h, m), name) == IndexOf(h, name)
  {
    var r := RenameHeaders(h, m);
    assert forall k :: 0 <= k < |h| ==> (r[k] == name <==> h[k] == name);
    match IndexOf(h, name)
    case Some(k) =>
      assert name !in r[..k] by {
        forall j | 0 <= j < k ensures r[j] != name {
          assert h[..k][j] == h[j];
        }
      }
      IndexOfUnique(r, name, k);
    case None =>
      assert name !in r;
  }

  /**
   * `u` holds the same column labelled `name` as `t`: both have one, with
   * the same number of rows, and the first such column of each has the same cells.
   */
  ghost predicate SameColumn(t: Table, u: Table, name: string)
    requires t.Valid() && u.Valid()
  {
    && |u.rows| == |t.rows|
    && IndexOf(t.headers, name).Some? && IndexOf(u.headers, name).Some?
    && Column(u, IndexOf(u.headers, name).value) == Column(t, IndexOf(t.headers, name).value)
  }

  /** Assigning another column leaves the column labelled `name` where it was, with its cells. */
  lemma SetColumnKeeps(t: Table, other: string, vals: seq<Cell>, name: string)
    requires t.Valid() && |vals| == |t.rows| && name in t.headers && other != name
    ensures var r := SetColumn(t, other, vals);
      SameColumn(t, r, name) && IndexOf(r.headers, name) == IndexOf(t.headers, name)
  {
    var r := SetColumn(t, other, vals);
    var c := IndexOf(t.headers, name).value;
    SetColumnContents(t, other, vals);
    assert r.headers[..c] == t.headers[..c];
    IndexOfUnique(r.headers, name, c);
    assert Column(r, c) == Column(t, c);
  }

  /** Renaming that neither removes nor produces `name` keeps its column. */
  lemma RenameKeeps(t: Table, m: map<string, string>, name: string)
    requires t.Valid() && name in t.headers
    requires name !in m && forall x :: x in m ==> m[x] != name
    ensures SameColumn(t, Rename(t, m), name) && IndexOf(Rename(t, m).headers, name) == IndexOf(t.headers, name)
  {
    RenameKeepsIndexOf(t.headers, m, name);
  }

  /**
   * A label renamed to `to`, which no other label is renamed to and which
   * is not already a label, is found after renaming where `from` was.
   */
  lemma RenameMovesIndexOf(h: seq<string>, m: map<string, string>, from: string, to: string)
    requires from in h && from in m && m[from] == to && to !in h
    requires forall x :: x in m && x != from ==> m[x] != to
    ensures IndexOf(RenameHeaders(h, m), to) == IndexOf(h, from)
  {
    var r := RenameHeaders(h, m);
    var k := IndexOf(h, from).value;
    assert to !in r[..k] by {
      forall j | 0 <= j < k ensures r[j] != to {
        assert h[..k][j] == h[j];
      }
    }
    IndexOfUnique(r, to, k);
  }

  /** After renaming, no label is one of the renamed ones, provided no new label is itself renamed. */
  lemma RenamedLabelsGone(h: seq<string>, m: map<string, string>)
    requires forall x :: x in m ==> m[x] !in m
    ensures forall k :: 0 <= k < |h| ==> RenameHeaders(h, m)[k] !in m
  {
  }
}
