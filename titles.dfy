/**
 * The multi-source pipeline: for each of fourteen title-history pages,
 * choose the table that holds the history, normalise its header, add the
 * day-count column one page lacks, keep the numbered rows and the columns
 * up to `notes`, rename, convert the typed columns and stamp the title
 * name. Each processed table is appended to the same database table; the
 * first failure ends the run.
 *
 * Fetching the pages, parsing the HTML and the database writes are
 * outside the model: the pipeline starts from the tables found on each
 * page and ends with the tables that would be appended.
 */
module Titles {
  import opened Wrappers
  import opened Tables
  import opened Coercion
  import opened Schema
  import opened Frames

  /** A title-history page and the title name stamped on its rows. */
  datatype Source = Source(page: string, name: string)

  /** The pages in processing order; source `i` (from 1) is `Sources[i - 1]`. */
  const Sources: seq<Source> := [
    Source("List_of_WWE_Champions", "WWE Championship"),
    Source("List_of_World_Heavyweight_Champions_(WWE,_2002\U{2013}2013)", "World Heavyweight Championship"),
    Source("World_Heavyweight_Championship_(WWE)", "World Heavyweight Championship (WWE)"),
    Source("List_of_WWE_Intercontinental_Champions", "Intercontinental Championship"),
    Source("List_of_WWE_United_States_Champions", "United States Championship"),
    Source("List of WWE Women's Champions (1956\U{2013}2010)", "WWE Women's Championship"),
    Source("List of Women's World Champions (WWE)", "Women's World Championship"),
    Source("List of WWE Women's Champions", "WWE Women's Championship (2016)"),
    Source("List of WWE Divas Champions", "WWE Divas Championship"),
    Source("List of ECW World Heavyweight Champions", "ECW World Heavyweight Championship"),
    Source("List of World Tag Team Champions (WWE)", "World Tag Team Championship"),
    Source("List of World Tag Team Champions (WWE, 1971\U{2013}2010)", "World Tag Team Championship (WWE)"),
    Source("List of WWE Tag Team Champions", "WWE Tag Team Championship"),
    Source("List of WWE Women's Tag Team Champions", "WWE Women's Tag Team Championship")
  ]

  /** The source whose page lacks the recognised-days column. */
  const FixupSource := 12

  const TitleRenames: map<string, string> := map["no." := "title_reign", "days recog." := "days_recognized"]

  /** Every source stamps a title name of its own, so the appended rows stay distinguishable. */
  lemma SourceLabelsDistinct()
    ensures |Sources| == 14
    ensures forall a, b :: 0 <= a < b < |Sources| ==> Sources[a].name != Sources[b].name
  {
  }

  /** The index, in the list of tables read from source `i`'s page, of the table holding the title history. */
  function TableIndex(i: nat): (k: nat)
    ensures 1 <= k <= 3
    ensures k == 3 <==> i == 3
    ensures k == 1 <==> i == 14
  {
    if i == 3 then 3 else if i == 14 then 1 else 2
  }

  /** The third page keeps its history at index 3 of its list of tables, the last at index 1, every other one at index 2. */
  lemma TableChoice()
    ensures TableIndex(3) == 3 && TableIndex(14) == 1
    ensures forall i :: 1 <= i <= |Sources| && i != 3 && i != 14 ==> TableIndex(i) == 2
  {
  }

  /**
   * The header flattened and, for the fixup source only, a column of
   * missing recognised-day counts inserted right after `days`.
   */
  function Normalise(i: nat, raw: RawTable): (r: Result<Table, Error>)
    requires raw.Valid()
    ensures i != FixupSource ==> r == Ok(Flatten(raw))
    ensures r.Ok? ==> r.value.Valid() && |r.value.rows| == |raw.rows|
  {
    var t := Flatten(raw);
    if i == FixupSource then AddColumnAfter(t, "days", "days recog.") else Ok(t)
  }

  /** For the fixup source the inserted column sits right after `days`, is missing everywhere and is all that changed. */
  lemma FixupShape(raw: RawTable)
    requires raw.Valid() && Normalise(FixupSource, raw).Ok?
    ensures var t, r := Flatten(raw), Normalise(FixupSource, raw).value;
      var k := IndexOf(t.headers, "days").value;
      && r.headers[k] == "days" && r.headers[k + 1] == "days recog."
      && (forall i :: 0 <= i < |r.rows| ==> r.rows[i][k + 1] == Null)
      && RemoveColumn(r, k + 1) == t
  {
    AddColumnAfterShape(Flatten(raw), "days", "days recog.");
  }

  /**
   * Keep the rows whose reign number is numeric, the columns up to and
   * including `notes`, and rename the reign number and the
   * recognised-day count.
   */
  function Select(t: Table): (r: Result<Table, Error>)
    requires t.Valid()
    ensures r.Err? <==> "no." !in t.headers || "notes" !in t.headers
    ensures r.Ok? ==> r.value.Valid() && |r.value.rows| <= |t.rows| && |r.value.headers| <= |t.headers|
  {
    var no :- Locate(t.headers, "no.");
    var cut :- TruncateAt(FilterNumeric(t, no), "notes");
    Ok(Rename(cut, TitleRenames))
  }

  /** The labels the conversion step reads. */
  predicate HasAssignedColumns(h: seq<string>) {
    "reign" in h && "date" in h && "days" in h && "days_recognized" in h
  }

  /**
   * `assign`, column by column: the reign becomes an integer, the date a
   * calendar day, the two day counts integers after the sentinel is
   * rewritten, each computed from the incoming table, and the title
   * column holds `name` in every row.
   */
  function AssignColumns(t: Table, name: string): (r: Table)
    requires t.Valid() && HasAssignedColumns(t.headers)
    ensures r.Valid() && |r.rows| == |t.rows|
    ensures r.headers == if "title" in t.headers then t.headers else t.headers + ["title"]
  {
    var t1 := SetColumn(t, "reign", NumericColumn(Column(t, IndexOf(t.headers, "reign").value)));
    var t2 := SetColumn(t1, "date", DateColumn(Column(t, IndexOf(t.headers, "date").value)));
    var t3 := SetColumn(t2, "days", DaysColumn(Column(t, IndexOf(t.headers, "days").value)));
    var t4 := SetColumn(t3, "days_recognized", DaysColumn(Column(t, IndexOf(t.headers, "days_recognized").value)));
    SetColumn(t4, "title", Constant(Str(name), |t.rows|))
  }

  /** The positions the conversion step reads and writes; `title` may be one past the last column. */
  datatype Places = Places(reign: nat, date: nat, days: nat, recognized: nat, title: nat)

  /** The places are pairwise distinct, the first four are columns of a row of `n` cells. */
  predicate Separate(p: Places, n: nat) {
    && p.reign < n && p.date < n && p.days < n && p.recognized < n && p.title <= n
    && p.reign != p.date && p.reign != p.days && p.reign != p.recognized && p.reign != p.title
    && p.date != p.days && p.date != p.recognized && p.date != p.title
    && p.days != p.recognized && p.days != p.title
    && p.recognized != p.title
  }

  /** Where the labels are: each first occurrence, and the title column's place or the next free one. */
  function PlacesOf(h: seq<string>): (p: Places)
    requires HasAssignedColumns(h)
    ensures Separate(p, |h|)
    ensures h[p.reign] == "reign" && h[p.date] == "date" && h[p.days] == "days" && h[p.recognized] == "days_recognized"
    ensures p.title < |h| <==> "title" in h
    ensures p.title < |h| ==> h[p.title] == "title"
  {
    Places(IndexOf(h, "reign").value, IndexOf(h, "date").value, IndexOf(h, "days").value,
           IndexOf(h, "days_recognized").value, if "title" in h then IndexOf(h, "title").value else |h|)
  }

  /** One row as the conversion step leaves it. */
  function ConvertedRow(row: Row, p: Places, name: string): (r: Row)
    requires Separate(p, |row|)
    ensures |r| == if p.title < |row| then |row| else |row| + 1
  {
    var u := row[p.reign := ToNumeric(row[p.reign])][p.date := ToDate(row[p.date])]
               [p.days := ToDays(row[p.days])][p.recognized := ToDays(row[p.recognized])];
    if p.title < |row| then u[p.title := Str(name)] else u + [Str(name)]
  }

  /**
   * In a converted row each converted cell is the conversion of the
   * incoming cell, the title cell holds the name, and every other cell
   * is the incoming one.
   */
  lemma ConvertedRowCells(row: Row, p: Places, name: string)
    requires Separate(p, |row|)
    ensures var r := ConvertedRow(row, p, name);
      && r[p.reign] == ToNumeric(row[p.reign]) && r[p.date] == ToDate(row[p.date])
      && r[p.days] == ToDays(row[p.days]) && r[p.recognized] == ToDays(row[p.recognized])
      && r[p.title] == Str(name)
      && forall k :: 0 <= k < |row| && k !in {p.reign, p.date, p.days, p.recognized, p.title} ==> r[k] == row[k]
  {
    var u1 := row[p.reign := ToNumeric(row[p.reign])];
    var u2 := u1[p.date := ToDate(row[p.date])];
    var u3 := u2[p.days := ToDays(row[p.days])];
    var u := u3[p.recognized := ToDays(row[p.recognized])];
    assert u[p.reign] == ToNumeric(row[p.reign]) && u[p.date] == ToDate(row[p.date]);
    assert u[p.days] == ToDays(row[p.days]) && u[p.recognized] == ToDays(row[p.recognized]);
    assert forall k :: 0 <= k < |row| && k !in {p.reign, p.date, p.days, p.recognized} ==> u[k] == row[k];
  }

  /** The same assignment, row by row. */
  function Convert(t: Table, name: string): (r: Table)
    requires t.Valid() && HasAssignedColumns(t.headers)
    ensures r.Valid() && |r.rows| == |t.rows|
    ensures r.headers == if "title" in t.headers then t.headers else t.headers + ["title"]
  {
    Table(if "title" in t.headers then t.headers else t.headers + ["title"],
          seq(|t.rows|, i requires 0 <= i < |t.rows| => ConvertedRow(t.rows[i], PlacesOf(t.headers), name)))
  }

  /** Assigning column by column converts every row independently: the two definitions agree. */
  lemma AssignColumnsRowwise(t: Table, name: string)
    requires t.Valid() && HasAssignedColumns(t.headers)
    ensures AssignColumns(t, name) == Convert(t, name)
  {
    var h := t.headers;
    var c1 := NumericColumn(Column(t, IndexOf(h, "reign").value));
    var c2 := DateColumn(Column(t, IndexOf(h, "date").value));
    var c3 := DaysColumn(Column(t, IndexOf(h, "days").value));
    var c4 := DaysColumn(Column(t, IndexOf(h, "days_recognized").value));
    var c5 := Constant(Str(name), |t.rows|);
    var t1 := SetColumn(t, "reign", c1);
    var t2 := SetColumn(t1, "date", c2);
    var t3 := SetColumn(t2, "days", c3);
    var t4 := SetColumn(t3, "days_recognized", c4);
    SetColumnRows(t, "reign", c1);
    SetColumnRows(t1, "date", c2);
    SetColumnRows(t2, "days", c3);
    SetColumnRows(t3, "days_recognized", c4);
    SetColumnRows(t4, "title", c5);
    assert AssignColumns(t, name).rows == Convert(t, name).rows;
  }

  /** The conversion step; every column it reads must exist, the first one missing is the error. */
  function Assign(t: Table, name: string): (r: Result<Table, Error>)
    requires t.Valid()
    ensures r.Err? <==> !HasAssignedColumns(t.headers)
    ensures r.Ok? ==> r.value.Valid() && |r.value.rows| == |t.rows|
  {
    var _ :- Locate(t.headers, "reign");
    var _ :- Locate(t.headers, "date");
    var _ :- Locate(t.headers, "days");
    var _ :- Locate(t.headers, "days_recognized");
    Ok(Convert(t, name))
  }

  /** The tables of every page are well formed. */
  predicate WellFormed(tables: seq<RawTable>) {
    forall k :: 0 <= k < |tables| ==> tables[k].Valid()
  }

  /** Source `i`'s history table chosen, normalised and cut down, before any conversion. */
  function Selected(i: nat, tables: seq<RawTable>): (r: Result<Table, Error>)
    requires WellFormed(tables)
    ensures TableIndex(i) >= |tables| <==> r == Err(NoSuchTable(TableIndex(i)))
    ensures r.Ok? ==> r.value.Valid() && |r.value.rows| <= |tables[TableIndex(i)].rows|
  {
    var k := TableIndex(i);
    if k >= |tables| then Err(NoSuchTable(k))
    else
      var t :- Normalise(i, tables[k]);
      Select(t)
  }

  /** Source `i` (from 1) processed from the tables found on its page. */
  function ProcessSource(i: nat, tables: seq<RawTable>): (r: Result<Table, Error>)
    requires 1 <= i <= |Sources| && WellFormed(tables)
    ensures TableIndex(i) >= |tables| <==> r == Err(NoSuchTable(TableIndex(i)))
    ensures r.Ok? ==> r.value.Valid() && |r.value.rows| <= |tables[TableIndex(i)].rows|
  {
    var s :- Selected(i, tables);
    Assign(s, Sources[i - 1].name)
  }

  /** Only the chosen table of a page matters; the page's other tables are ignored. */
  lemma OnlyChosenTable(i: nat, a: seq<RawTable>, b: seq<RawTable>)
    requires 1 <= i <= |Sources| && WellFormed(a) && WellFormed(b)
    requires TableIndex(i) < |a| && TableIndex(i) < |b| && a[TableIndex(i)] == b[TableIndex(i)]
    ensures ProcessSource(i, a) == ProcessSource(i, b)
  {
  }

  /** In row `i` the converted cells are the conversions of the incoming ones and the title cell holds `name`. */
  lemma ConvertedCells(t: Table, name: string, i: nat)
    requires t.Valid() && HasAssignedColumns(t.headers) && i < |t.rows|
    ensures var p := PlacesOf(t.headers); var row, r := t.rows[i], Convert(t, name).rows[i];
      && |row| == |t.headers|
      && r[p.reign] == ToNumeric(row[p.reign]) && r[p.date] == ToDate(row[p.date])
      && r[p.days] == ToDays(row[p.days]) && r[p.recognized] == ToDays(row[p.recognized])
      && r[p.title] == Str(name)
  {
    ConvertedRowCells(t.rows[i], PlacesOf(t.headers), name);
  }

  /** The `title` column of the converted table is found where the places say, and holds `name` throughout. */
  lemma TitleColumn(t: Table, name: string)
    requires t.Valid() && HasAssignedColumns(t.headers)
    ensures var r, p := Convert(t, name), PlacesOf(t.headers);
      && IndexOf(r.headers, "title") == Some(p.title)
      && forall i :: 0 <= i < |r.rows| ==> r.rows[i][p.title] == Str(name)
  {
    var r, p := Convert(t, name), PlacesOf(t.headers);
    if "title" !in t.headers {
      IndexOfUnique(r.headers, "title", |t.headers|);
    }
    forall i | 0 <= i < |r.rows| ensures r.rows[i][p.title] == Str(name) {
      ConvertedCells(t, name, i);
    }
  }

  /** Every row of a processed source carries that source's title name in its `title` column. */
  lemma TitleStamped(i: nat, tables: seq<RawTable>)
    requires 1 <= i <= |Sources| && WellFormed(tables) && ProcessSource(i, tables).Ok?
    ensures var r := ProcessSource(i, tables).value;
      && IndexOf(r.headers, "title").Some?
      && forall row :: 0 <= row < |r.rows| ==> r.rows[row][IndexOf(r.headers, "title").value] == Str(Sources[i - 1].name)
  {
    TitleColumn(Selected(i, tables).value, Sources[i - 1].name);
  }

  /**
   * Row by row, a processed source holds the reign as a number, the date
   * as a calendar day and both day counts as numbers read after the
   * sentinel is rewritten, each computed from the same row of the
   * selected table; all four stay under their labels.
   */
  lemma ProcessedCells(i: nat, tables: seq<RawTable>, row: nat)
    requires 1 <= i <= |Sources| && WellFormed(tables) && ProcessSource(i, tables).Ok?
    requires row < |ProcessSource(i, tables).value.rows|
    ensures var s, r := Selected(i, tables).value, ProcessSource(i, tables).value;
      var p := PlacesOf(s.headers);
      && r.headers[p.reign] == "reign" && r.headers[p.date] == "date"
      && r.headers[p.days] == "days" && r.headers[p.recognized] == "days_recognized"
      && r.rows[row][p.reign] == ToNumeric(s.rows[row][p.reign])
      && r.rows[row][p.date] == ToDate(s.rows[row][p.date])
      && r.rows[row][p.days] == ToDays(s.rows[row][p.days])
      && r.rows[row][p.recognized] == ToDays(s.rows[row][p.recognized])
  {
    ConvertedCells(Selected(i, tables).value, Sources[i - 1].name, row);
  }

  /** A day count written "<1" in the selected table reads as zero days after processing. */
  lemma LessThanOneDay(i: nat, tables: seq<RawTable>, row: nat)
    requires 1 <= i <= |Sources| && WellFormed(tables) && ProcessSource(i, tables).Ok?
    requires row < |ProcessSource(i, tables).value.rows|
    requires var s := Selected(i, tables).value; s.rows[row][PlacesOf(s.headers).days] == Str("<1")
    ensures var s, r := Selected(i, tables).value, ProcessSource(i, tables).value;
      r.rows[row][PlacesOf(s.headers).days] == Int(0)
  {
    ProcessedCells(i, tables, row);
    SentinelDays();
  }

  /** The selected columns are those up to and including the first `notes`, renamed. */
  lemma SelectColumns(t: Table)
    requires t.Valid() && Select(t).Ok?
    ensures var k := IndexOf(t.headers, "notes").value;
      Select(t).value.headers == RenameHeaders(t.headers[..k + 1], TitleRenames)
  {
    var cut := TruncateAt(FilterNumeric(t, IndexOf(t.headers, "no.").value), "notes").value;
    IndexOfUnique(t.headers, "notes", |cut.headers| - 1);
  }

  /** Neither source label of a rename survives selection. */
  lemma SelectRenames(t: Table)
    requires t.Valid() && Select(t).Ok?
    ensures var h := Select(t).value.headers; "no." !in h && "days recog." !in h
  {
    var cut := TruncateAt(FilterNumeric(t, IndexOf(t.headers, "no.").value), "notes").value;
    RenamedLabelsGone(cut.headers, TitleRenames);
    assert "no." in TitleRenames && "days recog." in TitleRenames;
  }

  /** Selection cannot be applied to its own output: `no.` has been renamed away. */
  lemma SelectNotReapplicable(t: Table)
    requires t.Valid() && Select(t).Ok?
    ensures Select(Select(t).value).Err?
  {
    SelectRenames(t);
  }

  /** Selection succeeds with no rows when no reign number is numeric: an empty filter is no error. */
  lemma SelectNoNumericRows(t: Table)
    requires t.Valid() && "no." in t.headers && "notes" in t.headers
    requires forall row :: row in t.rows ==> !IsNumeric(row[IndexOf(t.headers, "no.").value])
    ensures Select(t).Ok? && Select(t).value.rows == []
  {
    var n := IndexOf(t.headers, "no.").value;
    if KeepNumeric(t.rows, n) != [] {
      assert KeepNumeric(t.rows, n)[0] in KeepNumeric(t.rows, n);
    }
  }

  /**
   * When the reign number comes before `notes`, selection keeps exactly
   * the rows whose reign number is numeric and leaves those numbers as
   * they were, now labelled `title_reign`.
   */
  lemma SelectReignText(t: Table)
    requires t.Valid() && Select(t).Ok?
    requires IndexOf(t.headers, "no.").value < IndexOf(t.headers, "notes").value
    ensures var s, n := Select(t).value, IndexOf(t.headers, "no.").value; var kept := KeepNumeric(t.rows, n);
      && n < |s.headers| && s.headers[n] == "title_reign" && |s.rows| == |kept|
      && forall row :: 0 <= row < |s.rows| ==> s.rows[row][n] == kept[row][n] && IsNumeric(s.rows[row][n])
  {
    var n := IndexOf(t.headers, "no.").value;
    var kept := KeepNumeric(t.rows, n);
    var cut := TruncateAt(FilterNumeric(t, n), "notes").value;
    SelectColumns(t);
    forall row | 0 <= row < |kept| ensures IsNumeric(kept[row][n]) {
      assert kept[row] in kept;
    }
    assert forall row :: 0 <= row < |kept| ==> cut.rows[row][n] == kept[row][n];
  }

  /** Conversion leaves the `title_reign` column alone. */
  lemma ConvertKeepsReignNumber(s: Table, name: string, n: nat)
    requires s.Valid() && HasAssignedColumns(s.headers) && n < |s.headers| && s.headers[n] == "title_reign"
    ensures var r := Convert(s, name);
      && r.headers[n] == "title_reign"
      && forall row :: 0 <= row < |r.rows| ==> r.rows[row][n] == s.rows[row][n]
  {
    var r, p := Convert(s, name), PlacesOf(s.headers);
    assert n != p.title by {
      assert p.title < |s.headers| ==> s.headers[p.title] == "title";
    }
    forall row | 0 <= row < |r.rows| ensures r.rows[row][n] == s.rows[row][n] {
      ConvertedRowCells(s.rows[row], p, name);
    }
  }

  /** A processed source is its normalised table selected and then converted. */
  lemma Stages(i: nat, tables: seq<RawTable>, t: Table)
    requires 1 <= i <= |Sources| && WellFormed(tables) && TableIndex(i) < |tables|
    requires Normalise(i, tables[TableIndex(i)]) == Ok(t) && ProcessSource(i, tables).Ok?
    ensures Select(t).Ok? && HasAssignedColumns(Select(t).value.headers)
    ensures ProcessSource(i, tables).value == Convert(Select(t).value, Sources[i - 1].name)
  {
  }

  /**
   * Column `n` of `r` is labelled `title_reign` and holds, row by row, the
   * numeric cell `n` of the `kept` rows, unconverted.
   */
  ghost predicate ReignText(r: Table, n: nat, kept: seq<Row>) {
    && n < |r.headers| && r.headers[n] == "title_reign" && |r.rows| == |kept|
    && forall row :: 0 <= row < |r.rows| ==>
         n < |r.rows[row]| && n < |kept[row]| && r.rows[row][n] == kept[row][n] && IsNumeric(r.rows[row][n])
  }

  /**
   * The title reign number is not converted: when it comes before
   * `notes` in the normalised table `t`, a processed source keeps in its
   * `title_reign` column the numeric text of each retained row, in order.
   */
  lemma ReignNumberKeptAsText(i: nat, tables: seq<RawTable>, t: Table)
    requires 1 <= i <= |Sources| && WellFormed(tables) && TableIndex(i) < |tables|
    requires Normalise(i, tables[TableIndex(i)]) == Ok(t) && ProcessSource(i, tables).Ok?
    requires "no." in t.headers && "notes" in t.headers
    requires IndexOf(t.headers, "no.").value < IndexOf(t.headers, "notes").value
    ensures var n := IndexOf(t.headers, "no.").value;
      ReignText(ProcessSource(i, tables).value, n, KeepNumeric(t.rows, n))
  {
    var n := IndexOf(t.headers, "no.").value;
    Stages(i, tables, t);
    SelectReignText(t);
    ConvertKeepsReignNumber(Select(t).value, Sources[i - 1].name, n);
  }

  /**
   * A processed source keeps the columns of the normalised table `t` up
   * to the first `notes`, renamed, plus at most the appended `title`
   * column.
   */
  lemma ColumnsUpToNotes(i: nat, tables: seq<RawTable>, t: Table)
    requires 1 <= i <= |Sources| && WellFormed(tables) && TableIndex(i) < |tables|
    requires Normalise(i, tables[TableIndex(i)]) == Ok(t) && ProcessSource(i, tables).Ok? && "notes" in t.headers
    ensures var r, k := ProcessSource(i, tables).value, IndexOf(t.headers, "notes").value;
      && k + 1 <= |r.headers| <= k + 2
      && r.headers[..k + 1] == RenameHeaders(t.headers[..k + 1], TitleRenames)
  {
    Stages(i, tables, t);
    SelectConvertColumns(t, Sources[i - 1].name);
  }

  lemma SelectConvertColumns(t: Table, name: string)
    requires t.Valid() && Select(t).Ok? && HasAssignedColumns(Select(t).value.headers)
    ensures var r, k := Convert(Select(t).value, name), IndexOf(t.headers, "notes").value;
      && k + 1 <= |r.headers| <= k + 2
      && r.headers[..k + 1] == RenameHeaders(t.headers[..k + 1], TitleRenames)
  {
    SelectColumns(t);
    ConvertKeepsHeaders(Select(t).value, name);
  }

  /** Conversion keeps every incoming label in place and adds at most `title` at the end. */
  lemma ConvertKeepsHeaders(s: Table, name: string)
    requires s.Valid() && HasAssignedColumns(s.headers)
    ensures var h := Convert(s, name).headers;
      && |s.headers| <= |h| <= |s.headers| + 1 && h[..|s.headers|] == s.headers
      && (|h| > |s.headers| ==> h[|s.headers|] == "title" && "title" !in s.headers)
  {
  }

  /** The labels `no.` and `days recog.` do not survive processing. */
  lemma LabelsRenamed(i: nat, tables: seq<RawTable>, t: Table)
    requires 1 <= i <= |Sources| && WellFormed(tables) && TableIndex(i) < |tables|
    requires Normalise(i, tables[TableIndex(i)]) == Ok(t) && ProcessSource(i, tables).Ok?
    ensures var h := ProcessSource(i, tables).value.headers; "no." !in h && "days recog." !in h
  {
    Stages(i, tables, t);
    SelectRenames(t);
    ConvertAddsOnlyTitle(Select(t).value, Sources[i - 1].name, "no.");
    ConvertAddsOnlyTitle(Select(t).value, Sources[i - 1].name, "days recog.");
  }

  /** Conversion introduces no label other than `title`. */
  lemma ConvertAddsOnlyTitle(s: Table, name: string, other: string)
    requires s.Valid() && HasAssignedColumns(s.headers) && other !in s.headers && other != "title"
    ensures other !in Convert(s, name).headers
  {
  }

  /** One source processed on a frame: the fixup insert happens in place on the flattened table. */
  method LoadSource(i: nat, tables: seq<RawTable>) returns (r: Result<Table, Error>)
    requires 1 <= i <= |Sources| && WellFormed(tables)
    ensures r == ProcessSource(i, tables)
  {
    var k := TableIndex(i);
    if k >= |tables| {
      return Err(NoSuchTable(k));
    }
    var raw := tables[k];
    var fields := seq(|raw.labels|, j requires 0 <= j < |raw.labels| => raw.labels[j].field);
    var frame := new Frame(Table(fields, raw.rows));
    frame.SetColumns(FlattenLabels(raw.labels));
    assert frame.View() == Flatten(raw);
    if i == FixupSource {
      var d := IndexOf(frame.columns, "days");
      if d.None? {
        return Err(MissingColumn("days"));
      }
      var ok := frame.Insert(d.value + 1, "days recog.", Null);
      if !ok {
        return Err(DuplicateColumn("days recog."));
      }
    }
    assert Normalise(i, raw) == Ok(frame.View());
    var s :- Select(frame.View());
    r := Assign(s, Sources[i - 1].name);
  }

  /** One more source processed: the tables appended so far, followed by its table, are still the processed ones. */
  lemma AppendProcessed(pages: seq<seq<RawTable>>, loaded: seq<Table>, table: Table)
    requires |pages| == |Sources| && forall n :: 0 <= n < |pages| ==> WellFormed(pages[n])
    requires |loaded| < |Sources|
    requires forall n :: 0 <= n < |loaded| ==> ProcessSource(n + 1, pages[n]) == Ok(loaded[n])
    requires ProcessSource(|loaded| + 1, pages[|loaded|]) == Ok(table)
    ensures forall n :: 0 <= n <= |loaded| ==> ProcessSource(n + 1, pages[n]) == Ok((loaded + [table])[n])
  {
    forall n | 0 <= n <= |loaded|
      ensures ProcessSource(n + 1, pages[n]) == Ok((loaded + [table])[n])
    {
      if n < |loaded| {
        assert (loaded + [table])[n] == loaded[n];
      } else {
        assert (loaded + [table])[n] == table;
      }
    }
  }

  /**
   * The run over all sources: each source's table is appended in order;
   * the first failure stops the run, and the tables appended before it
   * stay appended.
   */
  method LoadTitles(pages: seq<seq<RawTable>>) returns (loaded: seq<Table>, failure: Option<Error>)
    requires |pages| == |Sources| && forall n :: 0 <= n < |pages| ==> WellFormed(pages[n])
    ensures |loaded| <= |Sources|
    ensures forall n :: 0 <= n < |loaded| ==> ProcessSource(n + 1, pages[n]) == Ok(loaded[n])
    ensures failure.None? ==> |loaded| == |Sources|
    ensures failure.Some? ==> |loaded| < |Sources| && ProcessSource(|loaded| + 1, pages[|loaded|]) == Err(failure.value)
  {
    loaded, failure := [], None;
    for i := 1 to |Sources| + 1
      invariant |loaded| == i - 1
      invariant forall n :: 0 <= n < |loaded| ==> ProcessSource(n + 1, pages[n]) == Ok(loaded[n])
    {
      var r := LoadSource(i, pages[i - 1]);
      if r.Err? {
        failure := Some(r.error);
        return;
      }
      AppendProcessed(pages, loaded, r.value);
      loaded := loaded + [r.value];
    }
  }
}
