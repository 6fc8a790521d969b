/**
 * The single-source pipeline for the WWE Championship page: normalise the
 * title-history table, split the champion, event and location values into
 * dimension tables with surrogate keys, replace them in the fact table by
 * those keys, convert the typed columns and stamp the title name.
 *
 * Fetching the page, parsing the HTML and loading the four tables into the
 * database are outside the model: the pipeline starts from the tables
 * found on the page and ends with the tables that would be loaded.
 */
module Champions {
  import opened Wrappers
  import opened Tables
  import opened Coercion
  import opened Schema
  import opened Dimensions
  import opened Frames

  const ChampionshipTitle := "WWE Championship"

  /** The final renaming of the fact table's columns. */
  const FactRenames: map<string, string> := map["no." := "no", "days recog." := "days_recognized"]

  /** The labels the conversion step assigns. */
  const Assigned: set<string> := {"no.", "days", "reign", "days recog.", "date", "title"}

  /** The four tables the pipeline loads. */
  datatype Load = Load(facts: Table, champions: seq<DimRow>, events: seq<DimRow>, locations: seq<DimRow>)

  /**
   * Flatten the header, keep the rows whose reign number is numeric and
   * drop the columns labelled like the last two columns; a table without
   * a `no.` column fails with `MissingColumn`.
   */
  function Prepare(raw: RawTable): (r: Result<Table, Error>)
    requires raw.Valid()
    ensures r.Err? <==> "no." !in FlattenLabels(raw.labels)
    ensures r.Err? ==> r.error == MissingColumn("no.")
    ensures r.Ok? ==> r.value.Valid() && |r.value.rows| <= |raw.rows|
    ensures r.Ok? ==> forall x :: x in r.value.headers <==>
              x in FlattenLabels(raw.labels) && x !in LastTwo(FlattenLabels(raw.labels))
  {
    var t := Flatten(raw);
    var j :- Locate(t.headers, "no.");
    Ok(DropLabels(FilterNumeric(t, j), LastTwo(t.headers)))
  }

  /**
   * Build the three dimensions from the prepared table, then replace the
   * champion, event and location columns by their keys.
   */
  function AddKeys(t: Table): (r: Result<Load, Error>)
    requires t.Valid()
    ensures r.Err? <==> "champion" !in t.headers || "event" !in t.headers || "location" !in t.headers
    ensures r.Err? ==> r.error.MissingColumn?
    ensures r.Ok? ==> r.value.facts.Valid() && r.value.facts.headers == t.headers && |r.value.facts.rows| == |t.rows|
  {
    var c :- Locate(t.headers, "champion");
    var e :- Locate(t.headers, "event");
    var l :- Locate(t.headers, "location");
    var champions := Dimension(Column(t, c));
    var events := Dimension(Column(t, e));
    var locations := Dimension(Column(t, l));
    var keyed := RewriteColumn(RewriteColumn(RewriteColumn(t, c, IdMap(champions)), e, IdMap(events)), l, IdMap(locations));
    Ok(Load(keyed, champions, events, locations))
  }

  /** The labels the conversion step reads. */
  predicate HasConvertedColumns(h: seq<string>) {
    "no." in h && "days" in h && "reign" in h && "days recog." in h && "date" in h
  }

  /**
   * `assign`, column by column: the reign number, the day counts and the
   * reign become integers and the date a calendar day, each computed from
   * the incoming table, and the title column holds the title name in
   * every row (overwritten when it exists, appended otherwise).
   */
  function AssignColumns(t: Table): (r: Table)
    requires t.Valid() && HasConvertedColumns(t.headers)
    ensures r.Valid() && |r.rows| == |t.rows|
    ensures r.headers == if "title" in t.headers then t.headers else t.headers + ["title"]
  {
    var t1 := SetColumn(t, "no.", NumericColumn(Column(t, IndexOf(t.headers, "no.").value)));
    var t2 := SetColumn(t1, "days", NumericColumn(Column(t, IndexOf(t.headers, "days").value)));
    var t3 := SetColumn(t2, "reign", NumericColumn(Column(t, IndexOf(t.headers, "reign").value)));
    var t4 := SetColumn(t3, "days recog.", NumericColumn(Column(t, IndexOf(t.headers, "days recog.").value)));
    var t5 := SetColumn(t4, "date", DateColumn(Column(t, IndexOf(t.headers, "date").value)));
    SetColumn(t5, "title", Constant(Str(ChampionshipTitle), |t.rows|))
  }

  /** The positions the conversion step reads and writes; `title` may be one past the last column. */
  datatype Places = Places(no: nat, days: nat, reign: nat, recognized: nat, date: nat, title: nat)

  /** The places are pairwise distinct, the first five are columns of a row of `n` cells. */
  predicate Separate(p: Places, n: nat) {
    && p.no < n && p.days < n && p.reign < n && p.recognized < n && p.date < n && p.title <= n
    && p.no != p.days && p.no != p.reign && p.no != p.recognized && p.no != p.date && p.no != p.title
    && p.days != p.reign && p.days != p.recognized && p.days != p.date && p.days != p.title
    && p.reign != p.recognized && p.reign != p.date && p.reign != p.title
    && p.recognized != p.date && p.recognized != p.title
    && p.date != p.title
  }

  /** Where the labels are: each first occurrence, and the title column's place or the next free one. */
  function PlacesOf(h: seq<string>): (p: Places)
    requires HasConvertedColumns(h)
    ensures Separate(p, |h|)
    ensures h[p.no] == "no." && h[p.days] == "days" && h[p.reign] == "reign"
    ensures h[p.recognized] == "days recog." && h[p.date] == "date"
    ensures p.title < |h| <==> "title" in h
    ensures p.title < |h| ==> h[p.title] == "title"
  {
    Places(IndexOf(h, "no.").value, IndexOf(h, "days").value, IndexOf(h, "reign").value,
           IndexOf(h, "days recog.").value, IndexOf(h, "date").value,
           if "title" in h then IndexOf(h, "title").value else |h|)
  }

  /** One row as the conversion step leaves it. */
  function ConvertedRow(row: Row, p: Places): (r: Row)
    requires Separate(p, |row|)
    ensures |r| == if p.title < |row| then |row| else |row| + 1
  {
    var u := row[p.no := ToNumeric(row[p.no])][p.days := ToNumeric(row[p.days])][p.reign := ToNumeric(row[p.reign])]
               [p.recognized := ToNumeric(row[p.recognized])][p.date := ToDate(row[p.date])];
    if p.title < |row| then u[p.title := Str(ChampionshipTitle)] else u + [Str(ChampionshipTitle)]
  }

  /**
   * In a converted row each converted cell is the conversion of the
   * incoming cell, the title cell holds the title name, and every other
   * cell is the incoming one.
   */
  lemma ConvertedRowCells(row: Row, p: Places)
    requires Separate(p, |row|)
    ensures var r := ConvertedRow(row, p);
      && r[p.no] == ToNumeric(row[p.no]) && r[p.days] == ToNumeric(row[p.days])
      && r[p.reign] == ToNumeric(row[p.reign]) && r[p.recognized] == ToNumeric(row[p.recognized])
      && r[p.date] == ToDate(row[p.date]) && r[p.title] == Str(ChampionshipTitle)
      && forall k :: 0 <= k < |row| && k !in {p.no, p.days, p.reign, p.recognized, p.date, p.title} ==> r[k] == row[k]
  {
  }

  /** The same assignment, row by row. */
  function Convert(t: Table): (r: Table)
    requires t.Valid() && HasConvertedColumns(t.headers)
    ensures r.Valid() && |r.rows| == |t.rows|
    ensures r.headers == if "title" in t.headers then t.headers else t.headers + ["title"]
  {
    assert forall i :: 0 <= i < |t.rows| ==> t.rows[i] in t.rows;
    Table(if "title" in t.headers then t.headers else t.headers + ["title"],
          seq(|t.rows|, i requires 0 <= i < |t.rows| => ConvertedRow(t.rows[i], PlacesOf(t.headers))))
  }

  /** Assigning column by column converts every row independently: the two definitions agree. */
  lemma AssignColumnsRowwise(t: Table)
    requires t.Valid() && HasConvertedColumns(t.headers)
    ensures AssignColumns(t) == Convert(t)
  {
    var h := t.headers;
    var c1 := NumericColumn(Column(t, IndexOf(h, "no.").value));
    var c2 := NumericColumn(Column(t, IndexOf(h, "days").value));
    var c3 := NumericColumn(Column(t, IndexOf(h, "reign").value));
    var c4 := NumericColumn(Column(t, IndexOf(h, "days recog.").value));
    var c5 := DateColumn(Column(t, IndexOf(h, "date").value));
    var c6 := Constant(Str(ChampionshipTitle), |t.rows|);
    var t1 := SetColumn(t, "no.", c1);
    var t2 := SetColumn(t1, "days", c2);
    var t3 := SetColumn(t2, "reign", c3);
    var t4 := SetColumn(t3, "days recog.", c4);
    var t5 := SetColumn(t4, "date", c5);
    SetColumnRows(t, "no.", c1);
    SetColumnRows(t1, "days", c2);
    SetColumnRows(t2, "reign", c3);
    SetColumnRows(t3, "days recog.", c4);
    SetColumnRows(t4, "date", c5);
    SetColumnRows(t5, "title", c6);
    forall i | 0 <= i < |t.rows| ensures |t.rows[i]| == |h| {
      assert t.rows[i] in t.rows;
    }
    assert AssignColumns(t).rows == Convert(t).rows;
  }

  /**
   * The conversion step, then the renaming; every column it reads must
   * exist, the first one missing is the error.
   */
  function Finalise(t: Table): (r: Result<Table, Error>)
    requires t.Valid()
    ensures r.Err? <==> !HasConvertedColumns(t.headers)
    ensures r.Err? ==> r.error.MissingColumn?
    ensures r.Ok? ==> r.value.Valid() && |r.value.rows| == |t.rows|
  {
    var _ :- Locate(t.headers, "no.");
    var _ :- Locate(t.headers, "days");
    var _ :- Locate(t.headers, "reign");
    var _ :- Locate(t.headers, "days recog.");
    var _ :- Locate(t.headers, "date");
    Ok(Rename(Convert(t), FactRenames))
  }

  /** The whole pipeline on the chosen table of the page. */
  function Championship(raw: RawTable): (r: Result<Load, Error>)
    requires raw.Valid()
    ensures r.Ok? ==> r.value.facts.Valid() && |r.value.facts.rows| <= |raw.rows|
    ensures r.Err? ==> r.error.MissingColumn?
  {
    var t :- Prepare(raw);
    var load :- AddKeys(t);
    var facts :- Finalise(load.facts);
    Ok(load.(facts := facts))
  }

  /** `read_html(html)[2]`: the position of the title-history table in the page's list of tables. */
  const ChampionshipTable: nat := 2

  /**
   * The pipeline from the tables found on the page: a page with too few
   * tables fails with the index it lacks, and only such a page does.
   */
  function ChampionshipPage(tables: seq<RawTable>): (r: Result<Load, Error>)
    requires forall k :: 0 <= k < |tables| ==> tables[k].Valid()
    ensures |tables| <= ChampionshipTable <==> r == Err(NoSuchTable(ChampionshipTable))
    ensures r.Ok? ==> r.value.facts.Valid() && |r.value.facts.rows| <= |tables[ChampionshipTable].rows|
  {
    if |tables| <= ChampionshipTable then Err(NoSuchTable(ChampionshipTable))
    else Championship(tables[ChampionshipTable])
  }

  /** Only the table at index 2 matters; the page's other tables are ignored. */
  lemma ChampionshipOnlyChosenTable(a: seq<RawTable>, b: seq<RawTable>)
    requires forall k :: 0 <= k < |a| ==> a[k].Valid()
    requires forall k :: 0 <= k < |b| ==> b[k].Valid()
    requires |a| > ChampionshipTable && |b| > ChampionshipTable
    requires a[ChampionshipTable] == b[ChampionshipTable]
    ensures ChampionshipPage(a) == ChampionshipPage(b)
  {
  }

  /**
   * The pipeline as the program runs it: the header is replaced in place,
   * the filtered frame is a new frame, the dimensions are collected by
   * loops and the key columns are rewritten in place, one after another.
   */
  method LoadChampionship(raw: RawTable) returns (r: Result<Load, Error>)
    requires raw.Valid()
    ensures r == Championship(raw)
  {
    var fields := seq(|raw.labels|, k requires 0 <= k < |raw.labels| => raw.labels[k].field);
    var frame := new Frame(Table(fields, raw.rows));
    frame.SetColumns(FlattenLabels(raw.labels));
    assert frame.View() == Flatten(raw);
    var no := IndexOf(frame.columns, "no.");
    if no.None? {
      return Err(MissingColumn("no."));
    }
    var prepared := DropLabels(FilterNumeric(frame.View(), no.value), LastTwo(frame.columns));
    assert Prepare(raw) == Ok(prepared);
    var c := IndexOf(prepared.headers, "champion");
    var e := IndexOf(prepared.headers, "event");
    var l := IndexOf(prepared.headers, "location");
    if c.None? {
      return Err(MissingColumn("champion"));
    }
    if e.None? {
      return Err(MissingColumn("event"));
    }
    if l.None? {
      return Err(MissingColumn("location"));
    }
    var champions := BuildDimension(Column(prepared, c.value));
    var events := BuildDimension(Column(prepared, e.value));
    var locations := BuildDimension(Column(prepared, l.value));
    frame := new Frame(prepared);
    frame.MapColumn(c.value, IdMap(champions));
    frame.MapColumn(e.value, IdMap(events));
    frame.MapColumn(l.value, IdMap(locations));
    var load := Load(frame.View(), champions, events, locations);
    assert AddKeys(prepared) == Ok(load);
    match Finalise(load.facts)
    case Err(err) =>
      r := Err(err);
    case Ok(facts) =>
      r := Ok(load.(facts := facts));
  }

  /** The cells of a converted table, row by row. */
  lemma ConvertedCells(t: Table, i: nat)
    requires t.Valid() && HasConvertedColumns(t.headers) && i < |t.rows|
    ensures var p := PlacesOf(t.headers); var row, r := t.rows[i], Convert(t).rows[i];
      && |row| == |t.headers|
      && r[p.no] == ToNumeric(row[p.no]) && r[p.days] == ToNumeric(row[p.days])
      && r[p.reign] == ToNumeric(row[p.reign]) && r[p.recognized] == ToNumeric(row[p.recognized])
      && r[p.date] == ToDate(row[p.date]) && r[p.title] == Str(ChampionshipTitle)
  {
    assert t.rows[i] in t.rows;
    ConvertedRowCells(t.rows[i], PlacesOf(t.headers));
  }

  /** The conversion step leaves every column it does not assign as it was, in the same place. */
  lemma ConvertedKeeps(t: Table, name: string)
    requires t.Valid() && HasConvertedColumns(t.headers) && name in t.headers && name !in Assigned
    ensures SameColumn(t, Convert(t), name) && IndexOf(Convert(t).headers, name) == IndexOf(t.headers, name)
  {
    var r, p := Convert(t), PlacesOf(t.headers);
    var k := IndexOf(t.headers, name).value;
    assert r.headers[..k] == t.headers[..k];
    IndexOfUnique(r.headers, name, k);
    assert k != p.title by {
      assert p.title < |t.headers| ==> t.headers[p.title] == "title";
    }
    forall i | 0 <= i < |r.rows| ensures r.rows[i][k] == t.rows[i][k] {
      assert t.rows[i] in t.rows;
      ConvertedRowCells(t.rows[i], p);
    }
    assert Column(r, k) == Column(t, k);
  }

  /**
   * The conversion and the renaming leave every other column as it was,
   * unless its label is one the renaming produces.
   */
  lemma FinaliseKeeps(t: Table, name: string)
    requires t.Valid() && Finalise(t).Ok? && name in t.headers
    requires name !in Assigned && name != "no" && name != "days_recognized"
    ensures SameColumn(t, Finalise(t).value, name)
  {
    ConvertedKeeps(t, name);
    RenameKeeps(Convert(t), FactRenames, name);
  }

  /** Some column labelled `name` holds an integer in every row. */
  ghost predicate IntegerColumnNamed(t: Table, name: string)
    requires t.Valid()
  {
    exists k :: 0 <= k < |t.headers| && t.headers[k] == name && forall i :: 0 <= i < |t.rows| ==> t.rows[i][k].Int?
  }

  /** Every cell of the column converts to an integer. */
  ghost predicate AllNumeric(col: seq<Cell>) {
    forall i :: 0 <= i < |col| ==> IsNumeric(col[i])
  }

  /**
   * The conversion step turns a reign-number column of numeric cells into
   * integers and renames it to `no`.
   */
  lemma NumberColumnConverted(t: Table)
    requires t.Valid() && HasConvertedColumns(t.headers)
    requires AllNumeric(Column(t, IndexOf(t.headers, "no.").value))
    ensures IntegerColumnNamed(Finalise(t).value, "no")
  {
    var n := PlacesOf(t.headers).no;
    var r := Convert(t);
    forall i | 0 <= i < |r.rows| ensures r.rows[i][n].Int? {
      ConvertedCells(t, i);
      assert Column(t, n)[i] == t.rows[i][n];
    }
    RenamedIntegerColumn(r, n);
  }

  lemma RenamedIntegerColumn(r: Table, n: nat)
    requires r.Valid() && n < |r.headers| && r.headers[n] == "no."
    requires forall i :: 0 <= i < |r.rows| ==> r.rows[i][n].Int?
    ensures IntegerColumnNamed(Rename(r, FactRenames), "no")
  {
    assert Rename(r, FactRenames).headers[n] == "no";
  }

  /** When the reign-number column survives the drop, it holds only numeric cells. */
  lemma PreparedNumbers(raw: RawTable)
    requires raw.Valid() && Prepare(raw).Ok? && "no." in Prepare(raw).value.headers
    ensures var t := Prepare(raw).value; AllNumeric(Column(t, IndexOf(t.headers, "no.").value))
  {
    var flat := Flatten(raw);
    var j := IndexOf(flat.headers, "no.").value;
    var filtered := FilterNumeric(flat, j);
    DropLabelsKeepsColumn(filtered, LastTwo(flat.headers), "no.");
    forall i | 0 <= i < |filtered.rows| ensures IsNumeric(filtered.rows[i][j]) {
      assert filtered.rows[i] in filtered.rows;
    }
  }

  /** The key rewrites leave every other column as it was. */
  lemma KeyedKeeps(t: Table, name: string)
    requires t.Valid() && AddKeys(t).Ok? && name in t.headers
    requires name != "champion" && name != "event" && name != "location"
    ensures SameColumn(t, AddKeys(t).value.facts, name)
  {
    var load := AddKeys(t).value;
    var c, e, l := IndexOf(t.headers, "champion").value, IndexOf(t.headers, "event").value, IndexOf(t.headers, "location").value;
    var t1 := RewriteColumn(t, c, IdMap(load.champions));
    var t2 := RewriteColumn(t1, e, IdMap(load.events));
    RewriteKeeps(t, c, IdMap(load.champions), name);
    RewriteKeeps(t1, e, IdMap(load.events), name);
    RewriteKeeps(t2, l, IdMap(load.locations), name);
  }

  /** Every row of the fact table has an integer reign number, in the column now labelled `no`. */
  lemma ReignNumbersAreIntegers(raw: RawTable)
    requires raw.Valid() && Championship(raw).Ok?
    ensures IntegerColumnNamed(Championship(raw).value.facts, "no")
  {
    var t := Prepare(raw).value;
    var load := AddKeys(t).value;
    assert Finalise(load.facts).Ok?;
    PreparedNumbers(raw);
    KeyedKeeps(t, "no.");
    NumberColumnConverted(load.facts);
  }

  /** The title column of the fact table holds the title name in every row. */
  lemma TitleStamped(raw: RawTable)
    requires raw.Valid() && Championship(raw).Ok?
    ensures var facts := Championship(raw).value.facts;
      IndexOf(facts.headers, "title").Some? &&
      forall i :: 0 <= i < |facts.rows| ==> facts.rows[i][IndexOf(facts.headers, "title").value] == Str(ChampionshipTitle)
  {
    var load := AddKeys(Prepare(raw).value).value;
    ConvertedTitle(load.facts);
  }

  lemma ConvertedTitle(t: Table)
    requires t.Valid() && HasConvertedColumns(t.headers)
    ensures var facts := Finalise(t).value;
      IndexOf(facts.headers, "title").Some? &&
      forall i :: 0 <= i < |facts.rows| ==> facts.rows[i][IndexOf(facts.headers, "title").value] == Str(ChampionshipTitle)
  {
    var r := Convert(t);
    TitleColumn(t);
    RenameKeepsIndexOf(r.headers, FactRenames, "title");
  }

  /** After the conversion step the first `title` column is the title column it wrote. */
  lemma TitleColumn(t: Table)
    requires t.Valid() && HasConvertedColumns(t.headers)
    ensures var r, p := Convert(t), PlacesOf(t.headers);
      && IndexOf(r.headers, "title") == Some(p.title)
      && forall i :: 0 <= i < |r.rows| ==> r.rows[i][p.title] == Str(ChampionshipTitle)
  {
    var r, p := Convert(t), PlacesOf(t.headers);
    if "title" !in t.headers {
      IndexOfUnique(r.headers, "title", |t.headers|);
    }
    forall i | 0 <= i < |r.rows| ensures r.rows[i][p.title] == Str(ChampionshipTitle) {
      ConvertedCells(t, i);
    }
  }

  /** The renamed labels are gone from the fact table. */
  lemma RenamedLabels(raw: RawTable)
    requires raw.Valid() && Championship(raw).Ok?
    ensures var h := Championship(raw).value.facts.headers; "no." !in h && "days recog." !in h
  {
    var load := AddKeys(Prepare(raw).value).value;
    FinaliseRenames(load.facts);
  }

  lemma FinaliseRenames(t: Table)
    requires t.Valid() && Finalise(t).Ok?
    ensures var h := Finalise(t).value.headers; "no." !in h && "days recog." !in h
  {
    FactRenamesDrop(Convert(t));
  }

  lemma FactRenamesDrop(t: Table)
    requires t.Valid()
    ensures var h := Rename(t, FactRenames).headers; "no." !in h && "days recog." !in h
  {
    RenamedLabelsGone(t.headers, FactRenames);
    assert "no." in FactRenames && "days recog." in FactRenames;
  }

  /**
   * The keys in the fact table: in every row, the champion, event and
   * location cells are keys of their dimensions whose entries hold the
   * row's values before the rewrite.
   */
  lemma ForeignKeys(raw: RawTable)
    requires raw.Valid() && Championship(raw).Ok?
    ensures var t, load := Prepare(raw).value, Championship(raw).value;
      && KeysOf(load.facts, t, "champion", load.champions)
      && KeysOf(load.facts, t, "event", load.events)
      && KeysOf(load.facts, t, "location", load.locations)
  {
    FactKeys(Prepare(raw).value);
  }

  /** The keys written by the rewrite step survive the conversion step. */
  lemma FactKeys(t: Table)
    requires t.Valid() && AddKeys(t).Ok? && Finalise(AddKeys(t).value.facts).Ok?
    ensures var load := AddKeys(t).value; var facts := Finalise(load.facts).value;
      && KeysOf(facts, t, "champion", load.champions)
      && KeysOf(facts, t, "event", load.events)
      && KeysOf(facts, t, "location", load.locations)
  {
    AddKeysKeyed(t);
    FinaliseKeepsKeys(AddKeys(t).value.facts, t, "champion", AddKeys(t).value.champions);
    EventAndLocationKeys(t);
  }

  lemma EventAndLocationKeys(t: Table)
    requires t.Valid() && AddKeys(t).Ok? && Finalise(AddKeys(t).value.facts).Ok?
    ensures var load := AddKeys(t).value; var facts := Finalise(load.facts).value;
      && KeysOf(facts, t, "event", load.events)
      && KeysOf(facts, t, "location", load.locations)
  {
    var load := AddKeys(t).value;
    AddKeysKeyed(t);
    FinaliseKeepsKeys(load.facts, t, "event", load.events);
    FinaliseKeepsKeys(load.facts, t, "location", load.locations);
  }

  lemma FinaliseKeepsKeys(u: Table, t: Table, name: string, dim: seq<DimRow>)
    requires u.Valid() && t.Valid() && Finalise(u).Ok? && KeysOf(u, t, name, dim)
    requires name !in Assigned && name != "no" && name != "days_recognized"
    ensures KeysOf(Finalise(u).value, t, name, dim)
  {
    FinaliseKeeps(u, name);
  }

  /** Each dimension has at most one entry per fact row. */
  lemma DimensionSizes(raw: RawTable)
    requires raw.Valid() && Championship(raw).Ok?
    ensures var load := Championship(raw).value;
      && |load.champions| <= |load.facts.rows| && |load.events| <= |load.facts.rows|
      && |load.locations| <= |load.facts.rows|
  {
    var t := Prepare(raw).value;
    var c, e, l := IndexOf(t.headers, "champion").value, IndexOf(t.headers, "event").value, IndexOf(t.headers, "location").value;
    DimensionShape(Column(t, c));
    DimensionShape(Column(t, e));
    DimensionShape(Column(t, l));
  }

  /** The column labelled `name` of `facts` holds keys of `dim` for the same column of `source`. */
  ghost predicate KeysOf(facts: Table, source: Table, name: string, dim: seq<DimRow>)
    requires facts.Valid() && source.Valid()
  {
    && name in facts.headers && name in source.headers && |facts.rows| == |source.rows|
    && KeyedBy(Column(facts, IndexOf(facts.headers, name).value), Column(source, IndexOf(source.headers, name).value), dim)
  }

  /** After the rewrites each key column is keyed by its dimension, in the same place. */
  lemma AddKeysKeyed(t: Table)
    requires t.Valid() && AddKeys(t).Ok?
    ensures var load := AddKeys(t).value;
      && KeysOf(load.facts, t, "champion", load.champions)
      && KeysOf(load.facts, t, "event", load.events)
      && KeysOf(load.facts, t, "location", load.locations)
  {
    var load := AddKeys(t).value;
    var c, e, l := IndexOf(t.headers, "champion").value, IndexOf(t.headers, "event").value, IndexOf(t.headers, "location").value;
    var t1 := RewriteColumn(t, c, IdMap(load.champions));
    var t2 := RewriteColumn(t1, e, IdMap(load.events));
    var t3 := RewriteColumn(t2, l, IdMap(load.locations));
    // champion: keyed by the first rewrite, then kept
    RewriteKeyed(t, c);
    RewriteKeeps(t1, e, IdMap(load.events), "champion");
    RewriteKeeps(t2, l, IdMap(load.locations), "champion");
    // event: kept, keyed, kept
    RewriteKeeps(t, c, IdMap(load.champions), "event");
    RewriteKeyed(t1, e);
    RewriteKeeps(t2, l, IdMap(load.locations), "event");
    // location: kept twice, then keyed
    RewriteKeeps(t, c, IdMap(load.champions), "location");
    RewriteKeeps(t1, e, IdMap(load.events), "location");
    RewriteKeyed(t2, l);
  }
}
