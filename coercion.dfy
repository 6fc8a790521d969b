/**
 * Cell-level conversions applied column by column, none of which ever
 * fails: a cell that cannot be converted becomes the missing value.
 *
 * The HTML reader's own type inference is outside the model: raw cells
 * are text or missing, so the conversions are defined on text cells and
 * send every other non-numeric cell to `Null`.
 */
module Coercion {
  import opened Wrappers
  import opened Numeric
  import opened Dates
  import opened Tables

  /** `pd.to_numeric(cell, errors="coerce")`. */
  function ToNumeric(c: Cell): (r: Cell)
    ensures r.Int? || r.Null?
  {
    match c
    case Str(s) => (match ParseInteger(s) case Some(v) => Int(v) case None => Null)
    case Int(_) => c
    case _ => Null
  }

  /** A cell counts as numeric (the `notna()` of the converted value) exactly when it converts to an integer. */
  predicate IsNumeric(c: Cell) {
    ToNumeric(c).Int?
  }

  /** `pd.to_datetime(cell, format="%B %d, %Y", errors="coerce")`, kept as the calendar day. */
  function ToDate(c: Cell): (r: Cell)
    ensures r.Null? || (r.Dated? && ValidDate(r.date))
  {
    match c
    case Str(s) => (match ParseDate(s) case Some(d) => Dated(d) case None => Null)
    case _ => Null
  }

  /** `.str.replace("<1", "0")` on one cell: text is rewritten, any other cell becomes missing. */
  function ReplaceSentinelCell(c: Cell): (r: Cell)
    ensures r.Str? || r.Null?
    ensures c.Str? ==> r.Str? && !HasSentinel(r.text)
  {
    match c
    case Str(s) => SentinelRemoved(s); Str(ReplaceSentinel(s))
    case _ => Null
  }

  /** A day count: the sentinel is rewritten to zero, then the cell is converted to a number. */
  function ToDays(c: Cell): (r: Cell)
    ensures r.Int? || r.Null?
  {
    ToNumeric(ReplaceSentinelCell(c))
  }

  function NumericColumn(col: seq<Cell>): (r: seq<Cell>)
    ensures |r| == |col| && forall i :: 0 <= i < |col| ==> r[i] == ToNumeric(col[i])
  {
    seq(|col|, i requires 0 <= i < |col| => ToNumeric(col[i]))
  }

  function DateColumn(col: seq<Cell>): (r: seq<Cell>)
    ensures |r| == |col| && forall i :: 0 <= i < |col| ==> r[i] == ToDate(col[i])
  {
    seq(|col|, i requires 0 <= i < |col| => ToDate(col[i]))
  }

  function DaysColumn(col: seq<Cell>): (r: seq<Cell>)
    ensures |r| == |col| && forall i :: 0 <= i < |col| ==> r[i] == ToDays(col[i])
  {
    seq(|col|, i requires 0 <= i < |col| => ToDays(col[i]))
  }

  /** The canonical text of every integer converts to that integer. */
  lemma NumericRoundTrip(i: int)
    ensures ToNumeric(Str(ShowInt(i))) == Int(i)
  {
    ParseShowInt(i);
  }

  /** Without the rewrite (the single-source pipeline) the sentinel and placeholders become missing. */
  lemma PlainNumericPlaceholders()
    ensures ToNumeric(Str("<1")) == Null
    ensures ToNumeric(Str("N/A")) == Null
    ensures ToNumeric(Null) == Null
  {
    NonNumericText();
  }

  /** With the rewrite the sentinel is the day count zero, never missing. */
  lemma SentinelDays()
    ensures ToDays(Str("<1")) == Int(0)
  {
    SentinelReadsAsZero();
  }

  /** "<12" is read as 2 days: the rewrite turns it into "02". */
  lemma SentinelPrefixDays()
    ensures ToDays(Str("<12")) == Int(2)
  {
    SentinelExamples();
  }

  /**
   * Text without the sentinel converts as it would without the rewrite:
   * to its integer, or to missing when it is not integer text.
   */
  lemma DaysWithoutSentinel(s: string)
    requires !HasSentinel(s)
    ensures ToDays(Str(s)) == ToNumeric(Str(s))
  {
    NoSentinelUnchanged(s);
  }

  /** A text cell becomes the day `d` exactly when it writes `d` in the "%B %d, %Y" layout. */
  lemma DateCellLayout(s: string, d: Date)
    ensures ToDate(Str(s)) == Dated(d) <==> InLayout(s, d)
  {
    ParseDateLayout(s, d);
  }

  /** "March 5, 2001" becomes 5 March 2001, and "February 30, 2001", which names no day, becomes missing. */
  lemma DateCells()
    ensures ToDate(Str("March 5, 2001")) == Dated(Date(2001, 3, 5))
    ensures ToDate(Str("February 30, 2001")) == Null
  {
    MarchExample();
    FebruaryThirtiethExample();
  }
}
