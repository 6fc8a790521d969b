/**
 * A data frame whose columns and rows are updated in place: the header
 * replacement, the column insertion and the key rewrite of the pipelines.
 */
module Frames {
  import opened Tables
  import opened Dimensions

  class Frame {
    var columns: seq<string>
    var data: seq<Row>

    /** The frame's current contents as a table value. */
    function View(): Table
      reads this
    {
      Table(columns, data)
    }

    ghost predicate Valid()
      reads this
    {
      View().Valid()
    }

    constructor (t: Table)
      requires t.Valid()
      ensures Valid() && View() == t
    {
      columns := t.headers;
      data := t.rows;
    }

    /** `df.columns = h`: new labels for the same columns. */
    method SetColumns(h: seq<string>)
      requires Valid() && |h| == |columns|
      modifies this
      ensures Valid() && columns == h && data == old(data)
    {
      columns := h;
    }

    /**
     * `df.insert(loc, name, fill)`: refused, leaving the frame as it was,
     * when the label is already a column; otherwise the column is inserted.
     */
    method Insert(loc: nat, name: string, fill: Cell) returns (ok: bool)
      requires Valid() && loc <= |columns|
      modifies this
      ensures Valid()
      ensures ok <==> name !in old(columns)
      ensures View() == if ok then InsertColumn(old(View()), loc, name, fill) else old(View())
    {
      if name in columns {
        return false;
      }
      var t := InsertColumn(View(), loc, name, fill);
      columns, data := t.headers, t.rows;
      ok := true;
    }

    /** `df[c] = df[c].map(ids)` for the column at position `j`, row by row. */
    method MapColumn(j: nat, ids: map<Cell, int>)
      requires Valid() && j < |columns|
      modifies this
      ensures Valid()
      ensures View() == RewriteColumn(old(View()), j, ids)
    {
      ghost var before := View();
      var i := 0;
      while i < |data|
        invariant 0 <= i <= |data| && |data| == |before.rows| && columns == before.headers
        invariant forall k :: 0 <= k < i ==> data[k] == before.rows[k][j := Lookup(ids, before.rows[k][j])]
        invariant forall k :: i <= k < |data| ==> data[k] == before.rows[k]
      {
        assert before.rows[i] in before.rows;
        data := data[i := data[i][j := Lookup(ids, data[i][j])]];
        i := i + 1;
      }
      assert data == RewriteColumn(before, j, ids).rows;
    }
  }
}
