/** The loaded measurement sheet: every column but the last is a strain
    channel whose header names a sensor position, the last column is the
    time of the sample. */
module StrainTable {
  import opened Wrappers

  /** One strain reading; None is a missing (NaN) cell. */
  type Cell = Option<real>

  /** One sample row: the strain cells of every column but the last, in
      column order, and the time held in the last column. */
  datatype Row = Row(strains: seq<Cell>, time: real)

  /** The sheet. headers[k] is the position label of strain column k when
      its header text reads as a number, and None when it does not. */
  datatype Table = Table(headers: seq<Option<real>>, rows: seq<Row>)

  /** A row copied out of the sheet together with the labels of its strain
      columns, as a pandas Series carries its index. */
  datatype LabelledRow = LabelledRow(labels: seq<Option<real>>, row: Row)

  /** Every row has one cell per strain column. */
  predicate WellFormed(t: Table)
  {
    forall i :: 0 <= i < |t.rows| ==> |t.rows[i].strains| == |t.headers|
  }

  predicate AllMissing(r: Row)
  {
    forall k :: 0 <= k < |r.strains| ==> r.strains[k].None?
  }

  /** The rows that survive dropping every row whose strain cells are all
      missing, in table order. A row without strain columns counts as all
      missing. */
  function Clean(rows: seq<Row>): (kept: seq<Row>)
    ensures |kept| <= |rows|
    ensures forall i :: 0 <= i < |kept| ==> !AllMissing(kept[i])
    decreases |rows|
  {
    if rows == [] then []
    else
      var last := rows[|rows| - 1];
      Clean(rows[..|rows| - 1]) + (if AllMissing(last) then [] else [last])
  }

  /** A row is kept exactly when it is in the sheet and not all missing. */
  lemma {:induction false} CleanKeepsExactly(rows: seq<Row>, r: Row)
    ensures r in Clean(rows) <==> r in rows && !AllMissing(r)
    decreases |rows|
  {
    if rows != [] {
      var init, last := rows[..|rows| - 1], rows[|rows| - 1];
      assert rows == init + [last];
      CleanKeepsExactly(init, r);
    }
  }

  /** Cleaning works row by row, so it keeps the table order. */
  lemma {:induction false} CleanDistributes(a: seq<Row>, b: seq<Row>)
    ensures Clean(a + b) == Clean(a) + Clean(b)
    decreases |b|
  {
    if b == [] {
      assert a + b == a;
    } else {
      var init := b[..|b| - 1];
      assert (a + b)[..|a + b| - 1] == a + init;
      assert (a + b)[|a + b| - 1] == b[|b| - 1];
      CleanDistributes(a, init);
    }
  }

  /** The strain values of a row with missing cells read as 0. */
  function Filled(cells: seq<Cell>): seq<real>
  {
    seq(|cells|, k requires 0 <= k < |cells| => if cells[k].Some? then cells[k].value else 0.0)
  }
}
