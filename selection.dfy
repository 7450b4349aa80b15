/** Choosing the sample row to analyse: at the integral peak, the first
    row, or the row nearest a typed time. */
module TimeSelection {
  import opened Wrappers
  import opened Numeric
  import opened StrainTable
  import opened StrainIntegral

  function TimeDiffs(rows: seq<Row>, target: real): seq<real>
  {
    seq(|rows|, i requires 0 <= i < |rows| => Abs(rows[i].time - target))
  }

  /** The first row, in the given order, whose time is nearest the target
      (`idxmin` over the absolute time differences). */
  function Closest(rows: seq<Row>, target: real): (k: nat)
    requires rows != []
    ensures k < |rows|
    ensures forall j :: 0 <= j < |rows| ==> Abs(rows[k].time - target) <= Abs(rows[j].time - target)
    ensures forall j :: 0 <= j < k ==> Abs(rows[k].time - target) < Abs(rows[j].time - target)
  {
    var diffs := TimeDiffs(rows, target);
    assert forall j :: 0 <= j < |rows| ==> diffs[j] == Abs(rows[j].time - target);
    ArgMin(diffs)
  }

  /** When some row carries the target time exactly, the nearest row is the
      first row that carries it. */
  lemma {:induction false} ClosestHitsExactTime(rows: seq<Row>, target: real, i: nat)
    requires i < |rows| && rows[i].time == target
    ensures rows[Closest(rows, target)].time == target
    ensures Closest(rows, target) <= i
    ensures forall j :: 0 <= j < Closest(rows, target) ==> rows[j].time != target
  {
    var k := Closest(rows, target);
    assert Abs(rows[i].time - target) == 0.0;
    assert Abs(rows[k].time - target) == 0.0;
    forall j | 0 <= j < k
      ensures rows[j].time != target
    {
      assert Abs(rows[k].time - target) < Abs(rows[j].time - target);
    }
  }

  /** Selection at the integral peak: among the kept rows only, the first
      one whose time is nearest the peak time. None when no row has a
      reading. */
  function SelectByIntegral(rows: seq<Row>): (sel: Option<Row>)
    ensures sel.None? <==> Clean(rows) == []
    ensures sel.Some? ==> PeakTime(rows) == Some(sel.value.time)
    ensures sel.Some? ==>
      var kept := Clean(rows);
      exists i :: 0 <= i < |kept| && kept[i] == sel.value
        && forall j :: 0 <= j < i ==> kept[j].time != sel.value.time
  {
    var kept := Clean(rows);
    match PeakTime(rows)
    case None => None
    case Some(m) =>
      var i :| 0 <= i < |kept| && m == kept[i].time;
      ClosestHitsExactTime(kept, m, i);
      Some(kept[Closest(kept, m)])
  }

  /** Selection of the first row: row 0 of the whole sheet, even when all
      its strain cells are missing. None stands for the IndexError an empty
      sheet raises. */
  function SelectFirstRow(rows: seq<Row>): (sel: Option<Row>)
    ensures sel.None? <==> rows == []
    ensures sel.Some? ==> sel.value == rows[0]
  {
    if rows == [] then None else Some(rows[0])
  }

  /** Selection by a typed time: the first row of the whole sheet whose time
      is nearest the typed value. None when the text is not a number or the
      sheet is empty (both raise ValueError, which is reported the same
      way). */
  function SelectManual(rows: seq<Row>, typed: Option<real>): (sel: Option<Row>)
    ensures sel.None? <==> typed.None? || rows == []
    ensures sel.Some? ==>
      exists k :: 0 <= k < |rows| && rows[k] == sel.value
        && (forall j :: 0 <= j < |rows| ==> Abs(rows[k].time - typed.value) <= Abs(rows[j].time - typed.value))
        && (forall j :: 0 <= j < k ==> Abs(rows[k].time - typed.value) < Abs(rows[j].time - typed.value))
  {
    if typed.None? || rows == [] then None
    else Some(rows[Closest(rows, typed.value)])
  }

  /** The time a manual selection records: the selected row's own time
      cell. */
  function ManualSelectedTime(rows: seq<Row>, typed: Option<real>): (t: Option<real>)
    ensures t.Some? <==> typed.Some? && rows != []
    ensures t.Some? ==> t.value == SelectManual(rows, typed).value.time
    ensures t.Some? ==>
      exists k :: 0 <= k < |rows| && rows[k].time == t.value
        && forall j :: 0 <= j < |rows| ==> Abs(t.value - typed.value) <= Abs(rows[j].time - typed.value)
  {
    match SelectManual(rows, typed)
    case None => None
    case Some(r) => Some(r.time)
  }

  /** A typed time that some row carries selects the first row carrying it,
      and that time is recorded. */
  lemma ManualExactTime(rows: seq<Row>, v: real, i: nat)
    requires i < |rows| && rows[i].time == v
    ensures SelectManual(rows, Some(v)).Some?
    ensures SelectManual(rows, Some(v)).value.time == v
    ensures ManualSelectedTime(rows, Some(v)) == Some(v)
  {
    ClosestHitsExactTime(rows, v, i);
  }

  /** The time the manual selection records as the code is written: the
      column of time differences has just been appended to the sheet, so
      the "last column" read from the selected row is that difference,
      not the row's time. */
  function ManualSelectedTimeAsWritten(rows: seq<Row>, typed: Option<real>): (t: Option<real>)
    ensures t.Some? <==> typed.Some? && rows != []
    ensures t.Some? ==> t.value >= 0.0
    ensures t.Some? ==>
      && (forall j :: 0 <= j < |rows| ==> t.value <= Abs(rows[j].time - typed.value))
      && exists k :: 0 <= k < |rows| && t.value == Abs(rows[k].time - typed.value)
  {
    match SelectManual(rows, typed)
    case None => None
    case Some(r) => Some(Abs(r.time - typed.value))
  }

  /** Typing a time that some row carries records 0 as written, while the
      row's own time is the typed one: the two disagree for every nonzero
      exact hit. */
  lemma ManualTimeAsWrittenIsDistance(rows: seq<Row>, v: real, i: nat)
    requires i < |rows| && rows[i].time == v && v != 0.0
    ensures ManualSelectedTimeAsWritten(rows, Some(v)) == Some(0.0)
    ensures ManualSelectedTime(rows, Some(v)) == Some(v)
    ensures ManualSelectedTimeAsWritten(rows, Some(v)) != ManualSelectedTime(rows, Some(v))
  {
    ManualExactTime(rows, v, i);
  }
}
