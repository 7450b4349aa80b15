/** The integral of strain over the sensor for every sample row, and the
    time at which that integral peaks (the instant just before the first
    crack). */
module StrainIntegral {
  import opened Wrappers
  import opened Numeric
  import opened StrainTable

  function Sum(ys: seq<real>): real
    decreases |ys|
  {
    if ys == [] then 0.0 else ys[0] + Sum(ys[1..])
  }

  /** The trapezoidal rule with unit spacing, as `np.trapz(ys)` without an
      x-axis computes it: the abscissa is the column index, not the position
      label of the column. The trapezoids add up to the plain sum minus half
      of each end value; fewer than two values integrate to 0. */
  function Trapz(ys: seq<real>): (area: real)
    ensures |ys| < 2 ==> area == 0.0
    ensures ys != [] ==> area == Sum(ys) - (ys[0] + ys[|ys| - 1]) / 2.0
    decreases |ys|
  {
    if |ys| < 2 then 0.0 else (ys[0] + ys[1]) / 2.0 + Trapz(ys[1..])
  }

  /** A row of zeros integrates to 0. */
  lemma {:induction false} TrapzOfZeros(ys: seq<real>)
    requires forall k :: 0 <= k < |ys| ==> ys[k] == 0.0
    ensures Trapz(ys) == 0.0
    decreases |ys|
  {
    if |ys| >= 2 {
      TrapzOfZeros(ys[1..]);
    }
  }

  /** The integral of one row over its strain cells (every column of the
      sheet but the last, the time),
      missing cells read as 0. */
  function RowIntegral(r: Row): (v: real)
    ensures |r.strains| <= 1 ==> v == 0.0
    ensures r.strains != [] ==>
      var ys := Filled(r.strains);
      v == Sum(ys) - (ys[0] + ys[|ys| - 1]) / 2.0
  {
    Trapz(Filled(r.strains))
  }

  /** A row whose only present readings are zeros, or that has at most one
      strain column, integrates to 0. */
  lemma ZeroRowIntegral(r: Row)
    requires |r.strains| <= 1 || forall k :: 0 <= k < |r.strains| ==> r.strains[k].None? || r.strains[k] == Some(0.0)
    ensures RowIntegral(r) == 0.0
  {
    if |r.strains| > 1 {
      TrapzOfZeros(Filled(r.strains));
    }
  }

  function Integrals(rows: seq<Row>): seq<real>
  {
    seq(|rows|, i requires 0 <= i < |rows| => RowIntegral(rows[i]))
  }

  function Times(rows: seq<Row>): seq<real>
  {
    seq(|rows|, i requires 0 <= i < |rows| => rows[i].time)
  }

  /** The time of the first kept row whose integral is greatest; None when
      no row has any strain reading. */
  function PeakTime(rows: seq<Row>): (peak: Option<real>)
    ensures peak.None? <==> Clean(rows) == []
    ensures peak.Some? ==>
      var kept := Clean(rows);
      exists i :: 0 <= i < |kept| && peak.value == kept[i].time
        && (forall j :: 0 <= j < |kept| ==> RowIntegral(kept[j]) <= RowIntegral(kept[i]))
        && (forall j :: 0 <= j < i ==> RowIntegral(kept[j]) < RowIntegral(kept[i]))
  {
    var kept := Clean(rows);
    if kept == [] then None
    else
      var i := ArgMax(Integrals(kept));
      assert forall j :: 0 <= j < |kept| ==> Integrals(kept)[j] == RowIntegral(kept[j]);
      Some(kept[i].time)
  }

  /** The peak time is the time of some row of the sheet that has a reading. */
  lemma PeakTimeIsSheetTime(rows: seq<Row>)
    requires PeakTime(rows).Some?
    ensures exists r :: r in rows && !AllMissing(r) && r.time == PeakTime(rows).value
  {
    var kept := Clean(rows);
    var i :| 0 <= i < |kept| && PeakTime(rows).value == kept[i].time;
    CleanKeepsExactly(rows, kept[i]);
  }

  /** The integral loop and peak search: one integral and one time per kept
      row, in table order, then the time at the first greatest integral.
      Plotting, saving and progress reporting are not modelled. */
  method IntegralWithMax(t: Table) returns (integrals: seq<real>, times: seq<real>, maxTime: Option<real>)
    ensures integrals == Integrals(Clean(t.rows)) && times == Times(Clean(t.rows))
    ensures maxTime == PeakTime(t.rows)
  {
    var kept := Clean(t.rows);
    integrals, times := [], [];
    if kept == [] {
      return integrals, times, None;
    }
    for i := 0 to |kept|
      invariant |integrals| == i && |times| == i
      invariant forall j :: 0 <= j < i ==> integrals[j] == RowIntegral(kept[j]) && times[j] == kept[j].time
    {
      integrals := integrals + [RowIntegral(kept[i])];
      times := times + [kept[i].time];
    }
    var k := ArgMax(integrals);
    maxTime := Some(times[k]);
  }
}
