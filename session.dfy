/** The application state behind the screens: the loaded sheet, the chosen
    sample row and time, the last analysis parameters, the last result and
    the results table, changed by the selection actions, by Confirm on the
    analysis dashboard and by New Start. */
module Dashboard {
  import opened Wrappers
  import opened Numeric
  import opened StrainTable
  import opened StrainIntegral
  import opened TimeSelection
  import opened Boundary
  import opened ResultLedger

  /** What one Confirm reports. */
  datatype Outcome =
    | Confirmed
    | NotNumbers          // eps or l_ol is not a number
    | NotPositive         // eps or l_ol is not greater than zero
    | NoPositionColumns   // no strain column header reads as a position
    | NoReadings          // every cell under a position header is missing
    | NoAmplitudeBins     // the greatest strain is not positive: there are no bins

  /** The analysis of the selected row for accepted parameters. */
  datatype Analysis = Failed(reason: Outcome) | Detected(d: Detection)

  /** The analysis Confirm runs once eps and l_ol are accepted. */
  function Analyse(sel: LabelledRow, eps: real, lol: real): (a: Analysis)
    requires eps > 0.0 && |sel.labels| == |sel.row.strains|
    ensures a.Failed? ==> a.reason != Confirmed && a.reason != NotNumbers && a.reason != NotPositive
  {
    var pts := ExtractPoints(sel.labels, sel.row.strains);
    if !HasPositionColumns(sel.labels) then Failed(NoPositionColumns)
    else if pts == [] then Failed(NoReadings)
    else if MaxStrain(pts) <= 0.0 then Failed(NoAmplitudeBins)
    else Detected(Detect(pts, eps, lol))
  }

  /** Each failure of the analysis has its own cause: no header reads as a
      position; or some does but every cell under such a header is
      missing; or the greatest strain is not positive. Otherwise the
      detection runs on the extracted points. */
  lemma AnalyseOutcomes(sel: LabelledRow, eps: real, lol: real)
    requires eps > 0.0 && |sel.labels| == |sel.row.strains|
    ensures var a := Analyse(sel, eps, lol);
      && (a == Failed(NoPositionColumns) <==> forall k :: 0 <= k < |sel.labels| ==> sel.labels[k].None?)
      && (a == Failed(NoReadings) <==>
            HasPositionColumns(sel.labels)
            && forall k :: 0 <= k < |sel.labels| ==> sel.labels[k].None? || sel.row.strains[k].None?)
      && (a.Failed? ==> a.reason in {NoPositionColumns, NoReadings, NoAmplitudeBins})
      && var pts := ExtractPoints(sel.labels, sel.row.strains);
         && (a.Detected? <==> HasPositionColumns(sel.labels) && pts != [] && MaxStrain(pts) > 0.0)
         && (a.Detected? ==> a.d == Detect(pts, eps, lol))
  {
    ExtractPointsEmpty(sel.labels, sel.row.strains);
  }

  /** The record a successful Confirm files under the selected time. */
  function ResultRecord(time: real, eps: real, lol: real, d: Detection): Record
  {
    Record(time, eps, lol, d.liveEnd, d.deadEnd)
  }

  /** The computation of Confirm for accepted parameters, step by step:
      point extraction, bins, the dominant bin and the two scans. */
  method RunAnalysis(sel: LabelledRow, eps: real, lol: real) returns (a: Analysis)
    requires eps > 0.0 && |sel.labels| == |sel.row.strains|
    ensures a == Analyse(sel, eps, lol)
  {
    if !HasPositionColumns(sel.labels) {
      return Failed(NoPositionColumns);
    }
    var pts := ExtractPoints(sel.labels, sel.row.strains);
    if pts == [] {
      return Failed(NoReadings);
    }
    var top := MaxStrain(pts);
    if top <= 0.0 {
      return Failed(NoAmplitudeBins);
    }
    var n := BinCount(top, eps);
    var counts := Histogram(pts, eps, n);
    var bins := FillBins(pts, eps, n);
    var mb := ArgMax(counts);
    assert mb == DominantBin(pts, eps, n);
    var mbVals := bins[mb];
    var liveEnd := ScanLiveEnd(mbVals, lol);
    var deadEnd := ScanDeadEnd(mbVals, pts[|pts| - 1].pos, lol);
    a := Detected(Detection(mb, Edge(mb, eps), Edge(mb + 1, eps), mbVals, liveEnd, deadEnd));
  }

  class Session {
    var df: Option<Table>
    var selectedTime: Option<real>
    var selectedRow: Option<LabelledRow>
    var currentEps: Option<real>
    var currentLol: Option<real>
    var results: Option<Record>
    var resultsList: seq<Record>

    /** The sheet has one cell per strain column in every row, and the
        selected row carries one label per strain cell. */
    ghost predicate Valid()
      reads this
    {
      && (df.Some? ==> WellFormed(df.value))
      && (selectedRow.Some? ==> |selectedRow.value.labels| == |selectedRow.value.row.strains|)
    }

    /** Start-up: nothing loaded, nothing selected, no results. */
    constructor ()
      ensures Valid()
      ensures df.None? && selectedTime.None? && selectedRow.None?
      ensures currentEps.None? && currentLol.None? && results.None? && resultsList == []
    {
      df, selectedTime, selectedRow := None, None, None;
      currentEps, currentLol, results := None, None, None;
      resultsList := [];
    }

    /** Loading a sheet: the outcome of reading the file, None when it
        could not be read, replaces the loaded sheet. */
    method LoadTable(loaded: Option<Table>)
      requires Valid()
      requires loaded.Some? ==> WellFormed(loaded.value)
      modifies this`df
      ensures Valid() && df == loaded
    {
      df := loaded;
    }

    /** Selection at the integral peak. Fails, changing nothing, when no
        sheet is loaded or no row has a reading; otherwise the selected time
        is the peak time and the selected row the first kept row nearest
        it. */
    method SelectTimeByIntegral() returns (ok: bool)
      requires Valid()
      modifies this`selectedTime, this`selectedRow
      ensures Valid()
      ensures ok <==> old(df).Some? && Clean(old(df).value.rows) != []
      ensures !ok ==> selectedTime == old(selectedTime) && selectedRow == old(selectedRow)
      ensures ok ==>
        && selectedTime == PeakTime(df.value.rows)
        && selectedRow == Some(LabelledRow(df.value.headers, SelectByIntegral(df.value.rows).value))
    {
      if df.None? {
        return false;
      }
      var t := df.value;
      var _, _, maxTime := IntegralWithMax(t);
      if maxTime.None? {
        return false;
      }
      var kept := Clean(t.rows);
      var k := Closest(kept, maxTime.value);
      CleanKeepsExactly(t.rows, kept[k]);
      selectedTime := maxTime;
      selectedRow := Some(LabelledRow(t.headers, kept[k]));
      ok := true;
    }

    /** Selection of the first row of the sheet, unfiltered. Fails, changing
        nothing, when no sheet is loaded or the sheet has no rows. */
    method SelectTimeFirstRow() returns (ok: bool)
      requires Valid()
      modifies this`selectedTime, this`selectedRow
      ensures Valid()
      ensures ok <==> old(df).Some? && old(df).value.rows != []
      ensures !ok ==> selectedTime == old(selectedTime) && selectedRow == old(selectedRow)
      ensures ok ==>
        && selectedRow == Some(LabelledRow(df.value.headers, SelectFirstRow(df.value.rows).value))
        && selectedTime == Some(df.value.rows[0].time)
    {
      if df.None? || df.value.rows == [] {
        return false;
      }
      var t := df.value;
      selectedTime := Some(t.rows[0].time);
      selectedRow := Some(LabelledRow(t.headers, t.rows[0]));
      ok := true;
    }

    /** Selection by a typed time; typed is None when the text is not a
        number or the dialog was cancelled. Fails, changing nothing, when
        there is no number, no sheet or no row; otherwise the first row of
        the whole sheet nearest the typed time is selected, and the selected
        time is that row's own time, not the typed one. */
    method SelectTimeManual(typed: Option<real>) returns (ok: bool)
      requires Valid()
      modifies this`selectedTime, this`selectedRow
      ensures Valid()
      ensures ok <==> typed.Some? && old(df).Some? && old(df).value.rows != []
      ensures !ok ==> selectedTime == old(selectedTime) && selectedRow == old(selectedRow)
      ensures ok ==>
        && selectedRow == Some(LabelledRow(df.value.headers, SelectManual(df.value.rows, typed).value))
        && selectedTime == ManualSelectedTime(df.value.rows, typed)
        && selectedTime == Some(selectedRow.value.row.time)
    {
      if df.None? || typed.None? || df.value.rows == [] {
        return false;
      }
      var t := df.value;
      var row := t.rows[Closest(t.rows, typed.value)];
      selectedRow := Some(LabelledRow(t.headers, row));
      selectedTime := Some(row.time);
      ok := true;
    }

    /** Filing a result: the first entry with the record's key is replaced
        in place, otherwise the record is appended. */
    method Upsert(rec: Record)
      modifies this`resultsList
      ensures resultsList == Upserted(old(resultsList), rec)
    {
      var already := false;
      for i := 0 to |resultsList|
        invariant !already && resultsList == old(resultsList)
        invariant forall j :: 0 <= j < i ==> !SameKey(resultsList[j], rec)
      {
        if SameKey(resultsList[i], rec) {
          assert FirstMatch(resultsList, rec) == i;
          resultsList := resultsList[i := rec];
          already := true;
          break;
        }
      }
      if !already {
        resultsList := resultsList + [rec];
      }
    }

    /** Confirm on the dashboard, with eps and l_ol as read from their
        fields (None when the text is not a number). Bad parameters change
        nothing; accepted ones go on to the analysis. */
    method Confirm(epsIn: Option<real>, lolIn: Option<real>) returns (outcome: Outcome)
      requires Valid() && selectedRow.Some? && selectedTime.Some?
      modifies this`currentEps, this`currentLol, this`results, this`resultsList
      ensures Valid()
      ensures epsIn.None? || lolIn.None? ==> outcome == NotNumbers && unchanged(this)
      ensures epsIn.Some? && lolIn.Some? && (epsIn.value <= 0.0 || lolIn.value <= 0.0) ==>
        outcome == NotPositive && unchanged(this)
      ensures epsIn.Some? && lolIn.Some? && epsIn.value > 0.0 && lolIn.value > 0.0 ==>
        Analysed(epsIn.value, lolIn.value, Analyse(selectedRow.value, epsIn.value, lolIn.value),
                 outcome, old(results), old(resultsList))
    {
      if epsIn.None? || lolIn.None? {
        return NotNumbers;
      }
      if epsIn.value <= 0.0 || lolIn.value <= 0.0 {
        return NotPositive;
      }
      var analysis := RunAnalysis(selectedRow.value, epsIn.value, lolIn.value);
      outcome := ConfirmAccepted(epsIn.value, lolIn.value, analysis);
    }

    /** The state after Confirm with accepted parameters eps and l_ol and
        the analysis a of the selected row: the parameters are stored; a
        failed analysis leaves the result and the results table alone; a
        detection becomes the current result and is filed under the
        selected time. */
    ghost predicate Analysed(eps: real, lol: real, a: Analysis, outcome: Outcome,
                             oldResults: Option<Record>, oldList: seq<Record>)
      requires selectedTime.Some?
      reads this
    {
      && currentEps == Some(eps) && currentLol == Some(lol)
      && (a.Failed? ==> outcome == a.reason && results == oldResults && resultsList == oldList)
      && (a.Detected? ==>
            var rec := ResultRecord(selectedTime.value, eps, lol, a.d);
            outcome == Confirmed && results == Some(rec) && resultsList == Upserted(oldList, rec))
    }

    /** Confirm past the parameter checks, for the analysis a of the
        selected row. */
    method ConfirmAccepted(eps: real, lol: real, a: Analysis) returns (outcome: Outcome)
      requires selectedTime.Some?
      modifies this`currentEps, this`currentLol, this`results, this`resultsList
      ensures Analysed(eps, lol, a, outcome, old(results), old(resultsList))
    {
      currentEps, currentLol := Some(eps), Some(lol);
      if a.Failed? {
        return a.reason;
      }
      var rec := ResultRecord(selectedTime.value, eps, lol, a.d);
      results := Some(rec);
      Upsert(rec);
      outcome := Confirmed;
    }

    /** New Start: the results table is emptied and the selected time
        cleared; the loaded sheet, the selected row, the parameters and the
        last result stay as they were. */
    method NewStart()
      requires Valid()
      modifies this`resultsList, this`selectedTime
      ensures Valid()
      ensures resultsList == [] && selectedTime.None?
    {
      resultsList := [];
      selectedTime := None;
    }
  }
}
