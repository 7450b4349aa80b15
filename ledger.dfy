/** The results table of the dashboard: one record per (time, eps, l_ol)
    key, matched with a tolerance, the latest result for a key replacing the
    earlier one in place. */
module ResultLedger {
  import opened Wrappers
  import opened Numeric

  /** One row of the results table: Time [s], eps, l_ol, Live End, Dead End. */
  datatype Record = Record(time: real, eps: real, lol: real, liveEnd: Option<real>, deadEnd: Option<real>)

  /** Times closer than 1e-6 count as equal. */
  const TimeTolerance: real := 0.000001

  /** eps and l_ol values closer than 1e-9 count as equal. */
  const ParameterTolerance: real := 0.000000001

  /** Entry e has the key of record r. */
  predicate SameKey(e: Record, r: Record)
  {
    && Abs(e.time - r.time) < TimeTolerance
    && Abs(e.eps - r.eps) < ParameterTolerance
    && Abs(e.lol - r.lol) < ParameterTolerance
  }

  /** The index of the first entry with the key of r, or |list| when there
      is none. */
  function FirstMatch(list: seq<Record>, r: Record): (k: nat)
    ensures k <= |list|
    ensures k < |list| ==> SameKey(list[k], r)
    ensures forall j :: 0 <= j < k ==> !SameKey(list[j], r)
    decreases |list|
  {
    if list == [] then 0
    else if SameKey(list[0], r) then 0
    else 1 + FirstMatch(list[1..], r)
  }

  /** The table after recording r: the first entry with r's key is
      replaced by r in place, every other entry kept; with no such entry, r
      is appended after all the old entries. */
  function Upserted(list: seq<Record>, r: Record): (result: seq<Record>)
    ensures (forall j :: 0 <= j < |list| ==> !SameKey(list[j], r)) ==> result == list + [r]
    ensures (exists j :: 0 <= j < |list| && SameKey(list[j], r)) ==>
      exists k :: 0 <= k < |list| && SameKey(list[k], r)
        && (forall j :: 0 <= j < k ==> !SameKey(list[j], r))
        && |result| == |list| && result[k] == r
        && (forall j :: 0 <= j < |list| && j != k ==> result[j] == list[j])
  {
    var k := FirstMatch(list, r);
    if k < |list| then list[k := r] else list + [r]
  }

  /** Recording the same result again changes nothing: each resize of the
      dashboard repeats the last Confirm. */
  lemma UpsertIdempotent(list: seq<Record>, r: Record)
    ensures Upserted(Upserted(list, r), r) == Upserted(list, r)
  {
    var once := Upserted(list, r);
    var k := FirstMatch(list, r);
    assert SameKey(r, r);
    if k < |list| {
      assert once == list[k := r];
      assert forall j :: 0 <= j < k ==> once[j] == list[j];
      assert once[k] == r && SameKey(once[k], r);
    } else {
      assert once == list + [r];
      assert forall j :: 0 <= j < |list| ==> once[j] == list[j];
      assert once[|list|] == r && SameKey(once[|list|], r);
    }
  }

  /** Recording r1 and then r2 with a key within tolerance of r1's, when
      nothing earlier matches either, leaves one entry for them: r2's. */
  lemma UpsertSupersedes(list: seq<Record>, r1: Record, r2: Record)
    requires forall j :: 0 <= j < |list| ==> !SameKey(list[j], r1) && !SameKey(list[j], r2)
    requires SameKey(r1, r2)
    ensures Upserted(Upserted(list, r1), r2) == list + [r2]
  {
    var once := Upserted(list, r1);
    assert once == list + [r1];
    assert forall j :: 0 <= j < |list| ==> once[j] == list[j];
    assert once[|list|] == r1 && SameKey(once[|list|], r2);
    assert once[|list| := r2] == list + [r2];
  }

  /** Two Confirms at t = 5.0 and t = 5.0000001 with eps = 0.023 and
      0.023000000001 and l_ol = 17 keep one entry, the second. */
  lemma ToleranceExample(live1: Option<real>, dead1: Option<real>, live2: Option<real>, dead2: Option<real>)
    ensures var r1 := Record(5.0, 0.023, 17.0, live1, dead1);
      var r2 := Record(5.0000001, 0.023000000001, 17.0, live2, dead2);
      Upserted(Upserted([], r1), r2) == [r2]
  {
    var r1 := Record(5.0, 0.023, 17.0, live1, dead1);
    var r2 := Record(5.0000001, 0.023000000001, 17.0, live2, dead2);
    UpsertSupersedes([], r1, r2);
  }
}
