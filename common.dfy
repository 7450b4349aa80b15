/** Optional values: a missing spreadsheet cell, a header that is not a
    number, an end position that could not be determined. */
module Wrappers {

  datatype Option<+T> = None | Some(value: T)
}

/** The two library searches the analysis relies on, over exact reals:
    `np.argmax` (first index of the greatest value) and `Series.idxmin`
    (first index of the smallest value). */
module Numeric {

  function Abs(x: real): (r: real)
    ensures r >= 0.0
    ensures r == x || r == -x
  {
    if x < 0.0 then -x else x
  }

  /** The first index holding the greatest element, as `np.argmax` picks it. */
  function ArgMax(xs: seq<real>): (k: nat)
    requires xs != []
    ensures k < |xs|
    ensures forall j :: 0 <= j < |xs| ==> xs[j] <= xs[k]
    ensures forall j :: 0 <= j < k ==> xs[j] < xs[k]
    decreases |xs|
  {
    if |xs| == 1 then 0
    else
      var k := ArgMax(xs[..|xs| - 1]);
      if xs[|xs| - 1] > xs[k] then |xs| - 1 else k
  }

  /** The first index holding the smallest element, as `idxmin` picks it. */
  function ArgMin(xs: seq<real>): (k: nat)
    requires xs != []
    ensures k < |xs|
    ensures forall j :: 0 <= j < |xs| ==> xs[k] <= xs[j]
    ensures forall j :: 0 <= j < k ==> xs[k] < xs[j]
    decreases |xs|
  {
    if |xs| == 1 then 0
    else
      var k := ArgMin(xs[..|xs| - 1]);
      if xs[|xs| - 1] < xs[k] then |xs| - 1 else k
  }
}
