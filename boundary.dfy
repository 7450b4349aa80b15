/** Live End / Dead End detection on one selected row: the readings are
    grouped into strain-amplitude bins of width eps, the fullest bin is
    taken, and its points are scanned from both sides for the first point
    that is closer than l_ol to its neighbour. */
module Boundary {
  import opened Wrappers
  import opened Numeric
  import opened StrainTable

  /** One reading of the selected row: its strain and the sensor position
      named by its column header. */
  datatype Point = Point(strain: real, pos: real)

  /** Some strain column has a header that reads as a number. */
  predicate HasPositionColumns(labels: seq<Option<real>>)
  {
    exists k :: 0 <= k < |labels| && labels[k].Some?
  }

  // ---------------------------------------------------------------------
  // Point extraction
  // ---------------------------------------------------------------------

  /** The (strain, position) pairs of the row: one per column whose header
      is a number and whose cell is present, in column order. Positions are
      not sorted. */
  function ExtractPoints(labels: seq<Option<real>>, cells: seq<Cell>): (pts: seq<Point>)
    requires |labels| == |cells|
    decreases |cells|
  {
    if cells == [] then []
    else
      var n := |cells| - 1;
      ExtractPoints(labels[..n], cells[..n])
        + (if labels[n].Some? && cells[n].Some? then [Point(cells[n].value, labels[n].value)] else [])
  }

  /** The columns ExtractPoints reads, in the same order. */
  function KeptColumns(labels: seq<Option<real>>, cells: seq<Cell>): seq<nat>
    requires |labels| == |cells|
    decreases |cells|
  {
    if cells == [] then []
    else
      var n := |cells| - 1;
      KeptColumns(labels[..n], cells[..n]) + (if labels[n].Some? && cells[n].Some? then [n] else [])
  }

  /** The j-th point comes from the j-th kept column; kept columns strictly
      increase; every column with a numeric header and a present cell is
      kept, and no other. */
  lemma {:induction false} ExtractPointsByColumn(labels: seq<Option<real>>, cells: seq<Cell>)
    requires |labels| == |cells|
    ensures var pts, ks := ExtractPoints(labels, cells), KeptColumns(labels, cells);
      |ks| == |pts|
      && (forall j :: 0 <= j < |ks| ==>
            ks[j] < |cells| && labels[ks[j]].Some? && cells[ks[j]].Some?
            && pts[j] == Point(cells[ks[j]].value, labels[ks[j]].value))
      && (forall i, j :: 0 <= i < j < |ks| ==> ks[i] < ks[j])
      && (forall k :: 0 <= k < |cells| && labels[k].Some? && cells[k].Some? ==> k in ks)
    decreases |cells|
  {
    if cells != [] {
      var n := |cells| - 1;
      ExtractPointsByColumn(labels[..n], cells[..n]);
    }
  }

  /** No point survives when no cell under a numeric header is present. */
  lemma {:induction false} ExtractPointsEmpty(labels: seq<Option<real>>, cells: seq<Cell>)
    requires |labels| == |cells|
    ensures ExtractPoints(labels, cells) == [] <==>
      forall k :: 0 <= k < |cells| ==> labels[k].None? || cells[k].None?
    decreases |cells|
  {
    if cells != [] {
      var n := |cells| - 1;
      ExtractPointsEmpty(labels[..n], cells[..n]);
      assert forall k :: 0 <= k < n ==> labels[..n][k] == labels[k] && cells[..n][k] == cells[k];
    }
  }

  /** A reading in the last column, under a numeric header, is the last
      point: the point Dead End is measured from. */
  lemma LastColumnIsLastPoint(labels: seq<Option<real>>, cells: seq<Cell>)
    requires |labels| == |cells| && cells != []
    requires labels[|cells| - 1].Some? && cells[|cells| - 1].Some?
    ensures var pts := ExtractPoints(labels, cells);
      pts != [] && pts[|pts| - 1] == Point(cells[|cells| - 1].value, labels[|cells| - 1].value)
  {
  }

  /** The largest strain among the points (`np.nanmax`). */
  function MaxStrain(pts: seq<Point>): (m: real)
    requires pts != []
    ensures exists i :: 0 <= i < |pts| && pts[i].strain == m
    ensures forall i :: 0 <= i < |pts| ==> pts[i].strain <= m
    decreases |pts|
  {
    if |pts| == 1 then pts[0].strain
    else
      var m := MaxStrain(pts[..|pts| - 1]);
      var v := pts[|pts| - 1].strain;
      assert forall i :: 0 <= i < |pts| - 1 ==> pts[..|pts| - 1][i] == pts[i];
      if v > m then v else m
  }

  // ---------------------------------------------------------------------
  // Amplitude bins
  // ---------------------------------------------------------------------

  /** Bin edge k of `np.arange(0, top + eps, eps)`, in exact arithmetic. */
  function Edge(k: int, eps: real): real
  {
    k as real * eps
  }

  lemma ScaleByWidth(a: real, b: real, eps: real)
    requires eps > 0.0
    ensures a <= b <==> a * eps <= b * eps
    ensures a < b <==> a * eps < b * eps
  {
    if a <= b {
      assert (b - a) * eps >= 0.0;
    } else {
      assert (a - b) * eps > 0.0;
    }
  }

  /** Consecutive edges are eps apart. */
  lemma EdgeStep(k: int, eps: real)
    ensures Edge(k + 1, eps) == Edge(k, eps) + eps
  {
    assert (k + 1) as real * eps == k as real * eps + eps;
  }

  /** The number of bins: `np.arange(0, top + eps, eps)` yields the edges
      0, eps, ..., n * eps, the last edge below top + eps and the next one
      not. */
  function BinCount(top: real, eps: real): (n: nat)
    requires top > 0.0 && eps > 0.0
    ensures n >= 1
    ensures Edge(n, eps) < top + eps <= Edge(n + 1, eps)
    ensures Edge(n - 1, eps) < top <= Edge(n, eps)
  {
    var q := top / eps;
    var f := (-q).Floor;
    assert q * eps == top;
    assert q > 0.0;
    ScaleByWidth((-f) as real - 1.0, q, eps);
    ScaleByWidth(q, (-f) as real, eps);
    EdgeStep(-f, eps);
    EdgeStep(-f - 1, eps);
    -f
  }

  /** The bin a strain falls into by `np.digitize(v, edges) - 1`, whenever
      that index names a bin. */
  function BinIndex(v: real, eps: real): int
    requires eps > 0.0
  {
    (v / eps).Floor
  }

  /** Comparing with a quotient by eps is comparing with a multiple of eps. */
  lemma QuotientOrder(a: real, v: real, eps: real)
    requires eps > 0.0
    ensures a <= v / eps <==> a * eps <= v
    ensures v / eps < a <==> v < a * eps
  {
    var q := v / eps;
    assert q * eps == v;
    ScaleByWidth(a, q, eps);
    ScaleByWidth(q, a, eps);
  }

  /** A strain has bin index k exactly when it lies in the half-open
      interval [Edge(k), Edge(k + 1)). */
  lemma BinIndexIsEdgeInterval(v: real, eps: real, k: int)
    requires eps > 0.0
    ensures BinIndex(v, eps) == k <==> Edge(k, eps) <= v < Edge(k + 1, eps)
  {
    var q := v / eps;
    var kr, kr1 := k as real, (k + 1) as real;
    QuotientOrder(kr, v, eps);
    QuotientOrder(kr1, v, eps);
    var f := q.Floor;
    assert f as real <= q < f as real + 1.0;
    assert f == k <==> kr <= q < kr1;
  }

  /** A negative strain gets a negative bin index, so no bin list takes
      it; every other strain gets an index of at least 0. */
  lemma NegativeStrainHasNoBin(v: real, eps: real)
    requires eps > 0.0
    ensures BinIndex(v, eps) < 0 <==> v < 0.0
  {
    QuotientOrder(0.0, v, eps);
  }

  /** Membership of a strain in bin k of `np.histogram` over n bins: every
      bin is half-open except the last, which also holds its right edge. */
  predicate InHistogramBin(v: real, k: nat, eps: real, n: nat)
  {
    Edge(k, eps) <= v && (v < Edge(k + 1, eps) || (k + 1 == n && v == Edge(n, eps)))
  }

  /** The histogram count of bin k. */
  function HistCount(pts: seq<Point>, k: nat, eps: real, n: nat): (c: nat)
    ensures c <= |pts|
    decreases |pts|
  {
    if pts == [] then 0
    else
      HistCount(pts[..|pts| - 1], k, eps, n)
        + (if InHistogramBin(pts[|pts| - 1].strain, k, eps, n) then 1 else 0)
  }

  /** The counts `np.histogram` returns, one per bin (as reals, so that the
      peak search over them is the one used for the integrals). */
  function Histogram(pts: seq<Point>, eps: real, n: nat): (counts: seq<real>)
    ensures |counts| == n
    ensures forall k :: 0 <= k < n ==> 0.0 <= counts[k] <= |pts| as real
  {
    seq(n, k requires 0 <= k < n => HistCount(pts, k, eps, n) as real)
  }

  /** The points of bin k, in input order: the list `bins_pts[k]`. */
  function Members(pts: seq<Point>, k: int, eps: real): (m: seq<Point>)
    requires eps > 0.0
    ensures |m| <= |pts|
    ensures forall i :: 0 <= i < |m| ==> BinIndex(m[i].strain, eps) == k
    decreases |pts|
  {
    if pts == [] then []
    else
      var p := pts[|pts| - 1];
      Members(pts[..|pts| - 1], k, eps) + (if BinIndex(p.strain, eps) == k then [p] else [])
  }

  /** A point is in bin k's list exactly when it is one of the row's points
      and its strain lies in [Edge(k), Edge(k + 1)). */
  lemma {:induction false} MembersExactly(pts: seq<Point>, k: int, eps: real, p: Point)
    requires eps > 0.0
    ensures p in Members(pts, k, eps) <==> p in pts && Edge(k, eps) <= p.strain < Edge(k + 1, eps)
    decreases |pts|
  {
    BinIndexIsEdgeInterval(p.strain, eps, k);
    if pts != [] {
      var init := pts[..|pts| - 1];
      assert pts == init + [pts[|pts| - 1]];
      MembersExactly(init, k, eps, p);
    }
  }

  /** A bin's list keeps the input order: the list of a concatenation is the
      concatenation of the lists. */
  lemma {:induction false} MembersDistributes(a: seq<Point>, b: seq<Point>, k: int, eps: real)
    requires eps > 0.0
    ensures Members(a + b, k, eps) == Members(a, k, eps) + Members(b, k, eps)
    decreases |b|
  {
    if b == [] {
      assert a + b == a;
    } else {
      var init := b[..|b| - 1];
      assert (a + b)[..|a + b| - 1] == a + init;
      assert (a + b)[|a + b| - 1] == b[|b| - 1];
      MembersDistributes(a, init, k, eps);
    }
  }

  /** How many points sit exactly on the right edge of the last bin. */
  function TopEdgeCount(pts: seq<Point>, eps: real, n: nat): nat
    decreases |pts|
  {
    if pts == [] then 0
    else TopEdgeCount(pts[..|pts| - 1], eps, n) + (if pts[|pts| - 1].strain == Edge(n, eps) then 1 else 0)
  }

  /** The histogram and the bin lists agree on every bin except the last,
      whose count also includes the points on its right edge, which the
      bin lists drop. */
  lemma {:induction false} HistCountVersusMembers(pts: seq<Point>, k: nat, eps: real, n: nat)
    requires eps > 0.0 && k < n
    ensures HistCount(pts, k, eps, n)
      == |Members(pts, k, eps)| + (if k + 1 == n then TopEdgeCount(pts, eps, n) else 0)
    decreases |pts|
  {
    if pts != [] {
      var v := pts[|pts| - 1].strain;
      HistCountVersusMembers(pts[..|pts| - 1], k, eps, n);
      BinIndexIsEdgeInterval(v, eps, k);
      if k + 1 == n && v == Edge(n, eps) {
        ScaleByWidth(k as real, n as real, eps);
      }
    }
  }

  /** A bin holding some point has a positive count. */
  lemma {:induction false} HistCountPositive(pts: seq<Point>, k: nat, eps: real, n: nat, i: nat)
    requires i < |pts| && InHistogramBin(pts[i].strain, k, eps, n)
    ensures HistCount(pts, k, eps, n) >= 1
    decreases |pts|
  {
    if i < |pts| - 1 {
      HistCountPositive(pts[..|pts| - 1], k, eps, n, i);
    }
  }

  /** With every strain strictly below the top edge, nothing sits on it. */
  lemma {:induction false} TopEdgeCountZero(pts: seq<Point>, eps: real, n: nat)
    requires forall i :: 0 <= i < |pts| ==> pts[i].strain < Edge(n, eps)
    ensures TopEdgeCount(pts, eps, n) == 0
    decreases |pts|
  {
    if pts != [] {
      TopEdgeCountZero(pts[..|pts| - 1], eps, n);
    }
  }

  /** The bin-filling loop: each point is appended to the list of its bin
      when that bin exists, and dropped otherwise. */
  method FillBins(pts: seq<Point>, eps: real, n: nat) returns (bins: seq<seq<Point>>)
    requires eps > 0.0
    ensures |bins| == n
    ensures forall k :: 0 <= k < n ==> bins[k] == Members(pts, k, eps)
  {
    bins := seq(n, _ => []);
    for i := 0 to |pts|
      invariant |bins| == n
      invariant forall k :: 0 <= k < n ==> bins[k] == Members(pts[..i], k, eps)
    {
      assert pts[..i + 1][..i] == pts[..i];
      var bi := BinIndex(pts[i].strain, eps);
      if 0 <= bi < n {
        bins := bins[bi := bins[bi] + [pts[i]]];
      }
    }
    assert pts[..|pts|] == pts;
  }

  // ---------------------------------------------------------------------
  // The two end scans
  // ---------------------------------------------------------------------

  /** Point i is accepted as Live End: it has no successor, or its
      successor lies less than l_ol beyond it. */
  predicate LiveAccepts(mb: seq<Point>, i: nat, lol: real)
    requires i < |mb|
  {
    i + 1 >= |mb| || mb[i].pos + lol > mb[i + 1].pos
  }

  function FirstLiveFrom(mb: seq<Point>, lol: real, i: nat): (r: nat)
    requires i < |mb|
    ensures i <= r < |mb| && LiveAccepts(mb, r, lol)
    ensures forall j :: i <= j < r ==> !LiveAccepts(mb, j, lol)
    decreases |mb| - i
  {
    if LiveAccepts(mb, i, lol) then i else FirstLiveFrom(mb, lol, i + 1)
  }

  /** The Live End: the position of the first accepted point of the bin
      list; None only for an empty list. */
  function LiveEnd(mb: seq<Point>, lol: real): (live: Option<real>)
    ensures live.None? <==> mb == []
    ensures live.Some? ==>
      exists i :: 0 <= i < |mb| && live.value == mb[i].pos && LiveAccepts(mb, i, lol)
        && forall j :: 0 <= j < i ==> !LiveAccepts(mb, j, lol)
  {
    if mb == [] then None else Some(mb[FirstLiveFrom(mb, lol, 0)].pos)
  }

  /** Point i is accepted as Dead End: it has no predecessor, or it lies
      less than l_ol beyond its predecessor. */
  predicate DeadAccepts(mb: seq<Point>, i: nat, lol: real)
    requires i < |mb|
  {
    i == 0 || mb[i].pos < mb[i - 1].pos + lol
  }

  function LastDeadFrom(mb: seq<Point>, lol: real, i: nat): (r: nat)
    requires i < |mb|
    ensures r <= i && DeadAccepts(mb, r, lol)
    ensures forall j :: r < j <= i ==> !DeadAccepts(mb, j, lol)
    decreases i
  {
    if DeadAccepts(mb, i, lol) then i else LastDeadFrom(mb, lol, i - 1)
  }

  /** The Dead End: the distance from the last extracted point of the row
      (`last`) back to the last accepted point of the bin list; None only
      for an empty list. */
  function DeadEnd(mb: seq<Point>, last: real, lol: real): (dead: Option<real>)
    ensures dead.None? <==> mb == []
    ensures dead.Some? ==>
      exists i :: 0 <= i < |mb| && dead.value == last - mb[i].pos && DeadAccepts(mb, i, lol)
        && forall j :: i < j < |mb| ==> !DeadAccepts(mb, j, lol)
  {
    if mb == [] then None else Some(last - mb[LastDeadFrom(mb, lol, |mb| - 1)].pos)
  }

  /** The first accepted point is the only one with no accepted point
      before it. */
  lemma FirstLiveUnique(mb: seq<Point>, lol: real, i: nat)
    requires i < |mb| && LiveAccepts(mb, i, lol)
    requires forall j :: 0 <= j < i ==> !LiveAccepts(mb, j, lol)
    ensures FirstLiveFrom(mb, lol, 0) == i
  {
  }

  /** The last accepted point is the only one with no accepted point after
      it. */
  lemma LastDeadUnique(mb: seq<Point>, lol: real, i: nat)
    requires i < |mb| && DeadAccepts(mb, i, lol)
    requires forall j :: i < j < |mb| ==> !DeadAccepts(mb, j, lol)
    ensures LastDeadFrom(mb, lol, |mb| - 1) == i
  {
  }

  /** The forward scan with `break`. */
  method ScanLiveEnd(mb: seq<Point>, lol: real) returns (liveEnd: Option<real>)
    ensures liveEnd == LiveEnd(mb, lol)
  {
    liveEnd := None;
    for i := 0 to |mb|
      invariant liveEnd.None?
      invariant forall j :: 0 <= j < i ==> !LiveAccepts(mb, j, lol)
    {
      var valid := true;
      if i + 1 < |mb| && mb[i].pos + lol <= mb[i + 1].pos {
        valid := false;
      }
      if valid {
        liveEnd := Some(mb[i].pos);
        assert LiveAccepts(mb, i, lol);
        FirstLiveUnique(mb, lol, i);
        break;
      }
    }
  }

  /** The backward scan with `break`. */
  method ScanDeadEnd(mb: seq<Point>, last: real, lol: real) returns (deadEnd: Option<real>)
    ensures deadEnd == DeadEnd(mb, last, lol)
  {
    deadEnd := None;
    for i := |mb| downto 0
      invariant deadEnd.None?
      invariant forall j :: i <= j < |mb| ==> !DeadAccepts(mb, j, lol)
    {
      var valid := true;
      if i - 1 >= 0 && mb[i].pos >= mb[i - 1].pos + lol {
        valid := false;
      }
      if valid {
        deadEnd := Some(last - mb[i].pos);
        assert DeadAccepts(mb, i, lol);
        LastDeadUnique(mb, lol, i);
        break;
      }
    }
  }

  /** A one-point bin list gives Live End = p and Dead End = last - p. */
  lemma SinglePointEnds(p: Point, last: real, lol: real)
    ensures LiveEnd([p], lol) == Some(p.pos)
    ensures DeadEnd([p], last, lol) == Some(last - p.pos)
  {
  }

  // ---------------------------------------------------------------------
  // The whole detection
  // ---------------------------------------------------------------------

  /** What one detection yields: the dominant bin, its edges, its points
      and the two ends. */
  datatype Detection = Detection(bin: nat, low: real, high: real, members: seq<Point>,
                                 liveEnd: Option<real>, deadEnd: Option<real>)

  /** The dominant bin (`np.argmax` over the histogram): the first bin
      with the greatest count. */
  function DominantBin(pts: seq<Point>, eps: real, n: nat): (mb: nat)
    requires n >= 1
    ensures mb < n
    ensures forall k :: 0 <= k < n ==> HistCount(pts, k, eps, n) <= HistCount(pts, mb, eps, n)
    ensures forall k :: 0 <= k < mb ==> HistCount(pts, k, eps, n) < HistCount(pts, mb, eps, n)
  {
    var counts := Histogram(pts, eps, n);
    assert forall k :: 0 <= k < n ==> counts[k] == HistCount(pts, k, eps, n) as real;
    ArgMax(counts)
  }

  /** The detection for the points of one row, whose greatest strain must
      be positive (otherwise there are no bins). */
  function Detect(pts: seq<Point>, eps: real, lol: real): (d: Detection)
    requires eps > 0.0 && pts != [] && MaxStrain(pts) > 0.0
    ensures d.liveEnd.Some? <==> d.members != []
    ensures d.deadEnd.Some? <==> d.members != []
  {
    var mb := DominantBin(pts, eps, BinCount(MaxStrain(pts), eps));
    var members := Members(pts, mb, eps);
    Detection(mb, Edge(mb, eps), Edge(mb + 1, eps), members,
              LiveEnd(members, lol), DeadEnd(members, pts[|pts| - 1].pos, lol))
  }

  /** The detection reports the first bin with the greatest count, and
      its edges. */
  lemma DetectBin(pts: seq<Point>, eps: real, lol: real)
    requires eps > 0.0 && pts != [] && MaxStrain(pts) > 0.0
    ensures var d, n := Detect(pts, eps, lol), BinCount(MaxStrain(pts), eps);
      && d.bin < n
      && (forall k :: 0 <= k < n ==> HistCount(pts, k, eps, n) <= HistCount(pts, d.bin, eps, n))
      && (forall k :: 0 <= k < d.bin ==> HistCount(pts, k, eps, n) < HistCount(pts, d.bin, eps, n))
      && d.low == Edge(d.bin, eps) && d.high == Edge(d.bin + 1, eps)
  {
  }

  /** The reported points are exactly the row's points inside the dominant
      bin's half-open interval, and the two ends are defined exactly when
      there is at least one. */
  lemma DetectMembers(pts: seq<Point>, eps: real, lol: real, p: Point)
    requires eps > 0.0 && pts != [] && MaxStrain(pts) > 0.0
    ensures var d := Detect(pts, eps, lol);
      && (p in d.members <==> p in pts && d.low <= p.strain < d.high)
      && (d.liveEnd.Some? <==> d.members != [])
      && (d.deadEnd.Some? <==> d.members != [])
  {
    var d := Detect(pts, eps, lol);
    MembersExactly(pts, d.bin, eps, p);
  }

  /** Unless the greatest strain is an exact multiple of eps, the dominant
      bin holds a point, so both ends are defined. */
  lemma DominantBinOccupied(pts: seq<Point>, eps: real, lol: real)
    requires eps > 0.0 && pts != [] && MaxStrain(pts) > 0.0
    requires Edge(BinCount(MaxStrain(pts), eps), eps) != MaxStrain(pts)
    ensures Detect(pts, eps, lol).members != []
    ensures Detect(pts, eps, lol).liveEnd.Some? && Detect(pts, eps, lol).deadEnd.Some?
  {
    var top := MaxStrain(pts);
    var n := BinCount(top, eps);
    var d := Detect(pts, eps, lol);
    assert top < Edge(n, eps);
    var i :| 0 <= i < |pts| && pts[i].strain == top;
    var kTop := BinIndex(top, eps);
    BinIndexIsEdgeInterval(top, eps, kTop);
    ScaleByWidth((kTop + 1) as real, 0.0, eps);
    ScaleByWidth(n as real, kTop as real, eps);
    assert 0 <= kTop < n;
    assert InHistogramBin(top, kTop, eps, n);
    HistCountPositive(pts, kTop, eps, n, i);
    TopEdgeCountZero(pts, eps, n);
    HistCountVersusMembers(pts, d.bin, eps, n);
    assert |d.members| >= 1;
  }

  /** Exact arithmetic makes the empty dominant bin reachable: a single
      reading of 0.02 with eps = 0.01 is counted by the histogram in the
      last bin [0.01, 0.02], but the bin lists drop it, so neither end is
      defined. */
  lemma EmptyDominantBin()
    ensures var d := Detect([Point(0.02, 0.0)], 0.01, 17.0);
      d.members == [] && d.liveEnd.None? && d.deadEnd.None?
  {
    var pts := [Point(0.02, 0.0)];
    assert MaxStrain(pts) == 0.02;
    assert BinCount(0.02, 0.01) == 2;
    var d := Detect(pts, 0.01, 17.0);
    assert BinIndex(0.02, 0.01) == 2;
    assert HistCount(pts, 1, 0.01, 2) == 1;
    assert d.bin == 1;
  }

  /** Three readings 0.01, 0.02, 0.03 at positions 0, 10, 25 with eps = 0.01
      and l_ol = 12: bins [0, 0.01), [0.01, 0.02), [0.02, 0.03] count 0, 1, 2;
      the dominant bin's list holds only the reading at 10 (0.03 lies on the
      top edge and is dropped), so Live End = 10 and Dead End = 25 - 10. */
  lemma ThreePointScenario()
    ensures var d := Detect([Point(0.01, 0.0), Point(0.02, 10.0), Point(0.03, 25.0)], 0.01, 12.0);
      d.bin == 2 && d.members == [Point(0.02, 10.0)]
      && d.liveEnd == Some(10.0) && d.deadEnd == Some(15.0)
  {
    var p0, p1, p2 := Point(0.01, 0.0), Point(0.02, 10.0), Point(0.03, 25.0);
    var pts := [p0, p1, p2];
    assert pts[..2] == [p0, p1] && [p0, p1][..1] == [p0] && [p0][..0] == [];
    assert MaxStrain(pts) == 0.03;
    assert BinCount(0.03, 0.01) == 3;
    assert Edge(0, 0.01) == 0.0 && Edge(1, 0.01) == 0.01 && Edge(2, 0.01) == 0.02 && Edge(3, 0.01) == 0.03;
    assert HistCount([p0], 0, 0.01, 3) == 0 && HistCount([p0, p1], 0, 0.01, 3) == 0;
    assert HistCount(pts, 0, 0.01, 3) == 0;
    assert HistCount([p0], 1, 0.01, 3) == 1 && HistCount([p0, p1], 1, 0.01, 3) == 1;
    assert HistCount(pts, 1, 0.01, 3) == 1;
    assert HistCount([p0], 2, 0.01, 3) == 0 && HistCount([p0, p1], 2, 0.01, 3) == 1;
    assert HistCount(pts, 2, 0.01, 3) == 2;
    var d := Detect(pts, 0.01, 12.0);
    assert d.bin == 2;
    assert BinIndex(0.01, 0.01) == 1 && BinIndex(0.02, 0.01) == 2 && BinIndex(0.03, 0.01) == 3;
    assert Members([p0], 2, 0.01) == [] && Members([p0, p1], 2, 0.01) == [p1];
    assert d.members == [p1];
  }
}
