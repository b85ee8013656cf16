/** Feature helpers shared by the krypton selection: per-peak scalar features,
    S1 matching across PMTs, SiPM charges and positions, drift time and the
    charge-weighted event coordinates. */
module PmpFunctions {
  import opened Outcomes
  import opened Reductions
  import opened Pmaps

  /** Scalar summary of one S1 or S2 peak. */
  datatype S12Features = S12Features(tmin: real, tmax: real, tpeak: real,
                                     etot: real, epeak: real, width: real)

  /** s12_features: first and last sample time, their difference, the largest
      energy, the total energy, and the time of the first sample reaching the
      largest energy. */
  function Features(p: Peak): (f: S12Features)
    requires WellFormed(p)
    ensures f.tmin == p.t[0] && f.tmax == p.t[|p.t| - 1]
    ensures f.width == f.tmax - f.tmin
    ensures f.epeak in p.e
    ensures forall i :: 0 <= i < |p.e| ==> p.e[i] <= f.epeak
    ensures f.etot == Sum(p.e)
    ensures exists i :: 0 <= i < |p.e| && p.e[i] == f.epeak && f.tpeak == p.t[i]
                        && forall j :: 0 <= j < i ==> p.e[j] < f.epeak
  {
    var epeak := Max(p.e);
    var i := FirstIndexOf(p.e, epeak);
    S12Features(p.t[0], p.t[|p.t| - 1], p.t[i], Sum(p.e), epeak, p.t[|p.t| - 1] - p.t[0])
  }

  /** The peak time of s12_features is the time at np.argmax of the energies. */
  lemma FeaturesPeakTimeIsArgMax(p: Peak)
    requires WellFormed(p)
    ensures Features(p).tpeak == p.t[ArgMax(p.e)]
  {
  }

  /** Some peak of a PMT's map starts strictly within `tol` of `t0`. */
  predicate Matches(pm: PeakMap, t0: real, tol: real)
    requires AllWellFormed(pm)
  {
    exists k :: k in pm && Abs(pm[k].t[0] - t0) < tol
  }

  /** The PMTs among `within` whose peak map matches. */
  ghost function MatchedPmts(pmtS1: map<int, PeakMap>, within: set<int>, t0: real, tol: real): set<int>
    requires forall pmt :: pmt in pmtS1 ==> AllWellFormed(pmtS1[pmt])
  {
    set pmt | pmt in within && pmt in pmtS1 && Matches(pmtS1[pmt], t0, tol)
  }

  /** The inner loop of compare_S1: scans the peaks of one PMT and stops at the
      first one starting within `tol` of `t0`. */
  method PmtMatches(pm: PeakMap, t0: real, tol: real) returns (found: bool)
    requires AllWellFormed(pm)
    ensures found == Matches(pm, t0, tol)
  {
    found := false;
    var peaks := pm.Keys;
    while peaks != {}
      invariant peaks <= pm.Keys
      invariant forall k :: k in pm && k !in peaks ==> !(Abs(pm[k].t[0] - t0) < tol)
      decreases |peaks|
    {
      ghost var w := ElementOf(peaks);
      var k :| k in peaks;
      if Abs(pm[k].t[0] - t0) < tol {
        found := true;
        return;
      }
      peaks := peaks - {k};
    }
  }

  /** compare_S1: the number of PMTs having a peak whose first time lies within
      `tol` of the first time of the summed S1 peak. The break after a match
      makes every PMT count at most once, and PMTs without peaks never count. */
  method CompareS1(s1: PeakMap, pmtS1: map<int, PeakMap>, peak: int, tol: real) returns (n: nat)
    requires peak in s1 && WellFormed(s1[peak])
    requires forall pmt :: pmt in pmtS1 ==> AllWellFormed(pmtS1[pmt])
    ensures n == |set pmt | pmt in pmtS1 && Matches(pmtS1[pmt], s1[peak].t[0], tol)|
    ensures n <= |set pmt | pmt in pmtS1 && |pmtS1[pmt]| > 0|
  {
    var t0 := s1[peak].t[0];
    n := 0;
    var rem := pmtS1.Keys;
    ghost var done: set<int> := {};
    while rem != {}
      invariant rem <= pmtS1.Keys && done == pmtS1.Keys - rem
      invariant n == |MatchedPmts(pmtS1, done, t0, tol)|
      decreases |rem|
    {
      ghost var w := ElementOf(rem);
      var pmt :| pmt in rem;
      var found := false;
      if |pmtS1[pmt]| > 0 {
        found := PmtMatches(pmtS1[pmt], t0, tol);
      }
      MatchedStep(pmtS1, done, pmt, t0, tol);
      if found {
        n := n + 1;
      }
      MoveOne(pmtS1.Keys, rem, pmt);
      done := done + {pmt};
      rem := rem - {pmt};
    }
    assert done == pmtS1.Keys;
    MatchedAll(pmtS1, t0, tol);
  }

  /** Scanning one more PMT adds one to the count exactly when it matches; a
      PMT without peaks never does. */
  lemma MatchedStep(pmtS1: map<int, PeakMap>, done: set<int>, pmt: int, t0: real, tol: real)
    requires forall p :: p in pmtS1 ==> AllWellFormed(pmtS1[p])
    requires pmt in pmtS1 && pmt !in done
    ensures |pmtS1[pmt]| == 0 ==> !Matches(pmtS1[pmt], t0, tol)
    ensures |MatchedPmts(pmtS1, done + {pmt}, t0, tol)|
            == |MatchedPmts(pmtS1, done, t0, tol)| + (if Matches(pmtS1[pmt], t0, tol) then 1 else 0)
  {
    if Matches(pmtS1[pmt], t0, tol) {
      assert MatchedPmts(pmtS1, done + {pmt}, t0, tol) == MatchedPmts(pmtS1, done, t0, tol) + {pmt};
    } else {
      assert MatchedPmts(pmtS1, done + {pmt}, t0, tol) == MatchedPmts(pmtS1, done, t0, tol);
    }
  }

  /** Once every PMT is scanned, the matched PMTs are all PMTs that match, and
      they are among the PMTs that have peaks. */
  lemma MatchedAll(pmtS1: map<int, PeakMap>, t0: real, tol: real)
    requires forall p :: p in pmtS1 ==> AllWellFormed(pmtS1[p])
    ensures |MatchedPmts(pmtS1, pmtS1.Keys, t0, tol)|
            == |set pmt | pmt in pmtS1 && Matches(pmtS1[pmt], t0, tol)|
    ensures |MatchedPmts(pmtS1, pmtS1.Keys, t0, tol)|
            <= |set pmt | pmt in pmtS1 && |pmtS1[pmt]| > 0|
  {
    var matched := set pmt | pmt in pmtS1 && Matches(pmtS1[pmt], t0, tol);
    assert MatchedPmts(pmtS1, pmtS1.Keys, t0, tol) == matched;
    SubsetCardinality(matched, set pmt | pmt in pmtS1 && |pmtS1[pmt]| > 0);
  }

  /** Moving one scanned PMT out of the remaining ones. */
  lemma MoveOne(all: set<int>, rem: set<int>, x: int)
    requires x in rem && rem <= all
    ensures all - (rem - {x}) == (all - rem) + {x}
    ensures x !in all - rem
  {
  }

  lemma SubsetCardinality(a: set<int>, b: set<int>)
    requires a <= b
    ensures |a| <= |b|
  {
    assert b == a + (b - a);
    assert a !! (b - a);
  }

  /** The three arrays of charge_and_position_from_S2Si, one entry per SiPM. */
  datatype SipmReadout = SipmReadout(x: seq<real>, y: seq<real>, q: seq<real>)

  /** charge_and_position_from_S2Si: for every SiPM of the peak, in ascending
      SiPM order, its position looked up by id and its summed charge. */
  function ChargeAndPosition(s2si: SiMap, g: Geometry, peak: int): (r: SipmReadout)
    requires peak in s2si && Covers(g, s2si[peak])
    ensures |r.x| == |s2si[peak]| && |r.y| == |s2si[peak]| && |r.q| == |s2si[peak]|
    ensures forall i :: 0 <= i < |r.q| ==>
              var id := SortedKeys(s2si[peak].Keys)[i];
              r.x[i] == g.xs[id] && r.y[i] == g.ys[id] && r.q[i] == Sum(s2si[peak][id])
  {
    var sipms := s2si[peak];
    var ids := SortedKeys(sipms.Keys);
    SipmReadout(Lookup(g.xs, ids), Lookup(g.ys, ids), Charges(sipms, ids))
  }

  /** Every SiPM of the peak appears exactly once in the readout. */
  lemma ReadoutListsEachSipmOnce(s2si: SiMap, g: Geometry, peak: int)
    requires peak in s2si && Covers(g, s2si[peak])
    ensures forall id :: id in s2si[peak] ==>
              exists i :: 0 <= i < |ChargeAndPosition(s2si, g, peak).q| && SortedKeys(s2si[peak].Keys)[i] == id
                          && ChargeAndPosition(s2si, g, peak).q[i] == Sum(s2si[peak][id])
    ensures forall i, j :: 0 <= i < j < |SortedKeys(s2si[peak].Keys)| ==>
              SortedKeys(s2si[peak].Keys)[i] != SortedKeys(s2si[peak].Keys)[j]
  {
    forall id | id in s2si[peak]
      ensures exists i :: 0 <= i < |ChargeAndPosition(s2si, g, peak).q| && SortedKeys(s2si[peak].Keys)[i] == id
                          && ChargeAndPosition(s2si, g, peak).q[i] == Sum(s2si[peak][id])
    {
      var i := ReadoutPosition(s2si, g, peak, id);
    }
  }

  /** Where one SiPM sits in the readout. */
  lemma ReadoutPosition(s2si: SiMap, g: Geometry, peak: int, id: int) returns (i: nat)
    requires peak in s2si && Covers(g, s2si[peak]) && id in s2si[peak]
    ensures i < |ChargeAndPosition(s2si, g, peak).q| && SortedKeys(s2si[peak].Keys)[i] == id
    ensures ChargeAndPosition(s2si, g, peak).q[i] == Sum(s2si[peak][id])
  {
    i := SortedKeysComplete(s2si[peak].Keys, id);
  }

  /** drift_time: the S2 peak time measured from the S1 peak time. */
  function DriftTime(s1fPeak: S12Features, s2f: map<int, S12Features>, peak: int): (dt: real)
    requires peak in s2f
    ensures s1fPeak.tpeak + dt == s2f[peak].tpeak
  {
    s2f[peak].tpeak - s1fPeak.tpeak
  }

  /** Charge-weighted event coordinates; r and phi go through the uninterpreted
      square root and arctan2. */
  datatype KrCoordinates = KrCoordinates(q: real, x: real, y: real, z: real, r: real, phi: real)

  /** Placeholder written for x, y, r and phi when no SiPM saw charge. */
  const NoPosition: real := -9999.0

  /** Some charge is non-zero. */
  predicate AnyNonZero(q: seq<real>)
  {
    exists i :: 0 <= i < |q| && q[i] != 0.0
  }

  /** np.average raises when its weights sum to zero. */
  datatype CoordError = ZeroWeightSum

  /** kr_coordinates: the summed charge, the charge-weighted position with its
      radius and angle, and the depth from the drift time. */
  function KrCoords(xs: seq<real>, ys: seq<real>, q: seq<real>, dt: real, v: real, m: Math)
    : (r: Result<KrCoordinates, CoordError>)
    requires |xs| == |q| && |ys| == |q|
    ensures r.Err? <==> AnyNonZero(q) && Sum(q) == 0.0
    ensures r.Ok? ==> r.value.z == dt * v && r.value.q == Sum(q)
    ensures r.Ok? && !AnyNonZero(q) ==>
              r.value.x == NoPosition && r.value.y == NoPosition
              && r.value.r == NoPosition && r.value.phi == NoPosition
    ensures r.Ok? && AnyNonZero(q) ==>
              r.value.x == WeightedAverage(xs, q) && r.value.y == WeightedAverage(ys, q)
              && r.value.r == Radius(m, r.value.x, r.value.y)
              && r.value.phi == m.atan2(r.value.y, r.value.x)
  {
    if !AnyNonZero(q) then
      Ok(KrCoordinates(Sum(q), NoPosition, NoPosition, dt * v, NoPosition, NoPosition))
    else if Sum(q) == 0.0 then
      Err(ZeroWeightSum)
    else
      var x := WeightedAverage(xs, q);
      var y := WeightedAverage(ys, q);
      Ok(KrCoordinates(Sum(q), x, y, dt * v, Radius(m, x, y), m.atan2(y, x)))
  }

  /** The distance of (x, y) from the detector axis, through the square root
      parameter. */
  function Radius(m: Math, x: real, y: real): real
  {
    m.sqrt(x * x + y * y)
  }

  /** The weighted mean of `a`: each value times its weight, summed, over the
      sum of the weights. */
  function WeightedAverage(a: seq<real>, w: seq<real>): real
    requires |a| == |w| && Sum(w) != 0.0
  {
    Dot(a, w) / Sum(w)
  }

  /** With non-negative weights of which one is non-zero, the weighted average
      lies between the smallest and the largest value. */
  lemma WeightedAverageBounds(a: seq<real>, w: seq<real>)
    requires |a| == |w|
    requires forall i :: 0 <= i < |w| ==> w[i] >= 0.0
    requires AnyNonZero(w)
    ensures Sum(w) > 0.0
    ensures Min(a) <= WeightedAverage(a, w) <= Max(a)
  {
    var i :| 0 <= i < |w| && w[i] != 0.0;
    assert |a| > 0;
    SumNonNegative(w);
    AverageWithin(a, w, Min(a), Max(a));
  }

  /** kr_coordinates with non-negative charges of which one is non-zero puts the
      event inside the span of the SiPM coordinates. */
  lemma KrCoordsWithinSensorSpan(xs: seq<real>, ys: seq<real>, q: seq<real>, dt: real, v: real, m: Math)
    requires |xs| == |q| && |ys| == |q|
    requires forall i :: 0 <= i < |q| ==> q[i] >= 0.0
    requires AnyNonZero(q)
    ensures KrCoords(xs, ys, q, dt, v, m).Ok?
    ensures Min(xs) <= KrCoords(xs, ys, q, dt, v, m).value.x <= Max(xs)
    ensures Min(ys) <= KrCoords(xs, ys, q, dt, v, m).value.y <= Max(ys)
  {
    WeightedAverageBounds(xs, q);
    WeightedAverageBounds(ys, q);
  }

  lemma AverageWithin(a: seq<real>, w: seq<real>, lo: real, hi: real)
    requires |a| == |w| && Sum(w) > 0.0
    requires forall i :: 0 <= i < |w| ==> w[i] >= 0.0
    requires forall i :: 0 <= i < |a| ==> lo <= a[i] <= hi
    ensures lo <= WeightedAverage(a, w) <= hi
  {
    DotBounds(a, w, lo, hi);
    AverageBetween(Dot(a, w), Sum(w), lo, hi);
  }

  lemma AverageBetween(d: real, s: real, lo: real, hi: real)
    requires s > 0.0
    requires lo * s <= d <= hi * s
    ensures lo <= d / s <= hi
  {
    assert (d / s - lo) * s == d - lo * s;
    assert (hi - d / s) * s == hi * s - d;
  }
}
