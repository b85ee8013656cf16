/** The window-cut selector (S12Selector / KrSelector): half-open cuts on the
    number, height and energy of the samples of each peak, a SiPM-count cut,
    the event multiplicity cuts, per-peak features and the table rows. */
module Dorothea {
  import opened Outcomes
  import opened Reductions
  import opened Pmaps
  import PmpFunctions

  /** Energy, length (sample count) and height windows of one signal type. */
  datatype PeakCuts = PeakCuts(energy: Window, length: Window, height: Window)

  /** All cuts of an S12Selector. */
  datatype SelectorCuts = SelectorCuts(driftV: real,
                                       s1N: Window, s1: PeakCuts,
                                       s2N: Window, s2: PeakCuts,
                                       nsipm: Window)

  /** Exceptions the selector raises on reachable inputs. */
  datatype SelectError =
    | EmptyHeightSelection  // np.max of an empty in-range selection
    | NoSipms               // unpacking integrate_charge of an empty SiPM map
    | ZeroChargeSum         // np.average with weights summing to zero

  // ---------------------------------------------------------------------------
  // select_peaks

  /** The indices the mask in_range(E, Hmin, Hmax) selects, ascending. */
  function MaskIndices(e: seq<real>, h: Window): (idx: seq<nat>)
    ensures forall k :: 0 <= k < |idx| ==> idx[k] < |e| && h.Contains(e[idx[k]])
    ensures forall i :: 0 <= i < |e| && h.Contains(e[i]) ==> i in idx
    ensures forall k, l :: 0 <= k < l < |idx| ==> idx[k] < idx[l]
  {
    if |e| == 0 then []
    else
      var front := MaskIndices(e[..|e| - 1], h);
      if h.Contains(e[|e| - 1]) then front + [|e| - 1] else front
  }

  /** Boolean-mask indexing applied to both arrays of a peak. */
  function Gather(p: Peak, idx: seq<nat>): (r: Peak)
    requires Aligned(p)
    requires forall k :: 0 <= k < |idx| ==> idx[k] < |p.e|
    ensures |r.t| == |idx| && |r.e| == |idx|
    ensures forall k :: 0 <= k < |idx| ==> r.t[k] == p.t[idx[k]] && r.e[k] == p.e[idx[k]]
  {
    Peak(seq(|idx|, k requires 0 <= k < |idx| => p.t[idx[k]]),
         seq(|idx|, k requires 0 <= k < |idx| => p.e[idx[k]]))
  }

  /** The pair (t[sel], E[sel]): the samples whose energy lies in the height
      window, still paired, in their original order. */
  function InWindow(p: Peak, h: Window): (r: Peak)
    requires Aligned(p)
    ensures Aligned(r)
    ensures |r.e| == |MaskIndices(p.e, h)|
    ensures forall k :: 0 <= k < |r.e| ==>
              var i := MaskIndices(p.e, h)[k];
              r.t[k] == p.t[i] && r.e[k] == p.e[i]
    ensures forall i :: 0 <= i < |r.e| ==> h.Contains(r.e[i])
  {
    Gather(p, MaskIndices(p.e, h))
  }

  /** The peak makes select_peaks raise: its in-range selection is empty while
      the length window admits zero samples, so np.max is evaluated on it. */
  predicate Raises(p: Peak, c: PeakCuts)
    requires Aligned(p)
  {
    c.length.Contains(0.0) && |MaskIndices(p.e, c.height)| == 0
  }

  /** The three chained comparisons of select_peaks, short-circuited as in `or`. */
  predicate Survives(p: Peak, c: PeakCuts)
    requires Aligned(p)
  {
    var s := InWindow(p, c.height);
    && c.length.Contains(|s.e| as real)
    && |s.e| > 0
    && c.height.Contains(Max(s.e))
    && c.energy.Contains(Sum(s.e))
  }

  /** The largest of values lying in a window lies in the window. */
  lemma MaxInWindow(s: seq<real>, h: Window)
    requires |s| > 0
    requires forall i :: 0 <= i < |s| ==> h.Contains(s[i])
    ensures h.Contains(Max(s))
  {
    var i :| 0 <= i < |s| && s[i] == Max(s);
  }

  /** select_peaks. The input map is never changed (the source works on a deep
      copy); a survivor is replaced by its in-range samples. */
  function SelectPeaks(peaks: PeakMap, c: PeakCuts): (r: Result<PeakMap, SelectError>)
    requires AllAligned(peaks)
    ensures r.Err? <==> exists k :: k in peaks && Raises(peaks[k], c)
    ensures r.Ok? ==> r.value.Keys <= peaks.Keys
    ensures r.Ok? ==> forall k :: k in peaks ==> (k in r.value <==> Survives(peaks[k], c))
    ensures r.Ok? ==> forall k :: k in r.value ==>
              && r.value[k] == InWindow(peaks[k], c.height)
              && WellFormed(r.value[k])
              && c.length.Contains(|r.value[k].e| as real)
              && c.energy.Contains(Sum(r.value[k].e))
              && (forall i :: 0 <= i < |r.value[k].e| ==> c.height.Contains(r.value[k].e[i]))
    ensures r.Ok? ==> forall k :: k in peaks && k !in r.value ==>
              || !c.length.Contains(|MaskIndices(peaks[k].e, c.height)| as real)
              || !c.energy.Contains(Sum(InWindow(peaks[k], c.height).e))
  {
    if exists k :: k in peaks && Raises(peaks[k], c) then
      Err(EmptyHeightSelection)
    else
      var kept := map k | k in peaks && Survives(peaks[k], c) :: InWindow(peaks[k], c.height);
      assert forall k :: k in peaks && k !in kept ==>
               || !c.length.Contains(|MaskIndices(peaks[k].e, c.height)| as real)
               || !c.energy.Contains(Sum(InWindow(peaks[k], c.height).e)) by {
        forall k | k in peaks && k !in kept
          ensures || !c.length.Contains(|MaskIndices(peaks[k].e, c.height)| as real)
                  || !c.energy.Contains(Sum(InWindow(peaks[k], c.height).e))
        {
          var s := InWindow(peaks[k], c.height);
          if |s.e| > 0 {
            MaxInWindow(s.e, c.height);
          }
        }
      }
      Ok(kept)
  }

  /** When every energy lies in the window, the mask selects every index. */
  lemma {:induction false} MaskSelectsAll(e: seq<real>, h: Window)
    requires forall i :: 0 <= i < |e| ==> h.Contains(e[i])
    ensures MaskIndices(e, h) == seq(|e|, i => i)
  {
    if |e| > 0 {
      MaskSelectsAll(e[..|e| - 1], h);
      assert seq(|e| - 1, i => i) + [|e| - 1] == seq(|e|, i => i);
    }
  }

  /** Selecting the in-range samples of a peak already in range changes nothing. */
  lemma InWindowFixed(p: Peak, h: Window)
    requires Aligned(p)
    requires forall i :: 0 <= i < |p.e| ==> h.Contains(p.e[i])
    ensures InWindow(p, h) == p
  {
    MaskSelectsAll(p.e, h);
  }

  /** A survivor's in-range samples survive the same cuts again, unchanged. */
  lemma SurvivorStable(p: Peak, c: PeakCuts)
    requires Aligned(p) && Survives(p, c)
    ensures InWindow(InWindow(p, c.height), c.height) == InWindow(p, c.height)
    ensures Survives(InWindow(p, c.height), c)
    ensures !Raises(InWindow(p, c.height), c)
  {
    InWindowFixed(InWindow(p, c.height), c.height);
  }

  /** select_peaks is idempotent: survivors pass the same cuts again, unchanged. */
  lemma SelectPeaksIdempotent(peaks: PeakMap, c: PeakCuts)
    requires AllAligned(peaks)
    requires SelectPeaks(peaks, c).Ok?
    ensures SelectPeaks(SelectPeaks(peaks, c).value, c) == SelectPeaks(peaks, c)
  {
    var kept := SelectPeaks(peaks, c).value;
    forall k | k in kept
      ensures InWindow(kept[k], c.height) == kept[k]
      ensures Survives(kept[k], c) && !Raises(kept[k], c)
    {
      SurvivorStable(peaks[k], c);
    }
    SelectPeaksFixed(kept, c);
  }

  /** A map of peaks that all survive and are already in range is a fixed point. */
  lemma SelectPeaksFixed(kept: PeakMap, c: PeakCuts)
    requires AllAligned(kept)
    requires forall k :: k in kept ==> Survives(kept[k], c) && !Raises(kept[k], c)
    requires forall k :: k in kept ==> InWindow(kept[k], c.height) == kept[k]
    ensures SelectPeaks(kept, c) == Ok(kept)
  {
    var r := SelectPeaks(kept, c);
    assert r.Ok?;
    SameMaps(r.value, kept);
  }

  lemma SameMaps(a: PeakMap, b: PeakMap)
    requires forall k :: k in b ==> k in a && a[k] == b[k]
    requires a.Keys <= b.Keys
    ensures a == b
  {
    forall k | k in b.Keys
      ensures k in a.Keys
    {
    }
    assert a.Keys == b.Keys;
    assert forall k :: k in a ==> a[k] == b[k];
  }

  // ---------------------------------------------------------------------------
  // select_Si and select_S2

  /** select_Si: the peaks whose number of SiPMs n satisfies Nmin <= n < Nmax,
      with their SiPM maps untouched. */
  function SelectSi(sis: SiMap, n: Window): (r: SiMap)
    ensures r.Keys <= sis.Keys
    ensures forall k :: k in sis ==> (k in r <==> n.Contains(|sis[k]| as real))
    ensures forall k :: k in r ==> r[k] == sis[k]
  {
    map k | k in sis && n.Contains(|sis[k]| as real) :: sis[k]
  }

  /** select_S2: both maps keep exactly the peaks that pass the S2 cuts and the
      SiPM-count cut. */
  function SelectS2(s2s: PeakMap, sis: SiMap, c: SelectorCuts): (r: Result<(PeakMap, SiMap), SelectError>)
    requires AllAligned(s2s)
    ensures r.Ok? <==> SelectPeaks(s2s, c.s2).Ok?
    ensures r.Ok? ==> r.value.0.Keys == r.value.1.Keys
    ensures r.Ok? ==> r.value.0.Keys == SelectPeaks(s2s, c.s2).value.Keys * SelectSi(sis, c.nsipm).Keys
    ensures r.Ok? ==> forall k :: k in r.value.0 ==>
              r.value.0[k] == SelectPeaks(s2s, c.s2).value[k] && r.value.1[k] == sis[k]
  {
    var s2 :- SelectPeaks(s2s, c.s2);
    var si := SelectSi(sis, c.nsipm);
    var valid := s2.Keys * si.Keys;
    Ok((Restrict(s2, valid), Restrict(si, valid)))
  }

  /** A peak survives select_S2 iff it is in both inputs, passes the S2 window
      cuts and has an admissible number of SiPMs. */
  lemma SelectS2Survivors(s2s: PeakMap, sis: SiMap, c: SelectorCuts, k: int)
    requires AllAligned(s2s)
    requires SelectS2(s2s, sis, c).Ok?
    ensures k in SelectS2(s2s, sis, c).value.0 <==>
              k in s2s && k in sis && Survives(s2s[k], c.s2) && c.nsipm.Contains(|sis[k]| as real)
  {
    var s2 := SelectPeaks(s2s, c.s2).value;
    if k in s2s && k in sis && Survives(s2s[k], c.s2) {
      assert k in s2;
    }
    if k in s2 {
      var s := InWindow(s2s[k], c.s2.height);
      MaxInWindow(s.e, c.s2.height);
    }
  }

  // ---------------------------------------------------------------------------
  // Features

  /** np.max(t) - np.min(t): the largest difference between two sample times. */
  function Span(t: seq<real>): (w: real)
    requires |t| > 0
    ensures w >= 0.0
    ensures forall i, j :: 0 <= i < |t| && 0 <= j < |t| ==> t[i] - t[j] <= w
    ensures exists i, j :: 0 <= i < |t| && 0 <= j < |t| && t[i] - t[j] == w
  {
    var hi := Max(t);
    var lo := Min(t);
    var i :| 0 <= i < |t| && t[i] == hi;
    var j :| 0 <= j < |t| && t[j] == lo;
    hi - lo
  }

  /** On time-ordered samples the selector's width agrees with the width of
      s12_features, t[-1] - t[0]. */
  lemma SpanOfOrderedTimes(p: Peak)
    requires WellFormed(p) && NonDecreasing(p.t)
    ensures Span(p.t) == PmpFunctions.Features(p).width
  {
    SortedExtremes(p.t);
  }

  /** t[np.argmax(e)]: the time of the first sample of largest energy. */
  function PeakTime(p: Peak): real
    requires WellFormed(p)
  {
    p.t[ArgMax(p.e)]
  }

  /** The four S1 lists at one index. */
  datatype S1Entry = S1Entry(w: real, h: real, e: real, t: real)

  function S1EntryOf(p: Peak): (r: S1Entry)
    requires WellFormed(p)
  {
    S1Entry(Span(p.t), Max(p.e), Sum(p.e), PeakTime(p))
  }

  /** The S2 and position lists at one index. */
  datatype S2Entry = S2Entry(w: real, h: real, e: real, t: real,
                             nsipm: int, q: real, x: real, y: real,
                             xrms: real, yrms: real, r: real, phi: real,
                             dt: real, z: real)

  /** integrate_charge: the SiPM ids (ascending) and their summed charges. */
  function IntegrateCharge(sipms: SipmMap): (r: Result<(seq<int>, seq<real>), SelectError>)
    ensures r.Err? <==> |sipms| == 0
    ensures r.Ok? ==> |r.value.0| == |sipms| && |r.value.1| == |sipms|
    ensures r.Ok? ==> forall i :: 0 <= i < |r.value.0| ==>
              r.value.0[i] in sipms && r.value.1[i] == Sum(sipms[r.value.0[i]])
    ensures r.Ok? ==> forall i, j :: 0 <= i < j < |r.value.0| ==> r.value.0[i] < r.value.0[j]
  {
    if |sipms| == 0 then Err(NoSipms)
    else
      var ids := SortedKeys(sipms.Keys);
      Ok((ids, Charges(sipms, ids)))
  }

  /** integrate_charge lists every SiPM of the peak. */
  lemma IntegrateChargeListsEverySipm(sipms: SipmMap, id: int)
    requires id in sipms
    ensures IntegrateCharge(sipms).Ok? && id in IntegrateCharge(sipms).value.0
  {
    var i := SortedKeysComplete(sipms.Keys, id);
  }

  /** Both selectors integrate the SiPM charges alike: the charges and the
      looked-up positions of integrate_charge are those of
      charge_and_position_from_S2Si. */
  lemma IntegrateChargeAgreesWithReadout(si: SiMap, g: Geometry, peak: int)
    requires peak in si && |si[peak]| > 0 && Covers(g, si[peak])
    ensures IntegrateCharge(si[peak]).Ok?
    ensures IntegrateCharge(si[peak]).value.1 == PmpFunctions.ChargeAndPosition(si, g, peak).q
    ensures Lookup(g.xs, IntegrateCharge(si[peak]).value.0) == PmpFunctions.ChargeAndPosition(si, g, peak).x
  {
  }

  /** The charge-weighted sum of squared distances of the SiPM positions from
      `mean`. */
  function SquaredSpread(xs: seq<real>, qs: seq<real>, mean: real): real
    requires |xs| == |qs|
  {
    if |xs| == 0 then 0.0
    else qs[0] * (xs[0] - mean) * (xs[0] - mean) + SquaredSpread(xs[1..], qs[1..], mean)
  }

  /** With non-negative charges the weighted squared spread under the Xrms
      and Yrms square roots is non-negative. */
  lemma {:induction false} SquaredSpreadNonNegative(xs: seq<real>, qs: seq<real>, mean: real)
    requires |xs| == |qs|
    requires forall i :: 0 <= i < |qs| ==> qs[i] >= 0.0
    ensures SquaredSpread(xs, qs, mean) >= 0.0
  {
    if |xs| > 0 {
      SquaredSpreadNonNegative(xs[1..], qs[1..], mean);
      var d := xs[0] - mean;
      assert d * d >= 0.0;
      assert qs[0] * d * d == qs[0] * (d * d);
    }
  }

  /** The time differences of one S2 peak against the last S1 peak time, or -1
      when there is no S1 peak. */
  function DriftOffset(t2: real, lastS1: Option<real>): real
  {
    if lastS1.Some? then t2 - lastS1.value else -1.0
  }

  /** The SiPM-derived part of an S2 entry. */
  datatype SipmSummary = SipmSummary(nsipm: int, q: real, x: real, y: real,
                                     xrms: real, yrms: real, r: real, phi: real)

  /** Charge, charge-weighted position, its spread, r and phi of one S2 peak's
      SiPMs, as the source computes them after integrate_charge. */
  function SummarizeSipms(sipms: SipmMap, g: Geometry, m: Math): (r: Result<SipmSummary, SelectError>)
    requires Covers(g, sipms)
    ensures r.Err? <==> |sipms| == 0 || Sum(IntegrateCharge(sipms).value.1) == 0.0
    ensures r.Ok? ==> r.value.nsipm == |sipms|
    ensures r.Ok? ==>
              var ic := IntegrateCharge(sipms).value;
              && r.value.q == Sum(ic.1)
              && r.value.x == PmpFunctions.WeightedAverage(Lookup(g.xs, ic.0), ic.1)
              && r.value.y == PmpFunctions.WeightedAverage(Lookup(g.ys, ic.0), ic.1)
    ensures r.Ok? ==>
              var ic := IntegrateCharge(sipms).value;
              && r.value.xrms == m.sqrt(FloatDiv(m, SquaredSpread(Lookup(g.xs, ic.0), ic.1, r.value.x), r.value.q - 1.0))
              && r.value.yrms == m.sqrt(FloatDiv(m, SquaredSpread(Lookup(g.ys, ic.0), ic.1, r.value.y), r.value.q - 1.0))
    ensures r.Ok? ==>
              && r.value.r == PmpFunctions.Radius(m, r.value.x, r.value.y)
              && r.value.phi == m.atan2(r.value.y, r.value.x)
  {
    var ic :- IntegrateCharge(sipms);
    assert forall i :: 0 <= i < |ic.0| ==> ic.0[i] in sipms;
    var xsipms := Lookup(g.xs, ic.0);
    var ysipms := Lookup(g.ys, ic.0);
    var q := Sum(ic.1);
    if q == 0.0 then Err(ZeroChargeSum)
    else
      var x := PmpFunctions.WeightedAverage(xsipms, ic.1);
      var y := PmpFunctions.WeightedAverage(ysipms, ic.1);
      Ok(SipmSummary(|ic.0|, q, x, y,
                     m.sqrt(FloatDiv(m, SquaredSpread(xsipms, ic.1, x), q - 1.0)),
                     m.sqrt(FloatDiv(m, SquaredSpread(ysipms, ic.1, y), q - 1.0)),
                     PmpFunctions.Radius(m, x, y), m.atan2(y, x)))
  }

  /** With non-negative SiPM charges the sums under the Xrms and Yrms square
      roots are non-negative, whatever the weighted mean position. */
  lemma SipmSpreadsNonNegative(sipms: SipmMap, g: Geometry, m: Math)
    requires Covers(g, sipms)
    requires forall id :: id in sipms ==> Sum(sipms[id]) >= 0.0
    requires SummarizeSipms(sipms, g, m).Ok?
    ensures var ic := IntegrateCharge(sipms).value;
            var s := SummarizeSipms(sipms, g, m).value;
            && SquaredSpread(Lookup(g.xs, ic.0), ic.1, s.x) >= 0.0
            && SquaredSpread(Lookup(g.ys, ic.0), ic.1, s.y) >= 0.0
  {
    var ic := IntegrateCharge(sipms).value;
    var s := SummarizeSipms(sipms, g, m).value;
    var qs := ic.1;
    assert forall i :: 0 <= i < |qs| ==> qs[i] >= 0.0 by {
      forall i | 0 <= i < |qs| ensures qs[i] >= 0.0 {
        assert ic.0[i] in sipms;
      }
    }
    SquaredSpreadNonNegative(Lookup(g.xs, ic.0), qs, s.x);
    SquaredSpreadNonNegative(Lookup(g.ys, ic.0), qs, s.y);
  }

  /** DT (microseconds) and Z (drift velocity times the time difference) of
      one S2 peak against the last S1 peak. */
  function DriftAndDepth(t2: real, lastS1: Option<real>, driftV: real, nsToMus: real)
    : (r: (real, real))
    ensures lastS1.None? ==> r == (-nsToMus, -driftV)
    ensures lastS1.Some? ==> r.0 == (t2 - lastS1.value) * nsToMus
    ensures lastS1.Some? ==> r.1 == (t2 - lastS1.value) * driftV
  {
    (DriftOffset(t2, lastS1) * nsToMus, DriftOffset(t2, lastS1) * driftV)
  }

  /** DT and Z come from the same time difference: Z is DT rescaled from
      microseconds by the drift velocity. */
  lemma DriftDistanceMatchesDriftTime(t2: real, lastS1: Option<real>, driftV: real, nsToMus: real)
    ensures var r := DriftAndDepth(t2, lastS1, driftV, nsToMus);
            r.1 * nsToMus == r.0 * driftV
    ensures lastS1.Some? && nsToMus != 0.0 ==>
              DriftAndDepth(t2, lastS1, driftV, nsToMus).0 / nsToMus == t2 - lastS1.value
  {
    var d := DriftOffset(t2, lastS1);
    assert (d * driftV) * nsToMus == (d * nsToMus) * driftV;
    if lastS1.Some? && nsToMus != 0.0 {
      assert (d * nsToMus) / nsToMus == d;
    }
  }

  /** The S2 entry of one peak, in the order the source appends its lists. */
  function S2EntryOf(p: Peak, sipms: SipmMap, lastS1: Option<real>,
                     c: SelectorCuts, g: Geometry, m: Math, nsToMus: real)
    : (r: Result<S2Entry, SelectError>)
    requires WellFormed(p) && Covers(g, sipms)
    ensures r.Err? <==> SummarizeSipms(sipms, g, m).Err?
    ensures r.Ok? ==>
              && r.value.w == Span(p.t) * nsToMus
              && r.value.t == PeakTime(p)
              && r.value.e == Sum(p.e) && r.value.h == Max(p.e)
              && SummarizeSipms(sipms, g, m).value ==
                 SipmSummary(r.value.nsipm, r.value.q, r.value.x, r.value.y,
                             r.value.xrms, r.value.yrms, r.value.r, r.value.phi)
              && (r.value.dt, r.value.z) == DriftAndDepth(PeakTime(p), lastS1, c.driftV, nsToMus)
  {
    var s :- SummarizeSipms(sipms, g, m);
    var dz := DriftAndDepth(PeakTime(p), lastS1, c.driftV, nsToMus);
    Ok(S2Entry(Span(p.t) * nsToMus, Max(p.e), Sum(p.e), PeakTime(p),
               s.nsipm, s.q, s.x, s.y, s.xrms, s.yrms, s.r, s.phi, dz.0, dz.1))
  }

  /** With non-negative SiPM charges the S2 position lies within the span of
      the positions of the SiPMs that saw the peak. */
  lemma S2PositionWithinSipms(sipms: SipmMap, g: Geometry, m: Math)
    requires Covers(g, sipms)
    requires forall id :: id in sipms ==> Sum(sipms[id]) >= 0.0
    requires SummarizeSipms(sipms, g, m).Ok?
    ensures var ids := IntegrateCharge(sipms).value.0;
            var s := SummarizeSipms(sipms, g, m).value;
            && Min(Lookup(g.xs, ids)) <= s.x <= Max(Lookup(g.xs, ids))
            && Min(Lookup(g.ys, ids)) <= s.y <= Max(Lookup(g.ys, ids))
  {
    var ic := IntegrateCharge(sipms).value;
    var qs := ic.1;
    assert forall i :: 0 <= i < |qs| ==> qs[i] >= 0.0 by {
      forall i | 0 <= i < |qs| ensures qs[i] >= 0.0 {
        assert ic.0[i] in sipms;
      }
    }
    SumNonNegativeNonZero(qs);
    PmpFunctions.WeightedAverageBounds(Lookup(g.xs, ic.0), qs);
    PmpFunctions.WeightedAverageBounds(Lookup(g.ys, ic.0), qs);
  }

  lemma SumNonNegativeNonZero(qs: seq<real>)
    requires forall i :: 0 <= i < |qs| ==> qs[i] >= 0.0
    requires Sum(qs) != 0.0
    ensures PmpFunctions.AnyNonZero(qs)
  {
    if !PmpFunctions.AnyNonZero(qs) {
      AllZeroSum(qs);
      assert false;
    }
  }

  lemma {:induction false} AllZeroSum(qs: seq<real>)
    requires forall i :: 0 <= i < |qs| ==> qs[i] == 0.0
    ensures Sum(qs) == 0.0
  {
    if |qs| > 0 {
      AllZeroSum(qs[1..]);
    }
  }

  // ---------------------------------------------------------------------------
  // select_event

  /** The S1 lists of an event: one entry per selected S1 peak, by ascending
      peak number. */
  function S1Entries(s1: PeakMap, keys: seq<int>): (r: seq<S1Entry>)
    requires forall i :: 0 <= i < |keys| ==> keys[i] in s1 && WellFormed(s1[keys[i]])
    ensures |r| == |keys|
    ensures forall i :: 0 <= i < |keys| ==> r[i] == S1EntryOf(s1[keys[i]])
  {
    seq(|keys|, i requires 0 <= i < |keys| => S1EntryOf(s1[keys[i]]))
  }

  /** The outcome of each S2 peak in the order of `keys`. */
  function S2Results(s2: PeakMap, si: SiMap, keys: seq<int>, lastS1: Option<real>,
                     c: SelectorCuts, g: Geometry, m: Math, nsToMus: real)
    : (r: seq<Result<S2Entry, SelectError>>)
    requires forall i :: 0 <= i < |keys| ==>
               && keys[i] in s2 && WellFormed(s2[keys[i]])
               && keys[i] in si && Covers(g, si[keys[i]])
    ensures |r| == |keys|
    ensures forall i :: 0 <= i < |keys| ==>
              r[i] == S2EntryOf(s2[keys[i]], si[keys[i]], lastS1, c, g, m, nsToMus)
  {
    seq(|keys|, i requires 0 <= i < |keys| =>
                  S2EntryOf(s2[keys[i]], si[keys[i]], lastS1, c, g, m, nsToMus))
  }

  /** The selector's view of one event (params.KrEvent): the event number, the
      time in seconds, and the S1 and S2 lists, one entry per peak. */
  datatype KrEvent = KrEvent(event: int, time: real,
                             nS1: int, s1: seq<S1Entry>,
                             nS2: int, s2: seq<S2Entry>)

  /** The event-level checks `S1_Nmin <= len(S1) < S1_Nmax` and the S2 analogue. */
  predicate Multiplicities(c: SelectorCuts, n1: int, n2: int)
  {
    AdmitsCount(c.s1N, n1) && AdmitsCount(c.s2N, n2)
  }

  /** A peak count lies in a multiplicity window. */
  predicate AdmitsCount(w: Window, n: int)
  {
    w.Contains(n as real)
  }

  /** The SiPM maps handed over per event fit the geometry. */
  predicate GeometryCovers(g: Geometry, sis: SiMap)
  {
    forall k :: k in sis ==> Covers(g, sis[k])
  }

  /** The S2 lists of an event: one entry per selected S2 peak, by ascending
      peak number, the first peak whose SiPM summary raises ending the loop. */
  function S2List(s2: PeakMap, si: SiMap, lastS1: Option<real>,
                  c: SelectorCuts, g: Geometry, m: Math, nsToMus: real)
    : (r: Result<seq<S2Entry>, SelectError>)
    requires AllWellFormed(s2)
    requires s2.Keys <= si.Keys && GeometryCovers(g, si)
    ensures r.Ok? <==> forall k :: k in s2 ==> SummarizeSipms(si[k], g, m).Ok?
    ensures r.Ok? ==> |r.value| == |s2|
    ensures r.Ok? ==> forall i :: 0 <= i < |r.value| ==>
              var k := SortedKeys(s2.Keys)[i];
              && S2EntryOf(s2[k], si[k], lastS1, c, g, m, nsToMus) == Ok(r.value[i])
              && r.value[i].w == Span(s2[k].t) * nsToMus
              && r.value[i].t == PeakTime(s2[k])
              && r.value[i].e == Sum(s2[k].e)
              && r.value[i].nsipm == |si[k]|
              && (r.value[i].dt, r.value[i].z) == DriftAndDepth(r.value[i].t, lastS1, c.driftV, nsToMus)
  {
    var k2 := SortedKeys(s2.Keys);
    var results := S2Results(s2, si, k2, lastS1, c, g, m, nsToMus);
    SortedKeysAll(s2.Keys);
    S2ResultsOk(s2, si, k2, lastS1, c, g, m, nsToMus);
    var s2e :- Collect(results);
    S2EntriesFacts(s2, si, k2, lastS1, c, g, m, nsToMus, s2e);
    Ok(s2e)
  }

  /** Every S2 peak yields an entry iff every SiPM summary succeeds. */
  lemma S2ResultsOk(s2: PeakMap, si: SiMap, keys: seq<int>, lastS1: Option<real>,
                    c: SelectorCuts, g: Geometry, m: Math, nsToMus: real)
    requires forall i :: 0 <= i < |keys| ==>
               && keys[i] in s2 && WellFormed(s2[keys[i]])
               && keys[i] in si && Covers(g, si[keys[i]])
    requires forall k :: k in s2 ==> k in keys
    ensures var results := S2Results(s2, si, keys, lastS1, c, g, m, nsToMus);
            (forall i :: 0 <= i < |results| ==> results[i].Ok?) <==>
            (forall k :: k in s2 ==> SummarizeSipms(si[k], g, m).Ok?)
  {
    var results := S2Results(s2, si, keys, lastS1, c, g, m, nsToMus);
    if forall i :: 0 <= i < |results| ==> results[i].Ok? {
      forall k | k in s2
        ensures SummarizeSipms(si[k], g, m).Ok?
      {
        var i :| 0 <= i < |keys| && keys[i] == k;
        assert results[i].Ok?;
      }
    } else {
      var i :| 0 <= i < |results| && !results[i].Ok?;
      var k := keys[i];
      assert k in s2 && SummarizeSipms(si[k], g, m).Err?;
      assert !(forall k :: k in s2 ==> SummarizeSipms(si[k], g, m).Ok?);
    }
  }

  /** The lists select_event fills for an event that passed the multiplicity
      checks: S1 entries by ascending peak number, then S2 entries by
      ascending peak number, each S2 drift time taken against the last S1. */
  function AssembleEvent(evtNumber: int, evtTime: real, s1: PeakMap, s2: PeakMap, si: SiMap,
                         c: SelectorCuts, g: Geometry, m: Math, nsToMus: real)
    : (r: Result<KrEvent, SelectError>)
    requires AllWellFormed(s1) && AllWellFormed(s2)
    requires s2.Keys <= si.Keys && GeometryCovers(g, si)
    ensures r.Ok? <==> forall k :: k in s2 ==> SummarizeSipms(si[k], g, m).Ok?
    ensures r.Ok? ==>
              var evt := r.value;
              && evt.event == evtNumber && evt.time * 1000.0 == evtTime
              && evt.nS1 == |evt.s1| == |s1| && evt.nS2 == |evt.s2| == |s2|
              && (forall i :: 0 <= i < |evt.s1| ==>
                    evt.s1[i] == S1EntryOf(s1[SortedKeys(s1.Keys)[i]]))
              && S2List(s2, si, LastTime(evt.s1), c, g, m, nsToMus) == Ok(evt.s2)
  {
    var s1e := S1Entries(s1, SortedKeys(s1.Keys));
    var s2e :- S2List(s2, si, LastTime(s1e), c, g, m, nsToMus);
    Ok(KrEvent(evtNumber, evtTime * 0.001, |s1|, s1e, |s2|, s2e))
  }

  /** evt.S1t[-1] when the S1 list is not empty. */
  function LastTime(s1: seq<S1Entry>): (r: Option<real>)
    ensures r.Some? <==> |s1| > 0
    ensures r.Some? ==> r.value == s1[|s1| - 1].t
  {
    if |s1| > 0 then Some(s1[|s1| - 1].t) else None
  }

  /** What each collected S2 entry records about its peak and SiPMs. */
  lemma S2EntriesFacts(s2: PeakMap, si: SiMap, keys: seq<int>, lastS1: Option<real>,
                       c: SelectorCuts, g: Geometry, m: Math, nsToMus: real, s2e: seq<S2Entry>)
    requires forall i :: 0 <= i < |keys| ==>
               && keys[i] in s2 && WellFormed(s2[keys[i]])
               && keys[i] in si && Covers(g, si[keys[i]])
    requires Collect(S2Results(s2, si, keys, lastS1, c, g, m, nsToMus)) == Ok(s2e)
    ensures |s2e| == |keys|
    ensures forall i :: 0 <= i < |s2e| ==>
              S2EntryOf(s2[keys[i]], si[keys[i]], lastS1, c, g, m, nsToMus) == Ok(s2e[i])
    ensures forall i :: 0 <= i < |s2e| ==>
              && s2e[i].w == Span(s2[keys[i]].t) * nsToMus
              && s2e[i].t == PeakTime(s2[keys[i]])
              && s2e[i].e == Sum(s2[keys[i]].e)
              && s2e[i].nsipm == |si[keys[i]]|
              && (s2e[i].dt, s2e[i].z) == DriftAndDepth(s2e[i].t, lastS1, c.driftV, nsToMus)
  {
    var results := S2Results(s2, si, keys, lastS1, c, g, m, nsToMus);
    forall i | 0 <= i < |s2e|
      ensures S2EntryOf(s2[keys[i]], si[keys[i]], lastS1, c, g, m, nsToMus) == Ok(s2e[i])
      ensures && s2e[i].w == Span(s2[keys[i]].t) * nsToMus
              && s2e[i].t == PeakTime(s2[keys[i]])
              && s2e[i].e == Sum(s2[keys[i]].e)
              && s2e[i].nsipm == |si[keys[i]]|
              && (s2e[i].dt, s2e[i].z) == DriftAndDepth(s2e[i].t, lastS1, c.driftV, nsToMus)
    {
      var r := S2EntryOf(s2[keys[i]], si[keys[i]], lastS1, c, g, m, nsToMus);
      assert results[i] == r == Ok(s2e[i]);
    }
  }

  /** select_event: Ok(None) is the source's (False, None); Ok(Some(evt)) is
      (True, evt); Err is an exception raised on the way. */
  function SelectEvent(evtNumber: int, evtTime: real, s1s: PeakMap, s2s: PeakMap, sis: SiMap,
                       c: SelectorCuts, g: Geometry, m: Math, nsToMus: real)
    : (r: Result<Option<KrEvent>, SelectError>)
    requires AllAligned(s1s) && AllAligned(s2s) && GeometryCovers(g, sis)
    ensures SelectPeaks(s1s, c.s1).Err? ==> r == Err(SelectPeaks(s1s, c.s1).error)
    ensures SelectPeaks(s1s, c.s1).Ok? && SelectS2(s2s, sis, c).Err? ==>
              r == Err(SelectS2(s2s, sis, c).error)
    ensures r == Ok(None) <==>
              && SelectPeaks(s1s, c.s1).Ok? && SelectS2(s2s, sis, c).Ok?
              && !Multiplicities(c, |SelectPeaks(s1s, c.s1).value|, |SelectS2(s2s, sis, c).value.0|)
    ensures r.Ok? && r.value.Some? ==>
              && SelectPeaks(s1s, c.s1).Ok? && SelectS2(s2s, sis, c).Ok?
              && Multiplicities(c, |SelectPeaks(s1s, c.s1).value|, |SelectS2(s2s, sis, c).value.0|)
              && var sel := SelectS2(s2s, sis, c).value;
                 AssembleEvent(evtNumber, evtTime, SelectPeaks(s1s, c.s1).value, sel.0, sel.1,
                               c, g, m, nsToMus) == Ok(r.value.value)
  {
    var s1 :- SelectPeaks(s1s, c.s1);
    var sel2 :- SelectS2(s2s, sis, c);
    if !Multiplicities(c, |s1|, |sel2.0|) then Ok(None)
    else
      var evt :- AssembleEvent(evtNumber, evtTime, s1, sel2.0, sel2.1, c, g, m, nsToMus);
      Ok(Some(evt))
  }

  // ---------------------------------------------------------------------------
  // write_evt

  /** One row of the KrTable: event, time, peak index, nS2, the S1 columns and
      the S2 and position columns. */
  datatype Row = Row(event: int, time: real, peak: int, nS2: int, s1: S1Entry, s2: S2Entry)

  /** write_evt: one row per S2 index below nS2, each repeating the first S1
      entry. The source indexes S1w[0] and S2w[i], so it needs those entries. */
  function WriteEvt(evt: KrEvent): (rows: seq<Row>)
    requires evt.nS2 <= |evt.s2|
    requires evt.nS2 > 0 ==> |evt.s1| > 0
    ensures |rows| == if evt.nS2 > 0 then evt.nS2 else 0
    ensures forall i :: 0 <= i < |rows| ==>
              && rows[i].peak == i
              && rows[i].s2 == evt.s2[i]
              && rows[i].s1 == evt.s1[0]
              && (rows[i].event, rows[i].time, rows[i].nS2) == (evt.event, evt.time, evt.nS2)
  {
    if evt.nS2 <= 0 then []
    else seq(evt.nS2, i requires 0 <= i < evt.nS2 => Row(evt.event, evt.time, i, evt.nS2, evt.s1[0], evt.s2[i]))
  }

  /** Reads an event with one S1 peak back from its rows. */
  function ReadBack(rows: seq<Row>): (evt: KrEvent)
    requires |rows| > 0
    ensures |evt.s2| == |rows| && |evt.s1| == 1
  {
    KrEvent(rows[0].event, rows[0].time, 1, [rows[0].s1], rows[0].nS2,
            seq(|rows|, i requires 0 <= i < |rows| => rows[i].s2))
  }

  /** Nothing of an event with exactly one S1 entry and at least one S2 entry
      is lost in the table: reading the rows back gives the event. */
  lemma WriteEvtRoundTrip(evt: KrEvent)
    requires evt.nS1 == |evt.s1| == 1 && evt.nS2 == |evt.s2| > 0
    ensures ReadBack(WriteEvt(evt)) == evt
  {
    var rows := WriteEvt(evt);
    assert seq(|rows|, i requires 0 <= i < |rows| => rows[i].s2) == evt.s2;
    assert [rows[0].s1] == evt.s1;
  }

  // ---------------------------------------------------------------------------
  // KrSelector

  /** The S2_Nmax default of KrSelector as the source writes it. */
  const WrittenS2Nmax: real := 1.0

  /** The default that admits exactly one S2 peak, as KrSelector admits exactly
      one S1 peak through S1_Nmin = 1, S1_Nmax = 2. */
  const IntendedS2Nmax: real := 2.0

  /** KrSelector's cuts: S1_Nmin = 1, S1_Nmax = 2 and S2_Nmin = 1 are fixed,
      the rest are passed through. */
  function KrSelectorCuts(driftV: real, s1: PeakCuts, s2Nmax: Ceiling, s2: PeakCuts, nsipm: Window)
    : (c: SelectorCuts)
    ensures forall n :: AdmitsCount(c.s1N, n) <==> n == 1
    ensures forall n :: AdmitsCount(c.s2N, n) <==>
              1 <= n && (s2Nmax.Below? ==> (n as real) < s2Nmax.limit)
    ensures (c.driftV, c.s1, c.s2, c.nsipm) == (driftV, s1, s2, nsipm)
  {
    SelectorCuts(driftV, Window(1.0, Below(2.0)), s1, Window(1.0, s2Nmax), s2, nsipm)
  }

  /** With the written default S2_Nmax = 1 the window [1, 1) is empty: no event
      passes KrSelector, whatever its peaks. */
  lemma WrittenDefaultRejectsAll(evtNumber: int, evtTime: real, s1s: PeakMap, s2s: PeakMap,
                                 sis: SiMap, driftV: real, s1c: PeakCuts, s2c: PeakCuts,
                                 nsipm: Window, g: Geometry, m: Math, nsToMus: real)
    requires AllAligned(s1s) && AllAligned(s2s) && GeometryCovers(g, sis)
    ensures var c := KrSelectorCuts(driftV, s1c, Below(WrittenS2Nmax), s2c, nsipm);
            var r := SelectEvent(evtNumber, evtTime, s1s, s2s, sis, c, g, m, nsToMus);
            r.Err? || r == Ok(None)
  {
    var c := KrSelectorCuts(driftV, s1c, Below(WrittenS2Nmax), s2c, nsipm);
    var r := SelectEvent(evtNumber, evtTime, s1s, s2s, sis, c, g, m, nsToMus);
    if r.Ok? && r.value.Some? {
      assert false;
    }
  }

  /** With S2_Nmax = 2 KrSelector keeps exactly the events with one S1 and one
      S2 peak surviving the cuts. */
  lemma IntendedDefaultAdmitsSinglePeaks(evtNumber: int, evtTime: real, s1s: PeakMap, s2s: PeakMap,
                                         sis: SiMap, driftV: real, s1c: PeakCuts, s2c: PeakCuts,
                                         nsipm: Window, g: Geometry, m: Math, nsToMus: real)
    requires AllAligned(s1s) && AllAligned(s2s) && GeometryCovers(g, sis)
    ensures var c := KrSelectorCuts(driftV, s1c, Below(IntendedS2Nmax), s2c, nsipm);
            var r := SelectEvent(evtNumber, evtTime, s1s, s2s, sis, c, g, m, nsToMus);
            r.Ok? && r.value.Some? ==>
              |r.value.value.s1| == 1 && |r.value.value.s2| == 1
  {
    var c := KrSelectorCuts(driftV, s1c, Below(IntendedS2Nmax), s2c, nsipm);
    var p1 := SelectPeaks(s1s, c.s1);
    var p2 := SelectS2(s2s, sis, c);
    if p1.Ok? && p2.Ok? {
      IntendedCounts(driftV, s1c, s2c, nsipm, |p1.value|, |p2.value.0|);
    }
  }

  /** With S2_Nmax = 2 KrSelector drops a well-formed event exactly when the
      cuts leave other than one S1 and one S2 peak. */
  lemma IntendedDefaultDropsOtherCounts(evtNumber: int, evtTime: real, s1s: PeakMap, s2s: PeakMap,
                                        sis: SiMap, driftV: real, s1c: PeakCuts, s2c: PeakCuts,
                                        nsipm: Window, g: Geometry, m: Math, nsToMus: real)
    requires AllAligned(s1s) && AllAligned(s2s) && GeometryCovers(g, sis)
    ensures var c := KrSelectorCuts(driftV, s1c, Below(IntendedS2Nmax), s2c, nsipm);
            var r := SelectEvent(evtNumber, evtTime, s1s, s2s, sis, c, g, m, nsToMus);
            r == Ok(None) <==>
              && SelectPeaks(s1s, c.s1).Ok? && SelectS2(s2s, sis, c).Ok?
              && (|SelectPeaks(s1s, c.s1).value| != 1 || |SelectS2(s2s, sis, c).value.0| != 1)
  {
    var c := KrSelectorCuts(driftV, s1c, Below(IntendedS2Nmax), s2c, nsipm);
    var p1 := SelectPeaks(s1s, c.s1);
    var p2 := SelectS2(s2s, sis, c);
    if p1.Ok? && p2.Ok? {
      IntendedCounts(driftV, s1c, s2c, nsipm, |p1.value|, |p2.value.0|);
    }
  }

  /** Under S2_Nmax = 2 the multiplicity cuts admit one S1 and one S2 peak. */
  lemma IntendedCounts(driftV: real, s1c: PeakCuts, s2c: PeakCuts, nsipm: Window, n1: int, n2: int)
    ensures Multiplicities(KrSelectorCuts(driftV, s1c, Below(IntendedS2Nmax), s2c, nsipm), n1, n2)
            <==> n1 == 1 && n2 == 1
  {
  }

  /** Every event KrSelector keeps can be written: write_evt's indexing is in
      range, it emits one row per selected S2 peak, and the rows give the
      event back. */
  lemma KrSelectorRows(evtNumber: int, evtTime: real, s1s: PeakMap, s2s: PeakMap,
                       sis: SiMap, driftV: real, s1c: PeakCuts, s2Nmax: Ceiling, s2c: PeakCuts,
                       nsipm: Window, g: Geometry, m: Math, nsToMus: real)
    requires AllAligned(s1s) && AllAligned(s2s) && GeometryCovers(g, sis)
    requires var c := KrSelectorCuts(driftV, s1c, s2Nmax, s2c, nsipm);
             SelectEvent(evtNumber, evtTime, s1s, s2s, sis, c, g, m, nsToMus).Ok?
    ensures var c := KrSelectorCuts(driftV, s1c, s2Nmax, s2c, nsipm);
            var r := SelectEvent(evtNumber, evtTime, s1s, s2s, sis, c, g, m, nsToMus);
            r.value.Some? ==>
              var evt := r.value.value;
              && evt.nS2 <= |evt.s2| && (evt.nS2 > 0 ==> |evt.s1| > 0)
              && |WriteEvt(evt)| == |SelectS2(s2s, sis, c).value.0|
              && ReadBack(WriteEvt(evt)) == evt
  {
    var c := KrSelectorCuts(driftV, s1c, s2Nmax, s2c, nsipm);
    var r := SelectEvent(evtNumber, evtTime, s1s, s2s, sis, c, g, m, nsToMus);
    if r.value.Some? {
      var evt := r.value.value;
      var s1 := SelectPeaks(s1s, c.s1).value;
      var s2 := SelectS2(s2s, sis, c).value.0;
      assert Multiplicities(c, |s1|, |s2|);
      assert |s1| == 1 && |s2| >= 1;
      WriteEvtRoundTrip(evt);
    }
  }
}
