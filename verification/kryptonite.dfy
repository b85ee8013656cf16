/** The Krypton pre-processing analysis: per-event gating on the number of S1
    and S2 peaks, the selection counters, and one table row per selected S2
    peak. */
module Kryptonite {
  import opened Outcomes
  import opened Reductions
  import opened Pmaps
  import opened PmpFunctions
  import KrIo

  // ---------------------------------------------------------------------------
  // Configuration

  /** The two fields of S12Params the selection reads (sample counts). */
  datatype S12Params = S12Params(lmin: real, lmax: real)

  /** The two fields of ThresholdParams the selection reads. */
  datatype ThresholdParams = ThresholdParams(thrS1: real, thrS2: real)

  /** What a Krypton object is built with, plus the arguments of `run`: the
      SiPM positions of the run, the drift velocity, and the uninterpreted
      floating-point functions. */
  datatype Config = Config(s1par: S12Params, s2par: S12Params, thr: ThresholdParams,
                           s2Multiplicity: int, g: Geometry, driftV: real, m: Math)

  // ---------------------------------------------------------------------------
  // Counters

  /** The counter names `run` uses; `Key` is the dictionary key the source
      writes. */
  datatype CounterName =
    | NTot | NotS1 | S1NotOne | S1EqOne | NotS2 | S2NotMult | S2EqMult | NotSi
  {
    function Key(): string
    {
      match this
      case NTot => "n_tot"
      case NotS1 => "not_s1"
      case S1NotOne => "s1_not_1"
      case S1EqOne => "s1_eq_1"
      case NotS2 => "not_s2"
      case S2NotMult => "s2_not_eq_s2_mult"
      case S2EqMult => "s2_eq_s2_mult"
      case NotSi => "not_si"
    }
  }

  /** events_selected: a defaultdict(int) keyed by counter name. */
  type Counters = map<CounterName, nat>

  /** Reading a defaultdict: a counter never incremented reads 0. */
  function Count(c: Counters, name: CounterName): nat
  {
    if name in c then c[name] else 0
  }

  /** increment_counter: one more for `name`, every other counter unchanged. */
  function Increment(c: Counters, name: CounterName): (r: Counters)
    ensures Count(r, name) == Count(c, name) + 1
    ensures forall other :: other != name ==> Count(r, other) == Count(c, other)
    ensures r.Keys == c.Keys + {name}
  {
    c[name := Count(c, name) + 1]
  }

  /** The bookkeeping the gating keeps: every event counted in n_tot lands in
      exactly one S1 outcome, every event with one S1 in exactly one S2
      outcome, and only events with accepted S2 peaks can miss their SiPMs. */
  predicate Balanced(c: Counters)
  {
    && Count(c, NTot) == Count(c, NotS1) + Count(c, S1NotOne) + Count(c, S1EqOne)
    && Count(c, S1EqOne) == Count(c, NotS2) + Count(c, S2NotMult) + Count(c, S2EqMult)
    && Count(c, NotSi) <= Count(c, S2EqMult)
  }

  // ---------------------------------------------------------------------------
  // select_peaks_

  /** E[np.where(E > threshold)]: the energies above the threshold, in order. */
  function Above(e: seq<real>, thr: real): (r: seq<real>)
    ensures |r| <= |e|
    ensures forall i :: 0 <= i < |r| ==> r[i] > thr
  {
    if |e| == 0 then []
    else Above(e[..|e| - 1], thr) + (if e[|e| - 1] > thr then [e[|e| - 1]] else [])
  }

  /** The indices of the samples above the threshold. */
  ghost function AboveIndices(e: seq<real>, thr: real): set<int>
  {
    set i | 0 <= i < |e| && e[i] > thr
  }

  /** len(E2) is the number of samples strictly above the threshold. */
  lemma {:induction false} AboveCountsSamples(e: seq<real>, thr: real)
    ensures |Above(e, thr)| == |AboveIndices(e, thr)|
  {
    if |e| > 0 {
      var front := e[..|e| - 1];
      AboveCountsSamples(front, thr);
      AboveIndicesStep(e, thr);
    }
  }

  /** The indices above the threshold of a non-empty array are those of its
      front, plus the last index when its sample is above. */
  lemma AboveIndicesStep(e: seq<real>, thr: real)
    requires |e| > 0
    ensures var front := e[..|e| - 1];
            |AboveIndices(e, thr)| == |AboveIndices(front, thr)| + (if e[|e| - 1] > thr then 1 else 0)
  {
    var front := e[..|e| - 1];
    var last := |e| - 1;
    var f := AboveIndices(front, thr);
    assert last !in f;
    if e[last] > thr {
      assert AboveIndices(e, thr) == f + {last} by {
        forall i | i in AboveIndices(e, thr) ensures i in f + {last} {
          if i < last { assert front[i] == e[i]; }
        }
        forall i | i in f ensures i in AboveIndices(e, thr) {
          assert front[i] == e[i];
        }
      }
    } else {
      assert AboveIndices(e, thr) == f by {
        forall i | i in AboveIndices(e, thr) ensures i in f {
          assert front[i] == e[i];
        }
        forall i | i in f ensures i in AboveIndices(e, thr) {
          assert front[i] == e[i];
        }
      }
    }
  }

  /** The width test of select_peaks_: a peak is kept unless
      len(E2) < lmin or len(E2) > lmax, so both bounds are inclusive. */
  predicate LengthPasses(p: Peak, thr: real, lmin: real, lmax: real)
  {
    var n := |Above(p.e, thr)| as real;
    lmin <= n <= lmax
  }

  /** The peaks of `keys` that pass the width test, in the order of `keys`. */
  function PassingPeaks(keys: seq<int>, s12: PeakMap, thr: real, lmin: real, lmax: real): (r: seq<int>)
    requires forall i :: 0 <= i < |keys| ==> keys[i] in s12
    requires forall i, j :: 0 <= i < j < |keys| ==> keys[i] < keys[j]
    ensures forall k :: k in r <==> k in keys && LengthPasses(s12[k], thr, lmin, lmax)
    ensures forall i, j :: 0 <= i < j < |r| ==> r[i] < r[j]
    ensures |r| <= |keys|
  {
    if |keys| == 0 then []
    else
      var rest := PassingPeaks(keys[1..], s12, thr, lmin, lmax);
      if LengthPasses(s12[keys[0]], thr, lmin, lmax) then
        KeepFirst(keys, rest);
        [keys[0]] + rest
      else rest
  }

  /** Keeping the first key in front of the kept later keys preserves the
      increasing order of `keys`. */
  lemma KeepFirst(keys: seq<int>, rest: seq<int>)
    requires |keys| > 0
    requires forall i, j :: 0 <= i < j < |keys| ==> keys[i] < keys[j]
    requires forall k :: k in rest ==> k in keys[1..]
    requires forall i, j :: 0 <= i < j < |rest| ==> rest[i] < rest[j]
    ensures forall i, j :: 0 <= i < j < |[keys[0]] + rest| ==> ([keys[0]] + rest)[i] < ([keys[0]] + rest)[j]
  {
    forall j | 0 <= j < |rest| ensures keys[0] < rest[j] {
      assert rest[j] in rest;
      var i :| 0 <= i < |keys[1..]| && keys[1..][i] == rest[j];
      assert keys[i + 1] == rest[j];
    }
    var r := [keys[0]] + rest;
    forall i, j | 0 <= i < j < |r| ensures r[i] < r[j] {
      if i > 0 {
        assert r[i] == rest[i - 1] && r[j] == rest[j - 1];
      } else {
        assert r[j] == rest[j - 1];
      }
    }
  }

  /** Peak number -> S12Features, the s1f / s2f dictionaries of a Krypton
      object; they are never cleared between events. */
  type FeatureMap = map<int, S12Features>

  /** select_peaks_: records the features of every peak of the event, then
      returns, by ascending peak number, the peaks whose number of samples
      above the threshold lies in [lmin, lmax]. */
  function SelectPeaksK(s12: PeakMap, s12f: FeatureMap, thr: real, lmin: real, lmax: real)
    : (r: (seq<int>, FeatureMap))
    requires AllWellFormed(s12)
    ensures forall k :: k in r.0 <==> k in s12 && LengthPasses(s12[k], thr, lmin, lmax)
    ensures forall i :: 0 <= i < |r.0| ==> r.0[i] in s12
    ensures forall i, j :: 0 <= i < j < |r.0| ==> r.0[i] < r.0[j]
    ensures r.1.Keys == s12f.Keys + s12.Keys
    ensures forall k :: k in s12 ==> r.1[k] == Features(s12[k])
    ensures forall k :: k in s12f && k !in s12 ==> r.1[k] == s12f[k]
  {
    SortedKeysAll(s12.Keys);
    var peaks := PassingPeaks(SortedKeys(s12.Keys), s12, thr, lmin, lmax);
    (peaks, RecordFeatures(s12, s12f))
  }

  /** The `s12f[peak] = s12_features(...)` assignments of select_peaks_. */
  function RecordFeatures(s12: PeakMap, s12f: FeatureMap): (r: FeatureMap)
    requires AllWellFormed(s12)
    ensures r.Keys == s12f.Keys + s12.Keys
    ensures forall k :: k in s12 ==> r[k] == Features(s12[k])
    ensures forall k :: k in s12f && k !in s12 ==> r[k] == s12f[k]
  {
    var computed := map k | k in s12 :: Features(s12[k]);
    assert computed.Keys == s12.Keys;
    s12f + computed
  }

  /** select_s1: the S1 condition holds iff exactly one peak passes. */
  function SelectS1(cfg: Config, s1: PeakMap, s1f: FeatureMap): (r: (bool, seq<int>, FeatureMap))
    requires AllWellFormed(s1)
    ensures r.0 <==> |r.1| == 1
    ensures forall i :: 0 <= i < |r.1| ==> r.1[i] in s1
    ensures (r.1, r.2) == SelectPeaksK(s1, s1f, cfg.thr.thrS1, cfg.s1par.lmin, cfg.s1par.lmax)
  {
    var (peaks, f) := SelectPeaksK(s1, s1f, cfg.thr.thrS1, cfg.s1par.lmin, cfg.s1par.lmax);
    (|peaks| == 1, peaks, f)
  }

  /** select_s2: the width bounds are the S2 parameters divided by 40 (the
      rebinning stride), and the S2 condition holds iff between one and
      s2_multiplicity peaks pass. */
  function SelectS2(cfg: Config, s2: PeakMap, s2f: FeatureMap): (r: (bool, seq<int>, FeatureMap))
    requires AllWellFormed(s2)
    ensures r.0 <==> 1 <= |r.1| <= cfg.s2Multiplicity
    ensures forall i :: 0 <= i < |r.1| ==> r.1[i] in s2
    ensures (r.1, r.2) == SelectPeaksK(s2, s2f, cfg.thr.thrS2, cfg.s2par.lmin / 40.0, cfg.s2par.lmax / 40.0)
  {
    var (peaks, f) := SelectPeaksK(s2, s2f, cfg.thr.thrS2, cfg.s2par.lmin / 40.0, cfg.s2par.lmax / 40.0);
    (1 <= |peaks| <= cfg.s2Multiplicity, peaks, f)
  }

  // ---------------------------------------------------------------------------
  // Per-event gating

  /** How the gating of `run` ends for one event. */
  datatype Verdict =
    | MissingS1
    | S1NotSingle
    | MissingS2
    | S2OutOfMultiplicity
    | MissingSi
    | Selected(s1Peak: int, s2Peaks: seq<int>)

  /** The counters a verdict increments, in the order the source increments
      them. */
  function CountersFor(v: Verdict): seq<CounterName>
  {
    match v
    case MissingS1 => [NTot, NotS1]
    case S1NotSingle => [NTot, S1NotOne]
    case MissingS2 => [NTot, S1EqOne, NotS2]
    case S2OutOfMultiplicity => [NTot, S1EqOne, S2NotMult]
    case MissingSi => [NTot, S1EqOne, S2EqMult, NotSi]
    case Selected(_, _) => [NTot, S1EqOne, S2EqMult]
  }

  /** increment_counter applied to each of distinct names in turn: exactly
      the named counters grow, by one each. */
  function IncrementAll(c: Counters, names: seq<CounterName>): (r: Counters)
    requires forall i, j :: 0 <= i < j < |names| ==> names[i] != names[j]
    ensures forall name :: Count(r, name) == Count(c, name) + (if name in names then 1 else 0)
    decreases |names|
  {
    if |names| == 0 then c
    else IncrementAll(Increment(c, names[0]), names[1..])
  }

  /** The counters after a verdict's increments. */
  function Counted(c: Counters, v: Verdict): (r: Counters)
    ensures forall name :: Count(r, name) == Count(c, name) + (if name in CountersFor(v) then 1 else 0)
  {
    IncrementAll(c, CountersFor(v))
  }

  /** Which counters each verdict increments: n_tot always, then exactly one
      S1 outcome, an S2 outcome only after s1_eq_1, and not_si only with
      s2_eq_s2_mult. */
  lemma CountersForTable(v: Verdict)
    ensures NTot in CountersFor(v)
    ensures NotS1 in CountersFor(v) <==> v.MissingS1?
    ensures S1NotOne in CountersFor(v) <==> v.S1NotSingle?
    ensures S1EqOne in CountersFor(v) <==> !v.MissingS1? && !v.S1NotSingle?
    ensures NotS2 in CountersFor(v) <==> v.MissingS2?
    ensures S2NotMult in CountersFor(v) <==> v.S2OutOfMultiplicity?
    ensures S2EqMult in CountersFor(v) <==> v.MissingSi? || v.Selected?
    ensures NotSi in CountersFor(v) <==> v.MissingSi?
  {
  }

  /** Every verdict counts the event once in n_tot and keeps the counters
      balanced. */
  lemma CountedKeepsBalance(c: Counters, v: Verdict)
    requires Balanced(c)
    ensures Count(Counted(c, v), NTot) == Count(c, NTot) + 1
    ensures Balanced(Counted(c, v))
  {
    CountersForTable(v);
  }

  /** Counters counted for any verdict have one more event in n_tot, and
      stay balanced if they were. */
  lemma CountedCountsOnce(c: Counters, v: Verdict, c2: Counters)
    requires c2 == Counted(c, v)
    ensures Count(c2, NTot) == Count(c, NTot) + 1
    ensures Balanced(c) ==> Balanced(c2)
  {
    CountersForTable(v);
    if Balanced(c) {
      CountedKeepsBalance(c, v);
    }
  }

  /** The per-event state of a Krypton object: its counters and the two
      feature dictionaries. */
  datatype Krypton = Krypton(counters: Counters, s1f: FeatureMap, s2f: FeatureMap)

  /** One event's PMAPS as load_pmaps returns them, keyed by event number. */
  datatype EventPmaps = EventPmaps(s1: map<int, PeakMap>, s2: map<int, PeakMap>, s2si: map<int, SiMap>)

  /** What the upstream peak finder promises of the maps of every event. */
  predicate ValidPmaps(pm: EventPmaps, g: Geometry)
  {
    && (forall ev :: ev in pm.s1 ==> AllWellFormed(pm.s1[ev]))
    && (forall ev :: ev in pm.s2 ==> AllWellFormed(pm.s2[ev]))
    && (forall ev :: ev in pm.s2si ==> forall peak :: peak in pm.s2si[ev] ==> Covers(g, pm.s2si[ev][peak]))
  }

  /** The gating of one event in `run`: the checks run in the source's order,
      each failed check counted and ending the event. */
  function Gate(cfg: Config, obj: Krypton, evt: int, pm: EventPmaps): (r: (Verdict, Krypton))
    requires ValidPmaps(pm, cfg.g)
    ensures r.1.counters == Counted(obj.counters, r.0)
    ensures r.0 == MissingS1 <==> evt !in pm.s1
  {
    if evt !in pm.s1 then (MissingS1, obj.(counters := Counted(obj.counters, MissingS1)))
    else
      var sel := SelectS1(cfg, pm.s1[evt], obj.s1f);
      if !sel.0 then (S1NotSingle, obj.(counters := Counted(obj.counters, S1NotSingle), s1f := sel.2))
      else GateS2(cfg, obj.(s1f := sel.2), obj.counters, evt, pm, sel.1[0])
  }

  /** The S1 check: an event with S1 peaks is stopped there exactly when the
      number of passing S1 peaks is not one. */
  lemma GateS1Check(cfg: Config, obj: Krypton, evt: int, pm: EventPmaps)
    requires ValidPmaps(pm, cfg.g)
    ensures Gate(cfg, obj, evt, pm).0 == S1NotSingle <==>
              evt in pm.s1 && |SelectS1(cfg, pm.s1[evt], obj.s1f).1| != 1
  {
  }

  /** The S2 checks, in the order `run` makes them once a single S1 peak
      passed: a missing S2 map, then the S2 multiplicity, then a missing
      SiPM map. */
  lemma GateS2Checks(cfg: Config, obj: Krypton, evt: int, pm: EventPmaps)
    requires ValidPmaps(pm, cfg.g)
    ensures var single := evt in pm.s1 && |SelectS1(cfg, pm.s1[evt], obj.s1f).1| == 1;
            && (Gate(cfg, obj, evt, pm).0 == MissingS2 <==> single && evt !in pm.s2)
            && (Gate(cfg, obj, evt, pm).0 == S2OutOfMultiplicity <==>
                  single && evt in pm.s2 && !SelectS2(cfg, pm.s2[evt], obj.s2f).0)
            && (Gate(cfg, obj, evt, pm).0 == MissingSi <==>
                  single && evt in pm.s2 && SelectS2(cfg, pm.s2[evt], obj.s2f).0 && evt !in pm.s2si)
  {
  }

  /** A selected event has exactly one S1 peak passing, and that is the
      peak its rows take their S1 features from. */
  lemma GateSelectedS1(cfg: Config, obj: Krypton, evt: int, pm: EventPmaps)
    requires ValidPmaps(pm, cfg.g)
    requires Gate(cfg, obj, evt, pm).0.Selected?
    ensures evt in pm.s1
    ensures var peaks := SelectS1(cfg, pm.s1[evt], obj.s1f).1;
            |peaks| == 1 && peaks[0] == Gate(cfg, obj, evt, pm).0.s1Peak
  {
    var sel1 := SelectS1(cfg, pm.s1[evt], obj.s1f);
    var r := GateS2(cfg, obj.(s1f := sel1.2), obj.counters, evt, pm, sel1.1[0]);
    assert Gate(cfg, obj, evt, pm) == r;
  }

  /** A selected event has its S2 and SiPM maps present and between one and
      s2_multiplicity S2 peaks passing; those are the peaks it writes. */
  lemma GateSelectedS2(cfg: Config, obj: Krypton, evt: int, pm: EventPmaps)
    requires ValidPmaps(pm, cfg.g)
    requires Gate(cfg, obj, evt, pm).0.Selected?
    ensures evt in pm.s2 && evt in pm.s2si
    ensures var v := Gate(cfg, obj, evt, pm).0;
            && 1 <= |v.s2Peaks| <= cfg.s2Multiplicity
            && v.s2Peaks == SelectS2(cfg, pm.s2[evt], obj.s2f).1
  {
    var sel1 := SelectS1(cfg, pm.s1[evt], obj.s1f);
    var obj1 := obj.(s1f := sel1.2);
    var r := GateS2(cfg, obj1, obj.counters, evt, pm, sel1.1[0]);
    assert Gate(cfg, obj, evt, pm) == r;
    assert obj1.s2f == obj.s2f;
  }

  /** A selected event finds the features of its own peaks in the feature
      dictionaries. */
  lemma GateRecordsFeatures(cfg: Config, obj: Krypton, evt: int, pm: EventPmaps)
    requires ValidPmaps(pm, cfg.g)
    requires Gate(cfg, obj, evt, pm).0.Selected?
    ensures evt in pm.s1 && evt in pm.s2
    ensures FeaturesCurrent(Gate(cfg, obj, evt, pm).1, pm.s1[evt], pm.s2[evt])
  {
    var sel1 := SelectS1(cfg, pm.s1[evt], obj.s1f);
    var obj1 := obj.(s1f := sel1.2);
    var r := GateS2(cfg, obj1, obj.counters, evt, pm, sel1.1[0]);
    assert Gate(cfg, obj, evt, pm) == r;
    var sel2 := SelectS2(cfg, pm.s2[evt], obj1.s2f);
    assert r.1.s1f == sel1.2 && r.1.s2f == sel2.2;
  }

  /** The S2 half of the gating, once exactly one S1 peak passed. */
  function GateS2(cfg: Config, obj: Krypton, before: Counters, evt: int, pm: EventPmaps, s1Peak: int)
    : (r: (Verdict, Krypton))
    requires ValidPmaps(pm, cfg.g)
    ensures r.1.counters == Counted(before, r.0)
    ensures r.1.s1f == obj.s1f
    ensures !r.0.MissingS1? && !r.0.S1NotSingle?
    ensures r.0 == MissingS2 <==> evt !in pm.s2
    ensures r.0 == S2OutOfMultiplicity <==>
              evt in pm.s2 && !SelectS2(cfg, pm.s2[evt], obj.s2f).0
    ensures r.0 == MissingSi <==>
              evt in pm.s2 && SelectS2(cfg, pm.s2[evt], obj.s2f).0 && evt !in pm.s2si
    ensures r.0.Selected? <==>
              evt in pm.s2 && SelectS2(cfg, pm.s2[evt], obj.s2f).0 && evt in pm.s2si
    ensures r.0.Selected? ==>
              && evt in pm.s2 && evt in pm.s2si && r.0.s1Peak == s1Peak
              && SelectS2(cfg, pm.s2[evt], obj.s2f).0
              && r.0.s2Peaks == SelectS2(cfg, pm.s2[evt], obj.s2f).1
              && r.1.s2f == SelectS2(cfg, pm.s2[evt], obj.s2f).2
  {
    if evt !in pm.s2 then (MissingS2, obj.(counters := Counted(before, MissingS2)))
    else
      var sel := SelectS2(cfg, pm.s2[evt], obj.s2f);
      var obj2 := obj.(s2f := sel.2);
      if !sel.0 then (S2OutOfMultiplicity, obj2.(counters := Counted(before, S2OutOfMultiplicity)))
      else if evt !in pm.s2si then (MissingSi, obj2.(counters := Counted(before, MissingSi)))
      else
        var v := Selected(s1Peak, sel.1);
        (v, obj2.(counters := Counted(before, v)))
  }

  /** The feature dictionaries hold the current event's features for all of
      its S1 and S2 peaks, so the lookups of drift_time never see a stale
      entry of an earlier event. */
  predicate FeaturesCurrent(obj: Krypton, s1: PeakMap, s2: PeakMap)
    requires AllWellFormed(s1) && AllWellFormed(s2)
  {
    && (forall k :: k in s1 ==> k in obj.s1f && obj.s1f[k] == Features(s1[k]))
    && (forall k :: k in s2 ==> k in obj.s2f && obj.s2f[k] == Features(s2[k]))
  }

  // ---------------------------------------------------------------------------
  // Rows of a selected event

  /** The features of one S1 peak and one S2 peak are current. */
  predicate PeakFeaturesCurrent(obj: Krypton, s1: PeakMap, s1Peak: int, s2: PeakMap, peak: int)
    requires s1Peak in s1 && WellFormed(s1[s1Peak]) && peak in s2 && WellFormed(s2[peak])
  {
    && s1Peak in obj.s1f && obj.s1f[s1Peak] == Features(s1[s1Peak])
    && peak in obj.s2f && obj.s2f[peak] == Features(s2[peak])
  }

  /** Exceptions the row loop of `run` can raise. */
  datatype KrError =
    | MissingSipmPeak(event: int, peak: int)    // S2Si[evt][peak]: a KeyError
    | ZeroChargeWeights(event: int, peak: int)  // np.average: weights sum to zero

  /** The row columns every row of a run agrees on: its run number, no PMT
      match count, and Z equal to the drift velocity times the S2 peak time
      measured from the S1 peak time. */
  predicate RowConsistent(row: KrIo.Row, run: int, v: real)
  {
    && row.run == run
    && row.nS1Pmt == 0
    && row.z == (row.s2Tpeak - row.s1Tpeak) * v
  }

  /** Z of an S2 peak: the drift velocity times its peak time measured from
      the S1 peak time. */
  function Depth(f1: S12Features, f2: S12Features, v: real): real
  {
    (f2.tpeak - f1.tpeak) * v
  }

  /** The row of `peak` for event `evt`, given the features of its S1 peak
      and of the S2 peak. */
  predicate RowOfPeak(row: KrIo.Row, run: int, evt: int, ts: int, v: real,
                      f1: S12Features, f2: S12Features, s2si: SiMap, peak: int)
  {
    && RowConsistent(row, run, v)
    && row.event == evt && row.timestamp == ts && row.peak == peak
    && row.s1Tpeak == f1.tpeak && row.s1Energy == f1.etot
    && row.s2Tpeak == f2.tpeak && row.s2Energy == f2.etot
    && peak in s2si && row.nSipm == |s2si[peak]|
  }

  /** The state the row loop threads: the reused record, the table, and the
      exception that ended the loop, if any. */
  datatype Emitted = Emitted(kre: KrIo.KrEvent, table: seq<KrIo.Row>, failure: Option<KrError>)

  /** One pass of the `for peak in S2_peaks` loop of `run`: the SiPM readout
      of the peak, its drift time against the S1 peak, the coordinates, the
      five setters, and one row written. */
  method EmitOne(cfg: Config, run: int, evt: int, ts: int,
                 s1: PeakMap, s1Peak: int, s2: PeakMap, s2si: SiMap, peak: int,
                 obj: Krypton, kre: KrIo.KrEvent, table: seq<KrIo.Row>) returns (r: Emitted)
    requires AllWellFormed(s1) && AllWellFormed(s2) && s1Peak in s1 && peak in s2
    requires peak in s2si ==> Covers(cfg.g, s2si[peak])
    requires PeakFeaturesCurrent(obj, s1, s1Peak, s2, peak)
    ensures r.failure.None? ==>
              && |r.table| == |table| + 1 && r.table[..|table|] == table
              && RowOfPeak(r.table[|table|], run, evt, ts, cfg.driftV, obj.s1f[s1Peak], obj.s2f[peak], s2si, peak)
    ensures r.failure.Some? ==>
              && r.table == table
              && r.failure.value.peak == peak && r.failure.value.event == evt
              && (r.failure.value.MissingSipmPeak? <==> peak !in s2si)
  {
    if peak !in s2si {
      return Emitted(kre, table, Some(MissingSipmPeak(evt, peak)));
    }
    var krc := PeakCoordinates(cfg, s1, s1Peak, s2, s2si, peak, obj);
    if krc.Err? {
      return Emitted(kre, table, Some(ZeroChargeWeights(evt, peak)));
    }
    r := WriteRow(kre, obj, s1, s1Peak, s2, s2si, peak, krc.value, table, run, evt, ts, cfg.driftV);
  }

  /** The five setters, then the writer: one row appended to the table. */
  function WriteRow(kre: KrIo.KrEvent, obj: Krypton, s1: PeakMap, s1Peak: int, s2: PeakMap,
                    s2si: SiMap, peak: int, krc: KrCoordinates, table: seq<KrIo.Row>,
                    run: int, evt: int, ts: int, v: real): (r: Emitted)
    requires AllWellFormed(s1) && AllWellFormed(s2) && s1Peak in s1 && peak in s2 && peak in s2si
    requires PeakFeaturesCurrent(obj, s1, s1Peak, s2, peak)
    requires krc.z == Depth(obj.s1f[s1Peak], obj.s2f[peak], v)
    ensures r.failure.None?
    ensures |r.table| == |table| + 1 && r.table[..|table|] == table
    ensures RowOfPeak(r.table[|table|], run, evt, ts, v, obj.s1f[s1Peak], obj.s2f[peak], s2si, peak)
  {
    var kre1 := KrIo.FillEvent(kre, s1, s1Peak, s2, s2si, peak, krc, 0);
    FilledRowOfPeak(kre, obj, s1, s1Peak, s2, s2si, peak, krc, table, run, evt, ts, v);
    Emitted(kre1, KrIo.WriterCall(table, run, evt, peak, ts, kre1), None)
  }

  /** The coordinates of S2 peak `peak`: its SiPM readout, then kr_coordinates
      with the drift time measured from the S1 peak. Z is the drift velocity
      times the distance between the two peak times. */
  function PeakCoordinates(cfg: Config, s1: PeakMap, s1Peak: int, s2: PeakMap, s2si: SiMap,
                           peak: int, obj: Krypton): (r: Result<KrCoordinates, CoordError>)
    requires AllWellFormed(s1) && AllWellFormed(s2) && s1Peak in s1 && peak in s2
    requires peak in s2si && Covers(cfg.g, s2si[peak])
    requires PeakFeaturesCurrent(obj, s1, s1Peak, s2, peak)
    ensures r.Ok? ==> r.value.z == Depth(obj.s1f[s1Peak], obj.s2f[peak], cfg.driftV)
  {
    var readout := ChargeAndPosition(s2si, cfg.g, peak);
    var dt := DriftTime(obj.s1f[s1Peak], obj.s2f, peak);
    DriftTimeDepth(obj.s1f[s1Peak], obj.s2f, peak, cfg.driftV);
    KrCoords(readout.x, readout.y, readout.q, dt, cfg.driftV, cfg.m)
  }

  /** kr_coordinates' Z from the drift time is the depth of the two peaks. */
  lemma DriftTimeDepth(f1: S12Features, s2f: FeatureMap, peak: int, v: real)
    requires peak in s2f
    ensures DriftTime(f1, s2f, peak) * v == Depth(f1, s2f[peak], v)
  {
  }

  /** The row written after the setters is the row of `peak`, once the
      coordinates carry Z from the two peak times. */
  lemma FilledRowOfPeak(kre: KrIo.KrEvent, obj: Krypton, s1: PeakMap, s1Peak: int, s2: PeakMap,
                        s2si: SiMap, peak: int, krc: KrCoordinates, table: seq<KrIo.Row>,
                        run: int, evt: int, ts: int, v: real)
    requires AllWellFormed(s1) && AllWellFormed(s2) && s1Peak in s1 && peak in s2 && peak in s2si
    requires PeakFeaturesCurrent(obj, s1, s1Peak, s2, peak)
    requires krc.z == Depth(obj.s1f[s1Peak], obj.s2f[peak], v)
    ensures RowOfPeak(KrIo.WriterCall(table, run, evt, peak, ts,
                                      KrIo.FillEvent(kre, s1, s1Peak, s2, s2si, peak, krc, 0))[|table|],
                      run, evt, ts, v, obj.s1f[s1Peak], obj.s2f[peak], s2si, peak)
  {
    KrIo.FilledRowColumns(kre, s1, s1Peak, s2, s2si, peak, krc, 0, table, run, evt, ts);
  }

  /** Row `j` of `t` is the row of peak number `j - base` of `peaks`. */
  predicate PeakRow(t: seq<KrIo.Row>, j: int, base: nat, run: int, evt: int, ts: int, v: real,
                    obj: Krypton, s1Peak: int, s2si: SiMap, peaks: seq<int>)
  {
    && base <= j < |t| && j - base < |peaks|
    && s1Peak in obj.s1f && peaks[j - base] in obj.s2f
    && RowOfPeak(t[j], run, evt, ts, v, obj.s1f[s1Peak], obj.s2f[peaks[j - base]], s2si, peaks[j - base])
  }

  /** The rows from index `base` on are the rows of the first peaks of
      `peaks`, in order. */
  predicate RowsOfPeaks(t: seq<KrIo.Row>, base: nat, run: int, evt: int, ts: int, v: real,
                        obj: Krypton, s1Peak: int, s2si: SiMap, peaks: seq<int>)
  {
    && base <= |t| <= base + |peaks|
    && s1Peak in obj.s1f
    && forall j :: base <= j < |t| ==> PeakRow(t, j, base, run, evt, ts, v, obj, s1Peak, s2si, peaks)
  }

  /** Appending the row of the next peak extends the rows of the first peaks
      and keeps everything before them. */
  lemma RowsOfPeaksExtend(t: seq<KrIo.Row>, base: nat, run: int, evt: int, ts: int, v: real,
                          obj: Krypton, s1Peak: int, s2si: SiMap, peaks: seq<int>, t2: seq<KrIo.Row>)
    requires RowsOfPeaks(t, base, run, evt, ts, v, obj, s1Peak, s2si, peaks)
    requires |t| < base + |peaks| && peaks[|t| - base] in obj.s2f
    requires |t2| == |t| + 1 && t2[..|t|] == t
    requires RowOfPeak(t2[|t|], run, evt, ts, v, obj.s1f[s1Peak], obj.s2f[peaks[|t| - base]],
                       s2si, peaks[|t| - base])
    ensures RowsOfPeaks(t2, base, run, evt, ts, v, obj, s1Peak, s2si, peaks)
    ensures t2[..base] == t[..base]
  {
    forall j | base <= j < |t2|
      ensures PeakRow(t2, j, base, run, evt, ts, v, obj, s1Peak, s2si, peaks)
    {
      if j < |t| {
        assert PeakRow(t, j, base, run, evt, ts, v, obj, s1Peak, s2si, peaks);
        assert t2[j] == t2[..|t|][j] == t[j];
      }
    }
    assert t2[..base] == t2[..|t|][..base];
  }

  /** The `for peak in S2_peaks` loop of `run`: one row per peak in order,
      until the first peak that raises. */
  method EmitRows(cfg: Config, run: int, evt: int, ts: int,
                  s1: PeakMap, s1Peak: int, s2: PeakMap, s2si: SiMap, peaks: seq<int>,
                  obj: Krypton, kre: KrIo.KrEvent, table: seq<KrIo.Row>) returns (r: Emitted)
    requires AllWellFormed(s1) && AllWellFormed(s2) && s1Peak in s1
    requires forall p :: p in s2si ==> Covers(cfg.g, s2si[p])
    requires forall j :: 0 <= j < |peaks| ==> peaks[j] in s2
    requires FeaturesCurrent(obj, s1, s2)
    ensures |table| <= |r.table| <= |table| + |peaks|
    ensures r.table[..|table|] == table
    ensures RowsOfPeaks(r.table, |table|, run, evt, ts, cfg.driftV, obj, s1Peak, s2si, peaks)
    ensures r.failure.None? <==> |r.table| == |table| + |peaks|
    ensures r.failure.Some? ==>
              && r.failure.value.peak == peaks[|r.table| - |table|]
              && r.failure.value.event == evt
              && (r.failure.value.MissingSipmPeak? <==> peaks[|r.table| - |table|] !in s2si)
  {
    r := Emitted(kre, table, None);
    var i := 0;
    while i < |peaks|
      invariant 0 <= i <= |peaks|
      invariant r.failure.None? && |r.table| == |table| + i && r.table[..|table|] == table
      invariant RowsOfPeaks(r.table, |table|, run, evt, ts, cfg.driftV, obj, s1Peak, s2si, peaks)
    {
      var one := EmitOne(cfg, run, evt, ts, s1, s1Peak, s2, s2si, peaks[i], obj, r.kre, r.table);
      if one.failure.Some? {
        assert one.table == r.table;
        return one;
      }
      assert peaks[i] in s2;
      RowsOfPeaksExtend(r.table, |table|, run, evt, ts, cfg.driftV, obj, s1Peak, s2si, peaks, one.table);
      r := one;
      i := i + 1;
    }
  }

  // ---------------------------------------------------------------------------
  // One event of `run`

  /** The gating of one event, then, for a selected event, its rows. */
  method ProcessEvent(cfg: Config, run: int, evt: int, ts: int, pm: EventPmaps,
                      obj: Krypton, kre: KrIo.KrEvent, table: seq<KrIo.Row>)
    returns (obj1: Krypton, e: Emitted)
    requires ValidPmaps(pm, cfg.g)
    ensures obj1 == Gate(cfg, obj, evt, pm).1
    ensures Count(obj1.counters, NTot) == Count(obj.counters, NTot) + 1
    ensures Balanced(obj.counters) ==> Balanced(obj1.counters)
    ensures |table| <= |e.table| && e.table[..|table|] == table
    ensures forall j :: |table| <= j < |e.table| ==>
              && RowConsistent(e.table[j], run, cfg.driftV)
              && e.table[j].event == evt && e.table[j].timestamp == ts
    ensures !Gate(cfg, obj, evt, pm).0.Selected? ==> e.table == table && e.failure.None?
    ensures Gate(cfg, obj, evt, pm).0.Selected? ==>
              && |e.table| <= |table| + |Gate(cfg, obj, evt, pm).0.s2Peaks|
              && (e.failure.None? <==> |e.table| == |table| + |Gate(cfg, obj, evt, pm).0.s2Peaks|)
    ensures e.failure.Some? ==> e.failure.value.event == evt
  {
    var (v, o) := Gate(cfg, obj, evt, pm);
    obj1 := o;
    GateCountsEventOnce(cfg, obj, evt, pm);
    if !v.Selected? {
      e := Emitted(kre, table, None);
      return;
    }
    GateSelectedPeaksPresent(cfg, obj, evt, pm);
    GateRecordsFeatures(cfg, obj, evt, pm);
    e := EmitRows(cfg, run, evt, ts, pm.s1[evt], v.s1Peak, pm.s2[evt], pm.s2si[evt], v.s2Peaks, obj1, kre, table);
    RowsOfPeaksConsistent(e.table, |table|, run, evt, ts, cfg.driftV, obj1, v.s1Peak, pm.s2si[evt], v.s2Peaks);
  }

  /** Gating an event counts it once in n_tot and keeps the counters
      balanced. */
  lemma GateCountsEventOnce(cfg: Config, obj: Krypton, evt: int, pm: EventPmaps)
    requires ValidPmaps(pm, cfg.g)
    ensures Count(Gate(cfg, obj, evt, pm).1.counters, NTot) == Count(obj.counters, NTot) + 1
    ensures Balanced(obj.counters) ==> Balanced(Gate(cfg, obj, evt, pm).1.counters)
  {
    var r := Gate(cfg, obj, evt, pm);
    CountedCountsOnce(obj.counters, r.0, r.1.counters);
  }

  /** The peaks a selected event writes are peaks of its own maps. */
  lemma GateSelectedPeaksPresent(cfg: Config, obj: Krypton, evt: int, pm: EventPmaps)
    requires ValidPmaps(pm, cfg.g)
    requires Gate(cfg, obj, evt, pm).0.Selected?
    ensures evt in pm.s1 && evt in pm.s2 && evt in pm.s2si
    ensures Gate(cfg, obj, evt, pm).0.s1Peak in pm.s1[evt]
    ensures var peaks := Gate(cfg, obj, evt, pm).0.s2Peaks;
            forall j :: 0 <= j < |peaks| ==> peaks[j] in pm.s2[evt]
  {
    GateSelectedS1(cfg, obj, evt, pm);
    GateSelectedS2(cfg, obj, evt, pm);
  }

  /** Every row of a run of peak rows agrees on the run number and on Z, and
      carries the event number and timestamp it was written for. */
  lemma RowsOfPeaksConsistent(t: seq<KrIo.Row>, base: nat, run: int, evt: int, ts: int, v: real,
                              obj: Krypton, s1Peak: int, s2si: SiMap, peaks: seq<int>)
    requires RowsOfPeaks(t, base, run, evt, ts, v, obj, s1Peak, s2si, peaks)
    ensures forall j :: base <= j < |t| ==>
              RowConsistent(t[j], run, v) && t[j].event == evt && t[j].timestamp == ts
  {
    forall j | base <= j < |t|
      ensures RowConsistent(t[j], run, v) && t[j].event == evt && t[j].timestamp == ts
    {
      assert PeakRow(t, j, base, run, evt, ts, v, obj, s1Peak, s2si, peaks);
    }
  }

  // ---------------------------------------------------------------------------
  // run

  /** One input file: the event numbers and timestamps of its Run.events
      table, and its PMAPS. */
  datatype FileData = FileData(events: seq<int>, timestamps: seq<int>, pm: EventPmaps)

  /** Both columns come from one table, and the PMAPS satisfy the peak
      finder's promises. */
  predicate ValidFile(f: FileData, g: Geometry)
  {
    |f.timestamps| >= |f.events| && ValidPmaps(f.pm, g)
  }

  /** The number of events over all files. */
  function TotalEvents(files: seq<FileData>): nat
  {
    if |files| == 0 then 0
    else TotalEvents(files[..|files| - 1]) + |files[|files| - 1].events|
  }

  /** Reading the files in order never counts more events than they hold. */
  lemma {:induction false} TotalEventsPrefix(files: seq<FileData>, k: nat)
    requires k <= |files|
    ensures TotalEvents(files[..k]) <= TotalEvents(files)
    decreases |files|
  {
    if k < |files| {
      var front := files[..|files| - 1];
      assert files[..k] == front[..k];
      TotalEventsPrefix(front, k);
    } else {
      assert files[..k] == files;
    }
  }

  /** The event and timestamp are those of one entry of one file. */
  predicate FromFiles(evt: int, ts: int, files: seq<FileData>)
  {
    exists fi, i :: 0 <= fi < |files| && 0 <= i < |files[fi].events| && i < |files[fi].timestamps|
                    && files[fi].events[i] == evt && files[fi].timestamps[i] == ts
  }

  /** What `run` ends with: its return value, or the exception of the row
      loop that escaped it. */
  datatype RunResult = Returned(n: int) | Raised(error: KrError)

  /** Krypton.run: every event of every file is counted and gated, and each
      selected event writes one row per accepted S2 peak. The counter of
      events read is incremented before it is compared with nmax, so when
      1 <= nmax <= the number of events the call returns nmax after
      processing nmax - 1 events; otherwise it returns the number of events.
      Every row belongs to the run, has Z equal to the drift velocity times
      the drift time, and comes from an event of the files. */
  method Run(cfg: Config, run: int, files: seq<FileData>, nmax: int, obj0: Krypton)
    returns (result: RunResult, obj: Krypton, table: seq<KrIo.Row>)
    requires forall fi :: 0 <= fi < |files| ==> ValidFile(files[fi], cfg.g)
    ensures result.Returned? ==>
              result.n == (if 1 <= nmax <= TotalEvents(files) then nmax else TotalEvents(files))
    ensures result.Returned? ==>
              Count(obj.counters, NTot) == Count(obj0.counters, NTot)
                + (if 1 <= nmax <= TotalEvents(files) then nmax - 1 else TotalEvents(files))
    ensures Count(obj.counters, NTot) <= Count(obj0.counters, NTot) + TotalEvents(files)
    ensures Balanced(obj0.counters) ==> Balanced(obj.counters)
    ensures forall j :: 0 <= j < |table| ==>
              RowConsistent(table[j], run, cfg.driftV) && FromFiles(table[j].event, table[j].timestamp, files)
  {
    obj := obj0;
    table := [];
    var kre := KrIo.NewKrEvent(cfg.driftV);
    var n := 0;
    var fi := 0;
    while fi < |files|
      invariant 0 <= fi <= |files|
      invariant n == TotalEvents(files[..fi])
      invariant nmax < 1 || n < nmax
      invariant Count(obj.counters, NTot) == Count(obj0.counters, NTot) + n
      invariant Balanced(obj0.counters) ==> Balanced(obj.counters)
      invariant forall j :: 0 <= j < |table| ==>
                  RowConsistent(table[j], run, cfg.driftV) && FromFiles(table[j].event, table[j].timestamp, files)
    {
      var f := files[fi];
      assert TotalEvents(files[..fi + 1]) == n + |f.events| by {
        assert files[..fi + 1][..fi] == files[..fi];
      }
      TotalEventsPrefix(files, fi + 1);
      var i := 0;
      while i < |f.events|
        invariant 0 <= i <= |f.events|
        invariant n == TotalEvents(files[..fi]) + i
        invariant nmax < 1 || n < nmax
        invariant Count(obj.counters, NTot) == Count(obj0.counters, NTot) + n
        invariant Balanced(obj0.counters) ==> Balanced(obj.counters)
        invariant forall j :: 0 <= j < |table| ==>
                    RowConsistent(table[j], run, cfg.driftV) && FromFiles(table[j].event, table[j].timestamp, files)
      {
        n := n + 1;
        if n == nmax {
          result := Returned(nmax);
          return;
        }
        var evt := f.events[i];
        var ts := f.timestamps[i];
        var obj1, e := ProcessEvent(cfg, run, evt, ts, f.pm, obj, kre, table);
        forall j | 0 <= j < |e.table|
          ensures RowConsistent(e.table[j], run, cfg.driftV) && FromFiles(e.table[j].event, e.table[j].timestamp, files)
        {
          if j < |table| {
            assert e.table[j] == e.table[..|table|][j];
          } else {
            assert files[fi].events[i] == e.table[j].event && files[fi].timestamps[i] == e.table[j].timestamp;
          }
        }
        obj, kre, table := obj1, e.kre, e.table;
        if e.failure.Some? {
          result := Raised(e.failure.value);
          return;
        }
        i := i + 1;
      }
      fi := fi + 1;
    }
    assert files[..fi] == files;
    result := Returned(n);
  }
}
