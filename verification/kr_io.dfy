/** The krypton event record of the Kryptonite analysis and the table writer
    that turns it into one row of the KrEvent table per selected S2 peak. */
module KrIo {
  import opened Outcomes
  import opened Reductions
  import opened Pmaps
  import opened PmpFunctions

  /** The mutable record the analysis reuses for every row: each attribute is
      missing until its setter has run once. */
  datatype KrEvent = KrEvent(driftVelocity: real,
                             s1f: Option<S12Features>,
                             ns1: Option<int>,
                             nSipm: Option<int>,
                             s2f: Option<S12Features>,
                             p: Option<KrCoordinates>)

  /** KrEvent(drift_velocity): only the drift velocity is set. */
  function NewKrEvent(driftVelocity: real): (e: KrEvent)
    ensures e.driftVelocity == driftVelocity
    ensures !Complete(e)
  {
    KrEvent(driftVelocity, None, None, None, None, None)
  }

  /** Every attribute `store` reads has been set. */
  predicate Complete(e: KrEvent)
  {
    e.s1f.Some? && e.ns1.Some? && e.nSipm.Some? && e.s2f.Some? && e.p.Some?
  }

  /** add_s1_features: the features of S1 peak `peak`; nothing else changes. */
  function AddS1Features(e: KrEvent, s1: PeakMap, peak: int): (r: KrEvent)
    requires peak in s1 && WellFormed(s1[peak])
    ensures r.s1f == Some(Features(s1[peak]))
    ensures r.(s1f := e.s1f) == e
  {
    e.(s1f := Some(Features(s1[peak])))
  }

  /** add_ns1_pmt: the number of PMTs matching the S1; nothing else changes. */
  function AddNs1Pmt(e: KrEvent, nMatch: int): (r: KrEvent)
    ensures r.ns1 == Some(nMatch)
    ensures r.(ns1 := e.ns1) == e
  {
    e.(ns1 := Some(nMatch))
  }

  /** add_nsipm: the number of SiPMs that saw S2 peak `peak`; nothing else
      changes. */
  function AddNsipm(e: KrEvent, s2si: SiMap, peak: int): (r: KrEvent)
    requires peak in s2si
    ensures r.nSipm == Some(|s2si[peak].Keys|)
    ensures r.(nSipm := e.nSipm) == e
  {
    e.(nSipm := Some(|s2si[peak]|))
  }

  /** add_s2_features: the features of S2 peak `peak`; nothing else changes. */
  function AddS2Features(e: KrEvent, s2: PeakMap, peak: int): (r: KrEvent)
    requires peak in s2 && WellFormed(s2[peak])
    ensures r.s2f == Some(Features(s2[peak]))
    ensures r.(s2f := e.s2f) == e
  {
    e.(s2f := Some(Features(s2[peak])))
  }

  /** add_coordinates: the event coordinates; nothing else changes. */
  function AddCoordinates(e: KrEvent, krc: KrCoordinates): (r: KrEvent)
    ensures r.p == Some(krc)
    ensures r.(p := e.p) == e
  {
    e.(p := Some(krc))
  }

  /** One row of the KrEvent table, its twenty columns in table order. */
  datatype Row = Row(run: int, event: int, timestamp: int, peak: int,
                     s1Energy: real, s2Energy: real, s1Epeak: real, s2Epeak: real,
                     s1Tpeak: real, s2Tpeak: real, s1Width: real, s2Width: real,
                     nS1Pmt: int, nSipm: int,
                     qTp: real, x: real, y: real, z: real, r: real, phi: real)

  /** The row `store` fills from a complete record. */
  function RowOf(e: KrEvent, run: int, event: int, timestamp: int, peak: int): (row: Row)
    requires Complete(e)
    ensures (row.run, row.event, row.timestamp, row.peak) == (run, event, timestamp, peak)
    ensures (row.s1Energy, row.s1Epeak, row.s1Tpeak, row.s1Width)
            == (e.s1f.value.etot, e.s1f.value.epeak, e.s1f.value.tpeak, e.s1f.value.width)
    ensures (row.s2Energy, row.s2Epeak, row.s2Tpeak, row.s2Width)
            == (e.s2f.value.etot, e.s2f.value.epeak, e.s2f.value.tpeak, e.s2f.value.width)
    ensures row.nS1Pmt == e.ns1.value && row.nSipm == e.nSipm.value
    ensures (row.qTp, row.x, row.y, row.z, row.r, row.phi)
            == (e.p.value.q, e.p.value.x, e.p.value.y, e.p.value.z, e.p.value.r, e.p.value.phi)
  {
    var s1f := e.s1f.value;
    var s2f := e.s2f.value;
    var p := e.p.value;
    Row(run, event, timestamp, peak,
        s1f.etot, s2f.etot, s1f.epeak, s2f.epeak, s1f.tpeak, s2f.tpeak, s1f.width, s2f.width,
        e.ns1.value, e.nSipm.value, p.q, p.x, p.y, p.z, p.r, p.phi)
  }

  /** KrEvent.store: appends exactly one row to the table; the rows already
      written are kept. The source reads every attribute, so an attribute that
      was never set would raise. */
  function Store(e: KrEvent, table: seq<Row>, run: int, event: int, timestamp: int, peak: int)
    : (t: seq<Row>)
    requires Complete(e)
    ensures |t| == |table| + 1
    ensures t[..|table|] == table
    ensures t[|table|] == RowOf(e, run, event, timestamp, peak)
  {
    table + [RowOf(e, run, event, timestamp, peak)]
  }

  /** kr_writer.__call__(run_number, event_number, peak, timestamp, kr_event):
      forwards to store, which takes timestamp before peak. */
  function WriterCall(table: seq<Row>, run: int, event: int, peak: int, timestamp: int, e: KrEvent)
    : (t: seq<Row>)
    requires Complete(e)
    ensures |t| == |table| + 1 && t[..|table|] == table
    ensures t[|table|].peak == peak && t[|table|].timestamp == timestamp
    ensures t[|table|].run == run && t[|table|].event == event
  {
    Store(e, table, run, event, timestamp, peak)
  }

  /** The five setters the analysis calls before each row, in its order. */
  function FillEvent(e: KrEvent, s1: PeakMap, s1Peak: int, s2: PeakMap, s2si: SiMap, peak: int,
                     krc: KrCoordinates, nMatch: int): (r: KrEvent)
    requires s1Peak in s1 && WellFormed(s1[s1Peak])
    requires peak in s2 && WellFormed(s2[peak]) && peak in s2si
    ensures Complete(r)
    ensures r.driftVelocity == e.driftVelocity
  {
    var e1 := AddS1Features(e, s1, s1Peak);
    var e2 := AddS2Features(e1, s2, peak);
    var e3 := AddNsipm(e2, s2si, peak);
    var e4 := AddCoordinates(e3, krc);
    AddNs1Pmt(e4, nMatch)
  }

  /** Reusing one record for every row is safe: after the five setters the row
      written depends only on their arguments, not on what the record held
      before. */
  lemma ReusedRecordForgetsPreviousRow(a: KrEvent, b: KrEvent, s1: PeakMap, s1Peak: int,
                                       s2: PeakMap, s2si: SiMap, peak: int,
                                       krc: KrCoordinates, nMatch: int,
                                       run: int, event: int, timestamp: int)
    requires s1Peak in s1 && WellFormed(s1[s1Peak])
    requires peak in s2 && WellFormed(s2[peak]) && peak in s2si
    ensures RowOf(FillEvent(a, s1, s1Peak, s2, s2si, peak, krc, nMatch), run, event, timestamp, peak)
         == RowOf(FillEvent(b, s1, s1Peak, s2, s2si, peak, krc, nMatch), run, event, timestamp, peak)
  {
    var ea := FillEvent(a, s1, s1Peak, s2, s2si, peak, krc, nMatch);
    var eb := FillEvent(b, s1, s1Peak, s2, s2si, peak, krc, nMatch);
    assert (ea.s1f, ea.s2f, ea.nSipm, ea.p, ea.ns1) == (eb.s1f, eb.s2f, eb.nSipm, eb.p, eb.ns1);
  }

  /** Each column of the row written after the setters carries the value the
      corresponding setter was given. */
  lemma FilledRowColumns(e: KrEvent, s1: PeakMap, s1Peak: int, s2: PeakMap, s2si: SiMap, peak: int,
                         krc: KrCoordinates, nMatch: int,
                         table: seq<Row>, run: int, event: int, timestamp: int)
    requires s1Peak in s1 && WellFormed(s1[s1Peak])
    requires peak in s2 && WellFormed(s2[peak]) && peak in s2si
    ensures var t := WriterCall(table, run, event, peak, timestamp,
                                FillEvent(e, s1, s1Peak, s2, s2si, peak, krc, nMatch));
            var row := t[|table|];
            && row.s1Tpeak == Features(s1[s1Peak]).tpeak
            && row.s2Tpeak == Features(s2[peak]).tpeak
            && row.s1Energy == Sum(s1[s1Peak].e) && row.s2Energy == Sum(s2[peak].e)
            && row.nSipm == |s2si[peak]| && row.nS1Pmt == nMatch
            && (row.qTp, row.x, row.y, row.z, row.r, row.phi) == (krc.q, krc.x, krc.y, krc.z, krc.r, krc.phi)
  {
  }
}
