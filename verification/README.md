# Krypton analysis core, modelled in Dafny

This project models the event-selection and feature-extraction core of the
ICARO krypton analysis, along with several small helpers from the same
repository. The analysis works on per-event peak maps ("PMAPS"):
- peak number → (sample times, sample energies) for S1 and S2 signals;
- peak number → (SiPM id → charge samples) for the S2 tracking plane.

Two independent selectors work on these maps:

- **`S12Selector` / `KrSelector`** (`Dorothea.py`, module `Dorothea`):
  - half-open windows on sample count, height and energy;
  - an S2 ∩ SiPM peak intersection;
  - event-level multiplicity checks;
  - per-peak features and the KrTable rows of `write_evt`.
- **`Krypton`** (`kryptonite.py`, module `Kryptonite`):
  - inclusive width bounds above a threshold;
  - a fixed order of gating checks with named rejection counters;
  - per-peak row emission through the reused `KrEvent` record of `kr_io.py` (module `KrIo`);
  - the `nmax` cut-off of `run`.

Both use the helpers of `pmp_functions.py` (module `PmpFunctions`): peak
features, PMT matching, SiPM readout, drift time and event coordinates.

The smaller pieces are:
- `merge_NN_hits` of the tracking analysis (module `TrackingData`): the energy of NN hits goes to the nearest-Z non-NN hits, in proportion to their energies;
- the histogram step outline `_hist_outline` (module `GuiFunctions`);
- `relative_errors` and `gauss_seed` (module `FitFunctions`);
- the file-name derivations of the notebook uploader (module `UploadNb`).

Shared modules:
- `Outcomes`: `Option`, `Result`, and first-error collection of a loop.
- `Reductions`: `np.sum`, `np.max`, `np.min`, `np.argmax`, `loc_elem_1d`, weighted sums.
- `Pmaps`: peak maps, windows, SiPM geometry, ascending key order, and the uninterpreted floating-point functions.

Modelling conventions:
- **Numbers.** Energies, times and charges are `real`.
- **Unanalysed math.** `sqrt`, `arctan2`, π and the result of a float division by zero are uninterpreted parameters. They live in `Pmaps.Math`; `rootTwoPi` stands for (2π)**0.5.
- **Exceptions.** An exception the source raises on a reachable input becomes an `Err` value, for example:
  - `np.max` of an empty selection;
  - an empty SiPM dictionary;
  - zero weights in `np.average`;
  - a missing S2Si peak;
  - a missing event in `hits_all`;
  - zero receiver energy.
- **Upstream promises** become preconditions: non-empty aligned peaks from the peak finder, and SiPM ids inside the geometry.

## Model

| member | source | states |
|---|---|---|
| Outcomes.Collect | icaro/cities/Dorothea.py:264-292 | a loop that appends one result per item returns all values when every item succeeds, otherwise the error of the first failing item |
| Reductions.Max | icaro/cities/Dorothea.py:30 | np.max is an element of the array that no element exceeds |
| Reductions.FirstIndexOf | invisible_cities/Kryptonite/pmp_functions.py:67 | loc_elem_1d returns the first index holding the value |
| Reductions.ArgMax | icaro/cities/Dorothea.py:261 | np.argmax is the first index of the largest element: all entries are at most it, earlier ones strictly below |
| Pmaps.SortedKeys | icaro/cities/Dorothea.py:257 | sorted(d.items()) visits exactly the keys, each once, in strictly ascending order |
| Dorothea.MaskIndices | icaro/cities/Dorothea.py:28 | the in_range mask selects exactly the indices whose energy lies in [Hmin, Hmax), in ascending order |
| Dorothea.Gather | icaro/cities/Dorothea.py:34 | indexing (t, E) by a list of indices gives, at each position, the time and energy found at that index |
| Dorothea.InWindow | icaro/cities/Dorothea.py:28-34 | (t[sel], E[sel]) keeps, in order, exactly the (time, energy) pairs at the selected indices, so each kept energy is paired with its own time and lies in the height window |
| Dorothea.SelectPeaks | icaro/cities/Dorothea.py:22-35 | raises iff some peak's height mask selects nothing while the length window admits 0; otherwise keeps a peak iff its in-window samples are non-empty and their count, max and sum lie in their windows; a survivor holds exactly its in-window samples |
| Dorothea.SelectPeaksIdempotent | icaro/cities/Dorothea.py:22-35 | selecting the selected peaks again with the same cuts changes nothing |
| Dorothea.SelectPeaksFixed | icaro/cities/Dorothea.py:22-35 | a map of surviving, already in-window peaks is a fixed point of select_peaks |
| Dorothea.SurvivorStable | icaro/cities/Dorothea.py:27-34 | a survivor's in-window samples pass the same cuts again without raising |
| Dorothea.SelectSi | icaro/cities/Dorothea.py:37-43 | keeps exactly the peaks whose SiPM count n satisfies Nmin <= n < Nmax, values untouched |
| Dorothea.SelectS2 | icaro/cities/Dorothea.py:219-233 | the two returned maps have the same keys: the intersection of the S2 survivors and the SiPM-count survivors |
| Dorothea.SelectS2Survivors | icaro/cities/Dorothea.py:219-233 | a peak survives iff it is in both inputs, passes the S2 cuts and has an admissible SiPM count |
| Dorothea.Span | icaro/cities/Dorothea.py:240-242 | the width max(t) - min(t) is the largest difference of two sample times, attained and non-negative |
| Dorothea.SpanOfOrderedTimes | icaro/cities/Dorothea.py:240-242 | on time-ordered samples the selector's width equals s12_features' width t[-1] - t[0] |
| Dorothea.IntegrateCharge | icaro/cities/Dorothea.py:235-238 | one (id, summed charge) pair per SiPM, ids ascending; an empty SiPM dict raises |
| Dorothea.IntegrateChargeAgreesWithReadout | icaro/cities/Dorothea.py:235-238 | the charges and looked-up positions agree with charge_and_position_from_S2Si |
| Pmaps.Lookup | icaro/cities/Dorothea.py:271-272 | fancy indexing xs[IDs] gives position i the coordinate of SiPM IDs[i] |
| Dorothea.SummarizeSipms | icaro/cities/Dorothea.py:270-287 | raises iff there are no SiPMs or their charges sum to zero; otherwise Nsipm is the SiPM count, Q the charge sum, X, Y the charge-weighted SiPM positions, Xrms, Yrms the root of the charge-weighted squared spread about X, Y over Q - 1, R the distance of (X, Y) from the axis and Phi its arctan2 angle |
| Dorothea.S2PositionWithinSipms | icaro/cities/Dorothea.py:273-274 | with non-negative charges the S2 position lies within the span of its SiPMs' positions |
| Dorothea.SquaredSpreadNonNegative | icaro/cities/Dorothea.py:283-284 | with non-negative charges the charge-weighted squared spread under the Xrms/Yrms root is non-negative |
| Dorothea.SipmSpreadsNonNegative | icaro/cities/Dorothea.py:270-284 | with non-negative SiPM charges both sums under the Xrms and Yrms roots of a summary are non-negative |
| Dorothea.DriftAndDepth | icaro/cities/Dorothea.py:289-292 | with an S1, DT is the S2 time minus the last S1 time in microseconds and Z is that difference times drift_v; with no S1 the difference is -1, so DT is -ns/µs and Z is -drift_v |
| Dorothea.DriftDistanceMatchesDriftTime | icaro/cities/Dorothea.py:289-292 | Z and DT come from the same time difference: Z·(ns/µs) = DT·drift_v, and DT recovers the time difference |
| Dorothea.S2EntryOf | icaro/cities/Dorothea.py:264-292 | an S2 entry raises iff its SiPM summary raises; otherwise it carries the peak's width (max(t) - min(t) in µs), time, energy and height, all eight SiPM-summary fields (Nsipm, Q, X, Y, Xrms, Yrms, R, Phi), and its DT and Z |
| Dorothea.S1Entries | icaro/cities/Dorothea.py:256-261 | one S1 entry per key, in key order |
| Dorothea.S2List | icaro/cities/Dorothea.py:263-292 | succeeds iff every S2 peak's SiPM summary succeeds; entry i is then exactly the entry of the i-th peak by ascending number (every field as S2EntryOf states), with its width in µs, time, energy, SiPM count, DT and Z |
| Dorothea.S2ResultsOk | icaro/cities/Dorothea.py:264-292 | every S2 peak yields an entry iff every SiPM summary succeeds |
| Dorothea.S2EntriesFacts | icaro/cities/Dorothea.py:264-292 | each collected S2 entry is exactly its own peak's entry, so it records that peak's width in µs, time, energy, SiPM count, DT and Z |
| Dorothea.AssembleEvent | icaro/cities/Dorothea.py:256-292 | S1 entries by ascending peak, then S2 entries by ascending peak, each drift time against the last S1 |
| Dorothea.LastTime | icaro/cities/Dorothea.py:289 | evt.S1t[-1] exists iff the S1 list is non-empty |
| Dorothea.SelectEvent | icaro/cities/Dorothea.py:244-294 | errors of the cuts propagate; (False, None) iff the cuts pass but the S1 or S2 count is outside its window; a kept event is assembled from the surviving peaks |
| Dorothea.WriteEvt | icaro/cities/Dorothea.py:363-390 | exactly nS2 rows; row i has peak i, S2 entry i (features and position), S1 entry 0, and the event's number, time and nS2 |
| Dorothea.ReadBack | icaro/cities/Dorothea.py:363-390 | reads back one S1 entry and one S2 entry per row |
| Dorothea.WriteEvtRoundTrip | icaro/cities/Dorothea.py:363-390 | an event with one S1 and nS2 > 0 S2 entries is recovered exactly from its rows |
| Dorothea.KrSelectorCuts | icaro/cities/Dorothea.py:329-350 | the S1 count window admits exactly 1; the S2 window admits n >= 1 below S2_Nmax; the other cuts pass through |
| Dorothea.WrittenDefaultRejectsAll | icaro/cities/Dorothea.py:319-342 | with the default S2_Nmax = 1 every event is rejected or raises |
| Dorothea.IntendedDefaultAdmitsSinglePeaks | icaro/cities/Dorothea.py:319-342 | with S2_Nmax = 2 every kept event has exactly one S1 and one S2 peak |
| Dorothea.IntendedDefaultDropsOtherCounts | icaro/cities/Dorothea.py:319-342 | with S2_Nmax = 2 an event whose cuts succeed is dropped iff other than one S1 and one S2 peak survive |
| Dorothea.KrSelectorRows | icaro/cities/Dorothea.py:363-390 | every event KrSelector keeps can be written, gives one row per S2 peak, and is recovered from its rows |
| PmpFunctions.Features | invisible_cities/Kryptonite/pmp_functions.py:59-76 | tmin and tmax are the first and last times, width is their difference, epeak is the largest energy, etot the sum, tpeak the time of a sample at epeak |
| PmpFunctions.FeaturesPeakTimeIsArgMax | invisible_cities/Kryptonite/pmp_functions.py:65-68 | tpeak is the time at np.argmax of the energies |
| PmpFunctions.PmtMatches | invisible_cities/Kryptonite/pmp_functions.py:50-55 | the scan finds a match iff some peak of the PMT starts strictly within tol of the S1 start |
| PmpFunctions.CompareS1 | invisible_cities/Kryptonite/pmp_functions.py:35-56 | the count is the number of PMTs with a peak starting within tol of the S1 start, so never more than the PMTs that have peaks |
| PmpFunctions.ChargeAndPosition | invisible_cities/Kryptonite/pmp_functions.py:79-91 | one (x, y, Q) triple per SiPM of the peak: its geometry position and summed charge |
| PmpFunctions.ReadoutListsEachSipmOnce | invisible_cities/Kryptonite/pmp_functions.py:79-91 | every SiPM of the peak appears exactly once in the readout |
| PmpFunctions.DriftTime | invisible_cities/Kryptonite/pmp_functions.py:94-102 | the S1 peak time plus the drift time is the S2 peak time |
| PmpFunctions.KrCoords | invisible_cities/Kryptonite/pmp_functions.py:104-115 | z = dt·v and Q is the charge sum; x, y, r, phi are -9999 when no charge is non-zero; raises iff some charge is non-zero but they sum to 0 |
| PmpFunctions.WeightedAverageBounds | invisible_cities/Kryptonite/pmp_functions.py:108-109 | with non-negative weights, one non-zero, the weighted average lies between the smallest and largest value |
| PmpFunctions.KrCoordsWithinSensorSpan | invisible_cities/Kryptonite/pmp_functions.py:104-115 | with non-negative charges, one non-zero, x and y lie within the span of the SiPM coordinates |
| KrIo.NewKrEvent | icaro/core/kr_io.py:88-89 | a new record holds only the drift velocity and is not yet storable |
| KrIo.AddS1Features | icaro/core/kr_io.py:117-118 | sets the S1 features of the given peak; nothing else changes |
| KrIo.AddNs1Pmt | icaro/core/kr_io.py:120-121 | sets the PMT match count; nothing else changes |
| KrIo.AddNsipm | icaro/core/kr_io.py:123-124 | sets the SiPM count to the number of keys of the peak's SiPM map; nothing else changes |
| KrIo.AddS2Features | icaro/core/kr_io.py:126-127 | sets the S2 features of the given peak; nothing else changes |
| KrIo.AddCoordinates | icaro/core/kr_io.py:129-130 | sets the coordinates; nothing else changes |
| KrIo.RowOf | icaro/core/kr_io.py:91-113 | every column of the row carries the corresponding record attribute, with run, event, timestamp and peak from the arguments |
| KrIo.Store | icaro/core/kr_io.py:91-115 | appends exactly one row and keeps the rows already written |
| KrIo.WriterCall | icaro/core/kr_io.py:43-46 | the writer forwards run, event, peak and timestamp to the right columns, despite store's different argument order |
| KrIo.FillEvent | icaro/Kryptonite/kryptonite.py:206-210 | after the five setters the record is complete and keeps its drift velocity |
| KrIo.ReusedRecordForgetsPreviousRow | icaro/Kryptonite/kryptonite.py:206-213 | the row written after the setters does not depend on what the reused record held before |
| KrIo.FilledRowColumns | icaro/core/kr_io.py:91-115 | the row's times, energies, SiPM count, PMT count and coordinates are the setters' arguments |
| Kryptonite.Increment | icaro/Kryptonite/kryptonite.py:56-58 | the named counter grows by one from its defaultdict value; every other counter is unchanged |
| Kryptonite.Above | icaro/Kryptonite/kryptonite.py:71 | E[E > thr] keeps only energies strictly above the threshold |
| Kryptonite.AboveCountsSamples | icaro/Kryptonite/kryptonite.py:71 | len(E2) is the number of samples strictly above the threshold |
| Kryptonite.PassingPeaks | icaro/Kryptonite/kryptonite.py:69-74 | a peak is listed iff its above-threshold count lies in [lmin, lmax], in key order |
| Kryptonite.SelectPeaksK | icaro/Kryptonite/kryptonite.py:61-76 | features are recorded for every peak, rejected ones included; a peak is returned iff its above-threshold count lies in [lmin, lmax], ascending |
| Kryptonite.RecordFeatures | icaro/Kryptonite/kryptonite.py:69-70 | every peak of the event gets fresh features; entries of other peaks are kept |
| Kryptonite.SelectS1 | icaro/Kryptonite/kryptonite.py:78-86 | True iff exactly one peak passes; the survivor list is returned either way |
| Kryptonite.SelectS2 | icaro/Kryptonite/kryptonite.py:88-96 | bounds are the S2 parameters divided by 40; True iff 1 to s2_multiplicity peaks pass |
| Kryptonite.IncrementAll | icaro/Kryptonite/kryptonite.py:56-58 | incrementing a list of names raises exactly those counters by one each |
| Kryptonite.Counted | icaro/Kryptonite/kryptonite.py:126-172 | a verdict increments exactly the counters the source increments on that path |
| Kryptonite.CountedKeepsBalance | icaro/Kryptonite/kryptonite.py:126-172 | every verdict counts the event once in n_tot and keeps every counted event in exactly one outcome at each stage |
| Kryptonite.Gate | icaro/Kryptonite/kryptonite.py:130-172 | the counters follow the verdict; the event stops as not_s1 iff it has no S1 map |
| Kryptonite.GateS1Check | icaro/Kryptonite/kryptonite.py:142-148 | an event with S1 peaks stops at the S1 check iff the number of passing S1 peaks is not one |
| Kryptonite.GateS2Checks | icaro/Kryptonite/kryptonite.py:142-172 | after exactly one S1 peak passed, the event stops at not_s2, s2_not_eq_s2_mult or not_si iff, respectively, the S2 map is missing, the passing S2 count is outside 1..s2_multiplicity, or the count is inside and the S2Si map is missing |
| Kryptonite.GateSelectedS1 | icaro/Kryptonite/kryptonite.py:142-149 | a selected event has exactly one passing S1 peak, and its rows use that peak |
| Kryptonite.GateSelectedS2 | icaro/Kryptonite/kryptonite.py:151-172 | a selected event has S2 and S2Si maps and 1 to s2_multiplicity passing S2 peaks, which it writes |
| Kryptonite.GateS2 | icaro/Kryptonite/kryptonite.py:151-172 | after one S1 peak passed: not_s2 iff the S2 map is missing; s2_not_eq_s2_mult iff the S2 map is present and the passing S2 count is outside 1..s2_multiplicity; not_si iff the count is inside but the S2Si map is missing; selected iff none of these; the counters follow the verdict |
| Kryptonite.GateRecordsFeatures | icaro/Kryptonite/kryptonite.py:142-158 | a selected event finds its own peaks' current features in s1f and s2f |
| Kryptonite.GateCountsEventOnce | icaro/Kryptonite/kryptonite.py:126-172 | gating counts the event once in n_tot and keeps the counters balanced |
| Kryptonite.GateSelectedPeaksPresent | icaro/Kryptonite/kryptonite.py:135-172 | the peaks a selected event writes are peaks of its own maps |
| Kryptonite.PeakCoordinates | icaro/Kryptonite/kryptonite.py:189-201 | z is the drift velocity times the S2 peak time measured from the S1 peak time |
| Kryptonite.WriteRow | icaro/Kryptonite/kryptonite.py:206-213 | the setters and the writer append exactly the row of this peak, keeping earlier rows |
| Kryptonite.FilledRowOfPeak | icaro/Kryptonite/kryptonite.py:206-213 | the row written after the setters is the row of the peak, with the S1 and S2 features and the SiPM count |
| Kryptonite.EmitOne | icaro/Kryptonite/kryptonite.py:175-213 | one peak appends its row, or raises with the table unchanged; it raises on a missing SiPM peak iff that peak is absent from S2Si |
| Kryptonite.EmitRows | icaro/Kryptonite/kryptonite.py:175-213 | one row per peak, in order, until the first raising peak; all rows are written iff none raises |
| Kryptonite.RowsOfPeaksConsistent | icaro/Kryptonite/kryptonite.py:175-213 | every emitted row has the run number, no PMT count, consistent Z, and its event and timestamp |
| Kryptonite.ProcessEvent | icaro/Kryptonite/kryptonite.py:126-213 | counters follow the gate; a rejected event writes nothing; a selected one writes a row per S2 peak until a raise; earlier rows are kept |
| Kryptonite.TotalEventsPrefix | icaro/Kryptonite/kryptonite.py:110-126 | the events of the first files never outnumber those of all files |
| Kryptonite.Run | icaro/Kryptonite/kryptonite.py:99-215 | returns nmax (after nmax - 1 events) when 1 <= nmax <= the event total, else the total; n_tot grows accordingly; counters stay balanced; every row comes from an event of the files with consistent Z |
| TrackingData.Scan | icaro/analysis/Th/tracking_data_df.py:44-53 | after n hits the running minimum is at most every distance seen, and the list holds exactly the hits at it, in order |
| TrackingData.Receivers | icaro/analysis/Th/tracking_data_df.py:44-53 | h_add holds exactly the hits at minimum Z distance, ties included, in order, each once; non-empty for a non-empty collection |
| TrackingData.ScanAttained | icaro/analysis/Th/tracking_data_df.py:44-53 | the reported minimum distance is attained by some hit |
| TrackingData.Donate | icaro/analysis/Th/tracking_data_df.py:56-57 | only energies change, and only those of receivers |
| TrackingData.DonateShares | icaro/analysis/Th/tracking_data_df.py:55-57 | each receiver gains exactly its proportional share of the donor's energy |
| TrackingData.DonateAddsShares | icaro/analysis/Th/tracking_data_df.py:55-57 | the event's energy grows by the donor's energy times the receivers' energy over hadd_etot |
| TrackingData.Absorb | icaro/analysis/Th/tracking_data_df.py:42-57 | fails iff the collection is non-empty with zero receiver energy; otherwise non-nearest hits are unchanged and only energies change |
| TrackingData.AbsorbConservesEnergy | icaro/analysis/Th/tracking_data_df.py:42-57 | one donation adds exactly the donor's energy to a non-empty collection and nothing to an empty one |
| TrackingData.AbsorbShares | icaro/analysis/Th/tracking_data_df.py:55-57 | every receiver gains its own energy's share of the donor's energy |
| TrackingData.MergeEvent | icaro/analysis/Th/tracking_data_df.py:39-57 | only energies change, also when the loop raises (the donations made before stay); an empty collection is returned unchanged; the only failure is zero receiver energy of a non-empty collection |
| TrackingData.MergeEventConservesEnergy | icaro/analysis/Th/tracking_data_df.py:41-57 | after the merge the non-NN hits carry their energy plus all NN energy, unless there are no non-NN hits |
| TrackingData.MergeEventStopsAt | icaro/analysis/Th/tracking_data_df.py:39-57 | a merge that raises stops at an NN donor that cannot donate to the hits as they stand, and those hits are the exception-free merge of the donors before it |
| TrackingData.MergeEventPartialEnergy | icaro/analysis/Th/tracking_data_df.py:39-57 | after a merge that raises the hits carry their own energy plus that of every NN donor before the one that raised |
| TrackingData.AbsorbSingle | icaro/analysis/Th/tracking_data_df.py:54-57 | with a single receiver the donation raises iff its energy is zero, and otherwise the receiver gains the donor's whole energy |
| TrackingData.MergeEvents | icaro/analysis/Th/tracking_data_df.py:37-57 | events outside the visited keys are untouched; a missing event is reported only for a visited key absent from hits_all, zero receiver energy only for one present in it; the event that raises keeps its earlier donations |
| TrackingData.MergeNN | icaro/analysis/Th/tracking_data_df.py:34-57 | same events as hits_nonNN; success implies every event exists in hits_all |
| TrackingData.MergeEventsPerEvent | icaro/analysis/Th/tracking_data_df.py:37-57 | without an exception each event holds its own merge, computed from its original hits |
| TrackingData.MergeEventsStopsAt | icaro/analysis/Th/tracking_data_df.py:37-57 | with an exception the loop stopped at one visited event: the events before it hold their own merges, the raising event holds its donations made before the exception (its original hits when it is missing from hits_all), the events after it are untouched |
| TrackingData.MergeEventsFailingEvent | icaro/analysis/Th/tracking_data_df.py:37-57 | the raising event is identified, holds its partial merge, and the events after it are untouched |
| TrackingData.MergeEventsBeforeFailure | icaro/analysis/Th/tracking_data_df.py:37-57 | the events visited before the raising one hold their own exception-free merges |
| TrackingData.MergeEventsFirstPasses | icaro/analysis/Th/tracking_data_df.py:37-39 | when a later event raises, the first visited event exists in hits_all and its merge does not raise |
| TrackingData.MergeKeepsEarlierDonations | icaro/analysis/Th/tracking_data_df.py:37-57 | hits_nonNN {0: [E=1 at Z=0, E=0 at Z=10]} with NN hits of energy 5 at Z=0 then Z=10: the run raises zero receiver energy and the first hit keeps its raised energy 6 |
| GuiFunctions.HistOutline | icaro/core/gui_functions.py:18-34 | bins[2bb+1] = binsIn[bb] and bins[2bb+2] = binsIn[bb] + step; data[2bb+1] = data[2bb+2] = histIn[bb]; data is zero at the ends and beyond the histogram; bins[0] = bins[1] and bins[-1] = bins[-2] |
| GuiFunctions.OutlineLayout | icaro/core/gui_functions.py:18-32 | the reference arrays hold, slot by slot, the layout listed for HistOutline |
| GuiFunctions.UnoutlineInvertsOutline | icaro/core/gui_functions.py:20-27 | for len(histIn) = len(binsIn) - 1 the edges and contents are read back exactly from the outline |
| GuiFunctions.OutlineIsStaircase | icaro/core/gui_functions.py:22-30 | each bin's two slots share a level; with evenly spaced edges the slots across an edge share x, and a non-negative step gives non-decreasing x |
| FitFunctions.ErrorScale | icaro/core/fit_functions.py:50 | the scale is 100 iff percentual, otherwise 1 |
| FitFunctions.RelativeErrors | icaro/core/fit_functions.py:42-54 | same length as values; zero values get default; others satisfy rel·\|value\| = error·scale |
| FitFunctions.RelativeErrorsRecoverErrors | icaro/core/fit_functions.py:52 | the errors are recovered from the relative errors wherever the value is non-zero |
| FitFunctions.PercentualIsHundredfold | icaro/core/fit_functions.py:50-53 | the percentual result is 100 times the plain one on non-zero values and equal to it elsewhere |
| FitFunctions.GaussSeedAsWritten | icaro/core/fit_functions.py:19-28 | raises iff y has fewer than two bins; mu is x at the first maximum; sigma = sigma_rel·mu; amp is built from the argmax index |
| FitFunctions.AsWrittenIgnoresPeakHeight | icaro/core/fit_functions.py:23-26 | x = [1, 2], y = [5, 1] gets amp 0 as written but a positive amp when built from the bin content |
| FitFunctions.GaussSeed | icaro/core/fit_functions.py:19-28 | as written, but amp is built from the content of the highest bin |
| FitFunctions.GaussSeedScales | icaro/core/fit_functions.py:23-26 | scaling the histogram by c > 0 keeps mu and sigma and scales amp by c |
| UploadNb.Before | upload_nb.py:24 | split(sep)[0] is the prefix before the first occurrence of sep, or the whole text |
| UploadNb.AfterLast | upload_nb.py:25 | split('/')[-1] is the suffix after the last '/', or the whole text |
| UploadNb.HtmlName | upload_nb.py:24 | the html name is the text before the first ".ipynb" followed by ".html" |
| UploadNb.LocalName | upload_nb.py:25 | the local copy name contains no '/' |
| UploadNb.TagHtml | upload_nb.py:47 | the tagged name is the dot-free text before the first "." plus "_" + tag + ".html" |
| UploadNb.NbToHtml | upload_nb.py:37-38 | nb_to_html returns tag_html of the base name, so without '/' in the tag the result has no '/' |
| UploadNb.UploadNotebook | upload_nb.py:58-77 | the notebook path is path_to_nb + nb_name with no separator; the scp source is IC_DATA/tagged; the target is server:/data/icgallery/public/ + gallery_dir |
| UploadNb.HtmlNameOfPlainPath | upload_nb.py:24 | a path without a dot before ".ipynb" converts to the same path with ".html" |
| UploadNb.TagDropsAfterFirstDot | upload_nb.py:47 | everything after the first dot is dropped: stem.anything tags to stem_tag.html |
| UploadNb.LocalNameOfPlainPath | upload_nb.py:24-25 | dir/stem.ipynb gives the local copy stem.html, whatever the directory |
| UploadNb.NbToHtmlOfPlainPath | upload_nb.py:24-47 | dir/stem.ipynb ends up as stem_tag.html |
| UploadNb.UploadSendsTaggedFile | upload_nb.py:62-77 | the last component of the scp source is the tagged name |

## Left out

- HDF5 and PyTables I/O is not modelled. This covers table creation, column types, `kr_writer` file handling and `_make_kr_table`. It also covers `load_pmaps`, `load_db` and opening input files. Tables are sequences of rows, and each file's events, timestamps and PMAPS are inputs.
- Column widths and Float32 truncation on write are not modelled: all columns are unbounded integers or reals. This includes the Int16 `peak` and Int32 `event` columns.
- Floating-point rounding, NaN and infinity are not modelled. The values of sqrt, arctan2, π and (2π)**0.5 are uninterpreted parameters. A float division by zero in the Xrms/Yrms formula is an uninterpreted `divByZero` value.
- Dictionary iteration order is modelled as ascending key order wherever it is observable. This covers the survivor lists of `select_peaks_`, the SiPM order of the readouts, and the event order of `merge_NN_hits`. The source iterates in insertion order, and the upstream maps are filled in ascending order.
- `in_range` is taken as the half-open window [lo, hi). Its definition is not part of this model.
- Printing, the `verbose` levels and the `printout` progress messages are not modelled. The messages have no effect on results, but the modulo that decides when to print does (next line).
- `Krypton.run` reads `run_number`, which `run` does not define; only the module's script defines it. The model takes the run number as a parameter.
- `Krypton.run` always calls `add_ns1_pmt(0)`, so `compare_S1` does not feed the rows. It is modelled on its own.
- The Dorothea `KrSelector.run` loop and the `DSTCity` constructor are file plumbing and are not modelled. The selector is modelled from `select_event` and `write_evt` on one event. The unit constants (`units.ns / units.mus`) and the drift velocity are real parameters.
- Dorothea's `KrEvent` sets `evt.event` while `__init__` sets `evt.evt`. Only the attributes `write_evt` reads are modelled.
- `merge_NN_hits` is modelled with these assumptions:
  - Each `Hit` is a value. The model assumes the NN hits of `hits_all` are not the same objects as the hits of `hits_nonNN`, so aliasing between the two collections is not modelled.
  - `ha.E` and `ha.energy` are one attribute.
  - A division by zero receiver energy is modelled as an exception that ends the loop. Python floats raise there; numpy scalars would give nan/inf instead. The donations made in place before the exception stay in the hits, and the model keeps them.
- `_hist_outline` starts from the output of `np.histogram`, whose binning (`bins='auto'`) is not modelled.
- `relative_errors` computes in real arithmetic. The integer truncation that `np.empty_like` would apply to integer `values` is not modelled.
- `upload_nb.py` effects are not modelled: the jupyter, cp, rm and scp subprocess calls, the clock, and `os.environ`. The date tag and IC_DATA are parameters. The derived names are modelled, but not where files end up: the html copy is made in the working directory while the upload reads it from IC_DATA.
- The uploader's separators are the literals ".ipynb", "." and "/". `UploadNb.Before` therefore requires a non-empty separator, as Python's `split` does.
- Kryptonite.Run: states the return value, the n_tot count, balanced counters and the provenance and consistency of every row. It does not state the exact row sequence; EmitRows and ProcessEvent state that per event.
- Kryptonite.Run: `printout` is assumed non-zero. `run` evaluates `n_events_tot % printout` for every event, so `printout = 0` raises ZeroDivisionError on the first event, after it has been counted in n_tot.
- Kryptonite.Run: the `nmax` check happens before the event is counted or gated, so when 1 <= nmax <= the event total, `run` returns nmax after processing only nmax - 1 events. This is modelled as written; whether nmax - 1 was intended is not clear.

## Findings

| source | as written | input that shows it | evidently intended | confidence | as-written member | corrected member |
|---|---|---|---|---|---|---|
| icaro/cities/Dorothea.py:319-342 | KrSelector defaults `S2_Nmax = 1` while fixing `S2_Nmin = 1`, so the S2 count window [1, 1) is empty | any event, e.g. one S1 and one S2 peak passing all cuts, is rejected under the default | a default that admits a single S2 peak (`S2_Nmax = 2`), mirroring `S1_Nmin = 1, S1_Nmax = 2` | medium, not executed | Dorothea.WrittenDefaultRejectsAll | Dorothea.IntendedDefaultAdmitsSinglePeaks, Dorothea.IntendedDefaultDropsOtherCounts |
| icaro/core/fit_functions.py:23-26 | `amp` is built from `y_max = np.argmax(y)`, the index of the highest bin | x = [1, 2], y = [5, 1] gives amp 0 however tall the first bin is | amp built from the content y[argmax] of the highest bin. Whether the bin-spacing factor belongs there is uncertain, so it is kept as written | low, not executed | FitFunctions.GaussSeedAsWritten | FitFunctions.GaussSeed |
