/** merge_NN_hits of the tracking analysis: the energy of every hit whose
    charge is the NN marker is handed to the non-NN hits of the same event
    nearest to it in Z, in proportion to their own energies. */
module TrackingData {
  import opened Outcomes
  import opened Reductions
  import opened Pmaps

  /** A hit's charge: the NN marker of a hit with no SiPM position, or a
      measured value. */
  datatype Charge = NN | Measured(q: real)

  /** The fields of a reconstructed hit the merge reads or writes. */
  datatype Hit = Hit(x: real, y: real, z: real, q: Charge, e: real)

  /** Event number -> the hits of its HitCollection. */
  type Collections = map<int, seq<Hit>>

  /** The energies of a list of hits. */
  function Energies(hits: seq<Hit>): (r: seq<real>)
    ensures |r| == |hits| && forall i :: 0 <= i < |hits| ==> r[i] == hits[i].e
  {
    seq(|hits|, i requires 0 <= i < |hits| => hits[i].e)
  }

  /** The distance in Z between a donor at height `z` and a hit. */
  function ZDistance(z: real, h: Hit): real
  {
    Abs(z - h.z)
  }

  /** Hit `i` is at the smallest Z distance from `z` among all the hits. */
  predicate Nearest(hits: seq<Hit>, z: real, i: int)
  {
    && 0 <= i < |hits|
    && forall j :: 0 <= j < |hits| ==> ZDistance(z, hits[i]) <= ZDistance(z, hits[j])
  }

  /** Indices listed in increasing order, each at most once. */
  predicate Increasing(s: seq<int>)
  {
    forall a, b :: 0 <= a < b < |s| ==> s[a] < s[b]
  }

  /** The search loop over `hc.hits` after its first `n` hits: the smallest
      distance so far (-1 before any hit) and the hits found at it, in
      order. A strictly smaller distance restarts the list; an equal one
      extends it. */
  function Scan(z: real, hits: seq<Hit>, n: nat): (r: (real, seq<int>))
    requires n <= |hits|
    ensures n == 0 ==> r.0 == -1.0 && |r.1| == 0
    ensures n > 0 ==> r.0 >= 0.0 && forall j :: 0 <= j < n ==> r.0 <= ZDistance(z, hits[j])
    ensures forall i :: i in r.1 <==> 0 <= i < n && ZDistance(z, hits[i]) == r.0
    ensures Increasing(r.1)
  {
    if n == 0 then (-1.0, [])
    else
      var (dmin, add) := Scan(z, hits, n - 1);
      var d := ZDistance(z, hits[n - 1]);
      if dmin < 0.0 || d < dmin then (d, [n - 1])
      else if d == dmin then
        assert forall k :: 0 <= k < |add| ==> add[k] < n - 1 by {
          forall k | 0 <= k < |add|
            ensures add[k] < n - 1
          {
            assert add[k] in add;
          }
        }
        (dmin, add + [n - 1])
      else (dmin, add)
  }

  /** h_add: every non-NN hit at the minimum Z distance from the donor, ties
      included, in the order of the collection; none when it is empty. */
  function Receivers(z: real, hits: seq<Hit>): (r: seq<int>)
    ensures forall i :: i in r <==> Nearest(hits, z, i)
    ensures forall k :: 0 <= k < |r| ==> 0 <= r[k] < |hits|
    ensures Increasing(r)
    ensures |hits| > 0 ==> |r| > 0
  {
    var add := Scan(z, hits, |hits|).1;
    assert forall k :: 0 <= k < |add| ==> add[k] in add;
    if |hits| == 0 then add
    else
      ScanAttained(z, hits, |hits|);
      add
  }

  /** Some hit attains the smallest distance the scan reports. */
  lemma {:induction false} ScanAttained(z: real, hits: seq<Hit>, n: nat)
    requires 0 < n <= |hits|
    ensures exists j :: 0 <= j < n && ZDistance(z, hits[j]) == Scan(z, hits, n).0
  {
    var (dmin, add) := Scan(z, hits, n - 1);
    var d := ZDistance(z, hits[n - 1]);
    if n - 1 > 0 && !(d < dmin) {
      ScanAttained(z, hits, n - 1);
    }
  }

  /** hadd_etot: the summed energy of the receivers, in list order. */
  function ReceiverEnergy(hits: seq<Hit>, add: seq<int>): real
    requires forall k :: 0 <= k < |add| ==> 0 <= add[k] < |hits|
  {
    if |add| == 0 then 0.0 else hits[add[0]].e + ReceiverEnergy(hits, add[1..])
  }

  /** The `for ha in h_add` loop: each receiver in turn gains
      donorE * (its energy / tot); no other field and no other hit changes. */
  function Donate(hits: seq<Hit>, add: seq<int>, donorE: real, tot: real): (r: seq<Hit>)
    requires forall k :: 0 <= k < |add| ==> 0 <= add[k] < |hits|
    requires tot != 0.0
    ensures |r| == |hits|
    ensures forall i :: 0 <= i < |hits| ==> r[i].(e := hits[i].e) == hits[i]
    ensures forall i :: 0 <= i < |hits| && i !in add ==> r[i] == hits[i]
    decreases |add|
  {
    if |add| == 0 then hits
    else Donate(hits[add[0] := Give(hits[add[0]], donorE, tot)], add[1..], donorE, tot)
  }

  /** h1.E * (ha.E / hadd_etot): the part of the donor's energy a receiver
      with energy `e` gets. */
  function Share(donorE: real, e: real, tot: real): real
    requires tot != 0.0
  {
    donorE * (e / tot)
  }

  /** A receiver after one donation: its energy grows by its share of the
      donor's energy; every other field is kept. */
  function Give(h: Hit, donorE: real, tot: real): (r: Hit)
    requires tot != 0.0
    ensures r.(e := h.e) == h
  {
    h.(e := h.e + Share(donorE, h.e, tot))
  }

  /** Each receiver, listed once, gains exactly its proportional share of the
      donor's energy. */
  lemma {:induction false} DonateShares(hits: seq<Hit>, add: seq<int>, donorE: real, tot: real)
    requires forall k :: 0 <= k < |add| ==> 0 <= add[k] < |hits|
    requires Increasing(add)
    requires tot != 0.0
    ensures forall k :: 0 <= k < |add| ==>
              Donate(hits, add, donorE, tot)[add[k]] == Give(hits[add[k]], donorE, tot)
    decreases |add|
  {
    if |add| > 0 {
      var i := add[0];
      var hits1 := hits[i := Give(hits[i], donorE, tot)];
      var rest := add[1..];
      var r := Donate(hits1, rest, donorE, tot);
      DonateShares(hits1, rest, donorE, tot);
      forall k | 0 <= k < |add|
        ensures r[add[k]] == Give(hits[add[k]], donorE, tot)
      {
        if k == 0 {
          assert i !in rest by {
            forall m | 0 <= m < |rest|
              ensures rest[m] != i
            {
              assert rest[m] == add[m + 1];
            }
          }
          assert r[i] == hits1[i];
        } else {
          assert add[k] == rest[k - 1];
          assert add[0] < add[k];
          assert hits1[add[k]] == hits[add[k]];
        }
      }
    }
  }

  /** Sum of an array after one entry is replaced. */
  lemma {:induction false} SumUpdate(s: seq<real>, i: nat, v: real)
    requires i < |s|
    ensures Sum(s[i := v]) == Sum(s) - s[i] + v
  {
    if i > 0 {
      assert s[i := v][1..] == s[1..][i - 1 := v];
      SumUpdate(s[1..], i - 1, v);
    } else {
      assert s[i := v][1..] == s[1..];
    }
  }

  /** Handing out shares of `donorE` adds donorE * (receivers' energy / tot)
      to the event's total energy. */
  lemma {:induction false} DonateAddsShares(hits: seq<Hit>, add: seq<int>, donorE: real, tot: real)
    requires forall k :: 0 <= k < |add| ==> 0 <= add[k] < |hits|
    requires Increasing(add)
    requires tot != 0.0
    ensures Sum(Energies(Donate(hits, add, donorE, tot)))
            == Sum(Energies(hits)) + Share(donorE, ReceiverEnergy(hits, add), tot)
    decreases |add|
  {
    if |add| > 0 {
      var i := add[0];
      var h := hits[i];
      var share := Share(donorE, h.e, tot);
      var hits1 := hits[i := Give(h, donorE, tot)];
      var rest := add[1..];
      DonateAddsShares(hits1, rest, donorE, tot);
      GiveAddsShare(hits, i, donorE, tot);
      assert forall k :: 0 <= k < |rest| ==> rest[k] == add[k + 1] && add[0] < add[k + 1];
      ReceiverEnergyUnchanged(hits, hits1, rest, i);
      var eRest := ReceiverEnergy(hits, rest);
      var eAll := ReceiverEnergy(hits, add);
      assert eAll == h.e + eRest;
      ShareSplits(donorE, h.e, eRest, eAll, tot);
      assert Donate(hits, add, donorE, tot) == Donate(hits1, rest, donorE, tot);
      AddUp(Sum(Energies(Donate(hits, add, donorE, tot))), Sum(Energies(hits1)), Sum(Energies(hits)),
            share, Share(donorE, eRest, tot), Share(donorE, eAll, tot));
    }
  }

  /** One receiver's gain raises the event's energy by exactly its share. */
  lemma GiveAddsShare(hits: seq<Hit>, i: int, donorE: real, tot: real)
    requires 0 <= i < |hits| && tot != 0.0
    ensures Sum(Energies(hits[i := Give(hits[i], donorE, tot)]))
            == Sum(Energies(hits)) + Share(donorE, hits[i].e, tot)
  {
    var g := Give(hits[i], donorE, tot);
    assert Energies(hits[i := g]) == Energies(hits)[i := g.e];
    SumUpdate(Energies(hits), i, g.e);
  }

  /** Changing a hit that is not a receiver leaves the receivers' energy. */
  lemma {:induction false} ReceiverEnergyUnchanged(a: seq<Hit>, b: seq<Hit>, add: seq<int>, i: int)
    requires |a| == |b|
    requires forall k :: 0 <= k < |add| ==> 0 <= add[k] < |a| && add[k] > i
    requires forall j :: 0 <= j < |a| && j != i ==> a[j] == b[j]
    ensures ReceiverEnergy(a, add) == ReceiverEnergy(b, add)
    decreases |add|
  {
    if |add| > 0 {
      ReceiverEnergyUnchanged(a, b, add[1..], i);
    }
  }

  /** Shares add up: the shares of two energies are the share of their sum. */
  lemma ShareSplits(d: real, e: real, rest: real, all: real, t: real)
    requires t != 0.0 && all == e + rest
    ensures Share(d, e, t) + Share(d, rest, t) == Share(d, all, t)
  {
    assert all / t == e / t + rest / t;
  }

  /** The bookkeeping of one donation step: the total after the step is the
      total before it plus both shares. */
  lemma AddUp(after: real, mid: real, before: real, share: real, sRest: real, sAll: real)
    requires after == mid + sRest && mid == before + share && share + sRest == sAll
    ensures after == before + sAll
  {
  }

  /** The share of the whole receiver energy is the donor's energy. */
  lemma ShareOfWhole(d: real, t: real)
    requires t != 0.0
    ensures Share(d, t, t) == d
  {
    assert t / t == 1.0;
  }

  /** The one failure of a donation: receivers whose energies sum to zero,
      so the share is a division by zero. */
  datatype MergeError =
    | MissingEvent(event: int)        // hits_all[evt]: a KeyError
    | ZeroReceiverEnergy(event: int)  // ha.E / hadd_etot with hadd_etot == 0

  /** One NN hit handing its energy to its receivers. An empty collection
      has no receivers and nothing happens. */
  function Absorb(hits: seq<Hit>, donor: Hit): (r: Option<seq<Hit>>)
    ensures var add := Receivers(donor.z, hits);
            r.None? <==> |hits| > 0 && ReceiverEnergy(hits, add) == 0.0
    ensures r.Some? ==> |r.value| == |hits|
    ensures r.Some? ==> forall i :: 0 <= i < |hits| ==> r.value[i].(e := hits[i].e) == hits[i]
    ensures r.Some? ==> forall i :: 0 <= i < |hits| && !Nearest(hits, donor.z, i) ==> r.value[i] == hits[i]
  {
    var add := Receivers(donor.z, hits);
    if |add| == 0 then Some(hits)
    else
      var tot := ReceiverEnergy(hits, add);
      if tot == 0.0 then None else Some(Donate(hits, add, donor.e, tot))
  }

  /** The energy a donation adds to the event is the donor's energy: the
      shares sum to it whenever the collection is not empty. */
  lemma AbsorbConservesEnergy(hits: seq<Hit>, donor: Hit)
    requires Absorb(hits, donor).Some?
    ensures Sum(Energies(Absorb(hits, donor).value))
            == Sum(Energies(hits)) + (if |hits| > 0 then donor.e else 0.0)
  {
    if |hits| > 0 {
      var add := Receivers(donor.z, hits);
      var tot := ReceiverEnergy(hits, add);
      DonateAddsShares(hits, add, donor.e, tot);
      ShareOfWhole(donor.e, tot);
    }
  }

  /** Every receiver gains its own energy's share of the donor's energy. */
  lemma AbsorbShares(hits: seq<Hit>, donor: Hit, i: int)
    requires Absorb(hits, donor).Some? && Nearest(hits, donor.z, i)
    ensures var tot := ReceiverEnergy(hits, Receivers(donor.z, hits));
            Absorb(hits, donor).value[i].e == hits[i].e + Share(donor.e, hits[i].e, tot)
  {
    var add := Receivers(donor.z, hits);
    var tot := ReceiverEnergy(hits, add);
    DonateShares(hits, add, donor.e, tot);
    var k :| 0 <= k < |add| && add[k] == i;
  }

  /** The energy of the NN hits among `donors`. */
  function NNEnergy(donors: seq<Hit>): real
  {
    if |donors| == 0 then 0.0
    else (if donors[0].q.NN? then donors[0].e else 0.0) + NNEnergy(donors[1..])
  }

  /** The outcome of the donor loop of one event: its hits as they stand
      when the loop ends, and the exception that ended it early, if any. */
  datatype EventMerged = EventMerged(hits: seq<Hit>, failure: Option<MergeError>)

  /** The loop over hc_all.hits for one event: the NN hits donate in order,
      each to the energies left by the ones before. The donations are made
      in place, so a donor that raises leaves the earlier donations in the
      hits. */
  function MergeEvent(evt: int, donors: seq<Hit>, hits: seq<Hit>): (r: EventMerged)
    ensures |r.hits| == |hits|
    ensures forall i :: 0 <= i < |hits| ==> r.hits[i].(e := hits[i].e) == hits[i]
    ensures r.failure.Some? ==> r.failure.value == ZeroReceiverEnergy(evt) && |hits| > 0
    ensures |hits| == 0 ==> r == EventMerged(hits, None)
    decreases |donors|
  {
    if |donors| == 0 then EventMerged(hits, None)
    else if !donors[0].q.NN? then MergeEvent(evt, donors[1..], hits)
    else
      match Absorb(hits, donors[0])
      case None => EventMerged(hits, Some(ZeroReceiverEnergy(evt)))
      case Some(h1) =>
        var r := MergeEvent(evt, donors[1..], h1);
        assert forall i :: 0 <= i < |hits| ==> r.hits[i].(e := hits[i].e) == hits[i] by {
          forall i | 0 <= i < |hits|
            ensures r.hits[i].(e := hits[i].e) == hits[i]
          {
            assert r.hits[i].(e := h1[i].e) == h1[i];
            assert h1[i].(e := hits[i].e) == hits[i];
          }
        }
        r
  }

  /** Energy conservation for one event: after the merge the non-NN hits
      carry their own energy plus all the energy of the NN hits, unless
      there were no non-NN hits to receive it. */
  lemma {:induction false} MergeEventConservesEnergy(evt: int, donors: seq<Hit>, hits: seq<Hit>)
    requires MergeEvent(evt, donors, hits).failure.None?
    ensures Sum(Energies(MergeEvent(evt, donors, hits).hits))
            == Sum(Energies(hits)) + (if |hits| > 0 then NNEnergy(donors) else 0.0)
    decreases |donors|
  {
    if |donors| > 0 {
      if !donors[0].q.NN? {
        MergeEventConservesEnergy(evt, donors[1..], hits);
      } else {
        var h1 := Absorb(hits, donors[0]).value;
        AbsorbConservesEnergy(hits, donors[0]);
        MergeEventConservesEnergy(evt, donors[1..], h1);
      }
    }
  }

  /** A merge that raises stops at an NN donor `j` that cannot donate to the
      hits as they stand, and those hits are what the donors before `j`
      make of the event without an exception. */
  lemma {:induction false} MergeEventStopsAt(evt: int, donors: seq<Hit>, hits: seq<Hit>) returns (j: nat)
    requires MergeEvent(evt, donors, hits).failure.Some?
    ensures j < |donors| && donors[j].q.NN?
    ensures MergeEvent(evt, donors[..j], hits) == EventMerged(MergeEvent(evt, donors, hits).hits, None)
    ensures Absorb(MergeEvent(evt, donors, hits).hits, donors[j]).None?
    decreases |donors|
  {
    var rest := donors[1..];
    if donors[0].q.NN? && Absorb(hits, donors[0]).None? {
      j := 0;
      assert MergeEvent(evt, donors, hits).hits == hits;
    } else {
      var h1 := if donors[0].q.NN? then Absorb(hits, donors[0]).value else hits;
      MergeEventStep(evt, donors, hits);
      var j' := MergeEventStopsAt(evt, rest, h1);
      j := j' + 1;
      assert donors[..j][0] == donors[0] && donors[..j][1..] == rest[..j'];
      MergeEventStep(evt, donors[..j], hits);
    }
  }

  /** One step of the donor loop: a donor that does not raise leaves the
      rest of the loop to run on the hits it leaves behind. */
  lemma MergeEventStep(evt: int, donors: seq<Hit>, hits: seq<Hit>)
    requires |donors| > 0
    requires donors[0].q.NN? ==> Absorb(hits, donors[0]).Some?
    ensures MergeEvent(evt, donors, hits)
            == MergeEvent(evt, donors[1..], if donors[0].q.NN? then Absorb(hits, donors[0]).value else hits)
  {
  }

  /** The energy left by a merge that raises: the hits carry their own
      energy plus that of every NN donor before the one that raised. */
  lemma MergeEventPartialEnergy(evt: int, donors: seq<Hit>, hits: seq<Hit>) returns (j: nat)
    requires MergeEvent(evt, donors, hits).failure.Some?
    ensures j < |donors| && donors[j].q.NN?
    ensures Absorb(MergeEvent(evt, donors, hits).hits, donors[j]).None?
    ensures Sum(Energies(MergeEvent(evt, donors, hits).hits))
            == Sum(Energies(hits)) + NNEnergy(donors[..j])
  {
    j := MergeEventStopsAt(evt, donors, hits);
    MergeEventConservesEnergy(evt, donors[..j], hits);
  }

  /** The outcome of merge_NN_hits: the updated collections, and the
      exception that stopped it, if any. Updates made before the exception
      remain, as they were made in place, including those of the event
      that raised. */
  datatype Merged = Merged(hits: Collections, failure: Option<MergeError>)

  /** The outer loop over the events of hits_nonNN, visited in the order of
      `keys`. */
  function MergeEvents(all: Collections, nonNN: Collections, keys: seq<int>): (r: Merged)
    requires forall k :: 0 <= k < |keys| ==> keys[k] in nonNN
    ensures r.hits.Keys == nonNN.Keys
    ensures forall evt :: evt in nonNN && evt !in keys ==> r.hits[evt] == nonNN[evt]
    ensures r.failure.None? ==>
              forall k :: 0 <= k < |keys| ==> keys[k] in all
    ensures r.failure.Some? && r.failure.value.MissingEvent? ==>
              r.failure.value.event in keys && r.failure.value.event !in all
    ensures r.failure.Some? && r.failure.value.ZeroReceiverEnergy? ==>
              r.failure.value.event in keys && r.failure.value.event in all
    decreases |keys|
  {
    if |keys| == 0 then Merged(nonNN, None)
    else
      var evt := keys[0];
      if evt !in all then Merged(nonNN, Some(MissingEvent(evt)))
      else
        var m := MergeEvent(evt, all[evt], nonNN[evt]);
        if m.failure.Some? then Merged(nonNN[evt := m.hits], m.failure)
        else
          var r := MergeEvents(all, nonNN[evt := m.hits], keys[1..]);
          assert forall evt' :: evt' in nonNN && evt' !in keys ==> evt' !in keys[1..] && evt' != evt;
          Merged(r.hits, r.failure)
  }

  /** merge_NN_hits(hits_all, hits_nonNN), the events visited in ascending
      order. */
  function MergeNN(all: Collections, nonNN: Collections): (r: Merged)
    ensures r.hits.Keys == nonNN.Keys
    ensures r.failure.None? ==> nonNN.Keys <= all.Keys
    ensures r.failure.Some? && r.failure.value.MissingEvent? ==>
              r.failure.value.event in nonNN && r.failure.value.event !in all
  {
    SortedKeysAll(nonNN.Keys);
    MergeEvents(all, nonNN, SortedKeys(nonNN.Keys))
  }

  /** Without an exception, every event of hits_nonNN holds the result of
      its own merge, computed from its original hits: events do not
      interfere. */
  lemma {:induction false} MergeEventsPerEvent(all: Collections, nonNN: Collections, keys: seq<int>)
    requires forall k :: 0 <= k < |keys| ==> keys[k] in nonNN
    requires forall a, b :: 0 <= a < b < |keys| ==> keys[a] != keys[b]
    requires MergeEvents(all, nonNN, keys).failure.None?
    ensures forall k :: 0 <= k < |keys| ==>
              && keys[k] in all
              && MergeEvent(keys[k], all[keys[k]], nonNN[keys[k]])
                 == EventMerged(MergeEvents(all, nonNN, keys).hits[keys[k]], None)
    decreases |keys|
  {
    if |keys| > 0 {
      var evt := keys[0];
      var h := MergeEvent(evt, all[evt], nonNN[evt]).hits;
      var nonNN1 := nonNN[evt := h];
      MergeEventsPerEvent(all, nonNN1, keys[1..]);
      forall k | 1 <= k < |keys|
        ensures nonNN1[keys[k]] == nonNN[keys[k]]
      {
        assert keys[k] != keys[0];
      }
    }
  }

  /** With an exception, the loop stopped at the `p`-th visited event: the
      events before it hold their own merges, the event that raised holds
      the donations made before the exception (none when it is missing
      from hits_all), and the events after it are untouched. */
  lemma MergeEventsStopsAt(all: Collections, nonNN: Collections, keys: seq<int>) returns (p: nat)
    requires forall k :: 0 <= k < |keys| ==> keys[k] in nonNN
    requires forall a, b :: 0 <= a < b < |keys| ==> keys[a] != keys[b]
    requires MergeEvents(all, nonNN, keys).failure.Some?
    ensures p < |keys|
    ensures var r := MergeEvents(all, nonNN, keys);
            && r.failure.value.event == keys[p]
            && (forall k :: 0 <= k < p ==>
                  && keys[k] in all
                  && MergeEvent(keys[k], all[keys[k]], nonNN[keys[k]]) == EventMerged(r.hits[keys[k]], None))
            && (keys[p] !in all ==> r.failure.value == MissingEvent(keys[p]) && r.hits[keys[p]] == nonNN[keys[p]])
            && (keys[p] in all ==>
                  MergeEvent(keys[p], all[keys[p]], nonNN[keys[p]]) == EventMerged(r.hits[keys[p]], r.failure))
            && (forall k :: p < k < |keys| ==> r.hits[keys[k]] == nonNN[keys[k]])
  {
    p := MergeEventsFailingEvent(all, nonNN, keys);
    MergeEventsBeforeFailure(all, nonNN, keys, p);
  }

  /** The event that raised and the events after it. */
  lemma {:induction false} MergeEventsFailingEvent(all: Collections, nonNN: Collections, keys: seq<int>)
    returns (p: nat)
    requires forall k :: 0 <= k < |keys| ==> keys[k] in nonNN
    requires forall a, b :: 0 <= a < b < |keys| ==> keys[a] != keys[b]
    requires MergeEvents(all, nonNN, keys).failure.Some?
    ensures p < |keys|
    ensures var r := MergeEvents(all, nonNN, keys);
            && r.failure.value.event == keys[p]
            && (keys[p] !in all ==> r.failure.value == MissingEvent(keys[p]) && r.hits[keys[p]] == nonNN[keys[p]])
            && (keys[p] in all ==>
                  MergeEvent(keys[p], all[keys[p]], nonNN[keys[p]]) == EventMerged(r.hits[keys[p]], r.failure))
            && (forall k :: p < k < |keys| ==> r.hits[keys[k]] == nonNN[keys[k]])
    decreases |keys|
  {
    var evt := keys[0];
    if evt !in all || MergeEvent(evt, all[evt], nonNN[evt]).failure.Some? {
      MergeEventsFailsFirst(all, nonNN, keys);
      p := 0;
    } else {
      var rest := keys[1..];
      var nonNN1 := MergeEventsStep(all, nonNN, keys);
      var p' := MergeEventsFailingEvent(all, nonNN1, rest);
      p := p' + 1;
      assert keys[p] == rest[p'];
      forall k | p <= k < |keys|
        ensures nonNN1[keys[k]] == nonNN[keys[k]]
      {
        assert keys[k] == rest[k - 1];
      }
    }
  }

  /** The first visited event raising: it holds what its merge left, and
      every other event is untouched. */
  lemma MergeEventsFailsFirst(all: Collections, nonNN: Collections, keys: seq<int>)
    requires forall k :: 0 <= k < |keys| ==> keys[k] in nonNN
    requires forall a, b :: 0 <= a < b < |keys| ==> keys[a] != keys[b]
    requires |keys| > 0
    requires keys[0] !in all || MergeEvent(keys[0], all[keys[0]], nonNN[keys[0]]).failure.Some?
    ensures var r := MergeEvents(all, nonNN, keys);
            && r.failure.Some? && r.failure.value.event == keys[0]
            && (keys[0] !in all ==> r.failure.value == MissingEvent(keys[0]) && r.hits[keys[0]] == nonNN[keys[0]])
            && (keys[0] in all ==>
                  MergeEvent(keys[0], all[keys[0]], nonNN[keys[0]]) == EventMerged(r.hits[keys[0]], r.failure))
            && (forall k :: 0 < k < |keys| ==> r.hits[keys[k]] == nonNN[keys[k]])
  {
    assert forall k :: 0 < k < |keys| ==> keys[k] != keys[0];
  }

  /** When the event that raised is not the first visited, the first is in
      hits_all and its merge does not raise. */
  lemma MergeEventsFirstPasses(all: Collections, nonNN: Collections, keys: seq<int>, p: nat)
    requires forall k :: 0 <= k < |keys| ==> keys[k] in nonNN
    requires forall a, b :: 0 <= a < b < |keys| ==> keys[a] != keys[b]
    requires MergeEvents(all, nonNN, keys).failure.Some?
    requires 0 < p < |keys| && MergeEvents(all, nonNN, keys).failure.value.event == keys[p]
    ensures keys[0] in all && MergeEvent(keys[0], all[keys[0]], nonNN[keys[0]]).failure.None?
  {
  }

  /** A visited event that does not raise: the rest of the loop runs on the
      collections holding its merge, which the later events leave alone. */
  lemma MergeEventsStep(all: Collections, nonNN: Collections, keys: seq<int>) returns (nonNN1: Collections)
    requires forall k :: 0 <= k < |keys| ==> keys[k] in nonNN
    requires forall a, b :: 0 <= a < b < |keys| ==> keys[a] != keys[b]
    requires |keys| > 0 && keys[0] in all
    requires MergeEvent(keys[0], all[keys[0]], nonNN[keys[0]]).failure.None?
    ensures nonNN1 == nonNN[keys[0] := MergeEvent(keys[0], all[keys[0]], nonNN[keys[0]]).hits]
    ensures forall k :: 0 <= k < |keys[1..]| ==> keys[1..][k] in nonNN1
    ensures forall a, b :: 0 <= a < b < |keys[1..]| ==> keys[1..][a] != keys[1..][b]
    ensures MergeEvents(all, nonNN, keys) == MergeEvents(all, nonNN1, keys[1..])
    ensures MergeEvents(all, nonNN, keys).hits[keys[0]] == nonNN1[keys[0]]
  {
    var evt := keys[0];
    nonNN1 := nonNN[evt := MergeEvent(evt, all[evt], nonNN[evt]).hits];
    assert forall k :: 0 <= k < |keys[1..]| ==> keys[1..][k] == keys[k + 1];
    assert evt !in keys[1..];
  }

  /** Event `evt` of `merged` holds the merge of its own hits, made without
      an exception. */
  predicate HoldsOwnMerge(all: Collections, nonNN: Collections, merged: Collections, evt: int)
  {
    && evt in all && evt in nonNN && evt in merged
    && MergeEvent(evt, all[evt], nonNN[evt]) == EventMerged(merged[evt], None)
  }

  /** The events visited before the one that raised hold their own merges. */
  lemma {:induction false} MergeEventsBeforeFailure(all: Collections, nonNN: Collections, keys: seq<int>, p: nat)
    requires forall k :: 0 <= k < |keys| ==> keys[k] in nonNN
    requires forall a, b :: 0 <= a < b < |keys| ==> keys[a] != keys[b]
    requires MergeEvents(all, nonNN, keys).failure.Some?
    requires p < |keys| && MergeEvents(all, nonNN, keys).failure.value.event == keys[p]
    ensures forall k :: 0 <= k < p ==> HoldsOwnMerge(all, nonNN, MergeEvents(all, nonNN, keys).hits, keys[k])
    decreases |keys|
  {
    if p > 0 {
      var rest := keys[1..];
      MergeEventsFirstPasses(all, nonNN, keys, p);
      var nonNN1 := MergeEventsStep(all, nonNN, keys);
      var r := MergeEvents(all, nonNN1, rest);
      MergeEventsBeforeFailure(all, nonNN1, rest, p - 1);
      OwnMergesExtend(all, nonNN, nonNN1, r.hits, keys, p);
    }
  }

  /** The events before the one that raised, one more: the first visited
      event holds its own merge, and the later ones' merges do not see it. */
  lemma OwnMergesExtend(all: Collections, nonNN: Collections, nonNN1: Collections, merged: Collections,
                        keys: seq<int>, p: nat)
    requires 0 < p <= |keys|
    requires forall k :: 0 < k < |keys| ==> keys[k] != keys[0]
    requires keys[0] in all && keys[0] in nonNN
    requires MergeEvent(keys[0], all[keys[0]], nonNN[keys[0]]).failure.None?
    requires nonNN1 == nonNN[keys[0] := MergeEvent(keys[0], all[keys[0]], nonNN[keys[0]]).hits]
    requires keys[0] in merged && merged[keys[0]] == nonNN1[keys[0]]
    requires forall k :: 0 <= k < p - 1 ==> HoldsOwnMerge(all, nonNN1, merged, keys[1..][k])
    ensures forall k :: 0 <= k < p ==> HoldsOwnMerge(all, nonNN, merged, keys[k])
  {
    forall k | 0 <= k < p
      ensures HoldsOwnMerge(all, nonNN, merged, keys[k])
    {
      if k > 0 {
        assert keys[k] == keys[1..][k - 1];
        assert HoldsOwnMerge(all, nonNN1, merged, keys[1..][k - 1]);
      }
    }
  }

  /** A donation to a single receiver replaces that one hit. */
  lemma DonateOne(hits: seq<Hit>, i: nat, d: real, t: real)
    requires i < |hits| && t != 0.0
    ensures Donate(hits, [i], d, t) == hits[i := Give(hits[i], d, t)]
  {
    assert [i][1..] == [];
  }

  /** A donor with a single receiver: the donation raises when that
      receiver's energy is zero, and otherwise hands all of the donor's
      energy to it. */
  lemma AbsorbSingle(hits: seq<Hit>, donor: Hit, i: nat)
    requires i < |hits| && Receivers(donor.z, hits) == [i]
    ensures hits[i].e == 0.0 ==> Absorb(hits, donor).None?
    ensures hits[i].e != 0.0 ==>
              Absorb(hits, donor) == Some(hits[i := hits[i].(e := hits[i].e + donor.e)])
  {
    assert ReceiverEnergy(hits, [i]) == hits[i].e;
    if hits[i].e != 0.0 {
      DonateOne(hits, i, donor.e, hits[i].e);
      ShareOfWhole(donor.e, hits[i].e);
    }
  }

  /** The receivers of the two donors of the example below. */
  lemma ReceiversOfExample()
    ensures Receivers(0.0, [Hit(0.0, 0.0, 0.0, Measured(1.0), 1.0), Hit(0.0, 0.0, 10.0, Measured(1.0), 0.0)]) == [0]
    ensures Receivers(10.0, [Hit(0.0, 0.0, 0.0, Measured(1.0), 6.0), Hit(0.0, 0.0, 10.0, Measured(1.0), 0.0)]) == [1]
  {
    var hits := [Hit(0.0, 0.0, 0.0, Measured(1.0), 1.0), Hit(0.0, 0.0, 10.0, Measured(1.0), 0.0)];
    assert Scan(0.0, hits, 1) == (0.0, [0]);
    assert Scan(0.0, hits, 2) == (0.0, [0]);
    var h1 := [Hit(0.0, 0.0, 0.0, Measured(1.0), 6.0), Hit(0.0, 0.0, 10.0, Measured(1.0), 0.0)];
    assert Scan(10.0, h1, 1) == (10.0, [0]);
    assert Scan(10.0, h1, 2) == (0.0, [1]);
  }

  /** The merge of the one event of the example below: the first donation
      raises the first hit to 6, the second raises. */
  lemma MergeEventOfExample()
    ensures MergeEvent(0, [Hit(0.0, 0.0, 0.0, NN, 5.0), Hit(0.0, 0.0, 10.0, NN, 5.0)],
                       [Hit(0.0, 0.0, 0.0, Measured(1.0), 1.0), Hit(0.0, 0.0, 10.0, Measured(1.0), 0.0)])
            == EventMerged([Hit(0.0, 0.0, 0.0, Measured(1.0), 6.0), Hit(0.0, 0.0, 10.0, Measured(1.0), 0.0)],
                           Some(ZeroReceiverEnergy(0)))
  {
    var hits := [Hit(0.0, 0.0, 0.0, Measured(1.0), 1.0), Hit(0.0, 0.0, 10.0, Measured(1.0), 0.0)];
    var h1 := [Hit(0.0, 0.0, 0.0, Measured(1.0), 6.0), Hit(0.0, 0.0, 10.0, Measured(1.0), 0.0)];
    var donors := [Hit(0.0, 0.0, 0.0, NN, 5.0), Hit(0.0, 0.0, 10.0, NN, 5.0)];
    ReceiversOfExample();
    AbsorbSingle(hits, donors[0], 0);
    assert hits[0 := hits[0].(e := hits[0].e + 5.0)] == h1;
    AbsorbSingle(h1, donors[1], 1);
    assert MergeEvent(0, donors[1..], h1) == EventMerged(h1, Some(ZeroReceiverEnergy(0)));
  }

  /** The partial update of the event that raises: with hits_nonNN
      {0: [E=1 at Z=0, E=0 at Z=10]} and NN hits of energy 5 at Z=0 and then
      Z=10, the first donation raises the first hit to 6 before the second
      finds zero receiver energy, and the 6 stays. */
  lemma MergeKeepsEarlierDonations()
    ensures var nonNN := map[0 := [Hit(0.0, 0.0, 0.0, Measured(1.0), 1.0), Hit(0.0, 0.0, 10.0, Measured(1.0), 0.0)]];
            var all := map[0 := [Hit(0.0, 0.0, 0.0, NN, 5.0), Hit(0.0, 0.0, 10.0, NN, 5.0)]];
            var r := MergeNN(all, nonNN);
            && r.failure == Some(ZeroReceiverEnergy(0))
            && r.hits[0][0].e == 6.0 && r.hits[0][1].e == 0.0
  {
    var nonNN := map[0 := [Hit(0.0, 0.0, 0.0, Measured(1.0), 1.0), Hit(0.0, 0.0, 10.0, Measured(1.0), 0.0)]];
    MergeEventOfExample();
    assert SortedKeys(nonNN.Keys) == [0];
  }
}
