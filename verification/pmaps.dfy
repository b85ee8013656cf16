/** The per-event peak maps ("PMAPS") the selections work on, and the small
    vocabulary shared by both selector implementations. */
module Pmaps {
  import opened Reductions

  /** One S1 or S2 peak: sample times and the energies measured at them. */
  datatype Peak = Peak(t: seq<real>, e: seq<real>)

  /** Times and energies pair up sample by sample. */
  predicate Aligned(p: Peak)
  {
    |p.t| == |p.e|
  }

  /** A peak as the upstream peak finder emits it: aligned and non-empty. */
  predicate WellFormed(p: Peak)
  {
    Aligned(p) && |p.e| > 0
  }

  /** Peak number -> peak. */
  type PeakMap = map<int, Peak>

  /** SiPM id -> charge samples of that SiPM within one S2 peak. */
  type SipmMap = map<int, seq<real>>

  /** Peak number -> SiPM map of that peak (the "S2Si" map). */
  type SiMap = map<int, SipmMap>

  predicate AllAligned(m: PeakMap)
  {
    forall k :: k in m ==> Aligned(m[k])
  }

  predicate AllWellFormed(m: PeakMap)
  {
    forall k :: k in m ==> WellFormed(m[k])
  }

  /** Upper end of a cut window; the analyses default many of them to np.inf. */
  datatype Ceiling = Unbounded | Below(limit: real)

  /** The half-open window [lo, hi) used by in_range and by the chained
      comparisons `lo <= x < hi` of the selector. */
  datatype Window = Window(lo: real, hi: Ceiling) {
    predicate Contains(x: real)
    {
      lo <= x && (hi.Below? ==> x < hi.limit)
    }
  }

  /** x and y positions of the SiPMs, indexed by SiPM id (the sensor database). */
  datatype Geometry = Geometry(xs: seq<real>, ys: seq<real>)

  /** Every SiPM id of the map indexes the geometry. */
  predicate Covers(g: Geometry, sipms: SipmMap)
  {
    forall id :: id in sipms ==> 0 <= id < |g.xs| && id < |g.ys|
  }

  /** Fancy indexing xs[IDs]: the coordinate of every listed SiPM id. */
  function Lookup(xs: seq<real>, ids: seq<int>): (r: seq<real>)
    requires forall i :: 0 <= i < |ids| ==> 0 <= ids[i] < |xs|
    ensures |r| == |ids|
    ensures forall i :: 0 <= i < |ids| ==> r[i] == xs[ids[i]]
  {
    seq(|ids|, i requires 0 <= i < |ids| => xs[ids[i]])
  }

  /** The summed charge of every listed SiPM id. */
  function Charges(sipms: SipmMap, ids: seq<int>): (r: seq<real>)
    requires forall i :: 0 <= i < |ids| ==> ids[i] in sipms
    ensures |r| == |ids|
    ensures forall i :: 0 <= i < |ids| ==> r[i] == Sum(sipms[ids[i]])
  {
    seq(|ids|, i requires 0 <= i < |ids| => Sum(sipms[ids[i]]))
  }

  /** Functions whose floating-point values the model does not interpret:
      square root, arctan2, and the ±inf/nan that a float division by zero
      yields without raising. */
  datatype Math = Math(sqrt: real -> real, atan2: (real, real) -> real, divByZero: real -> real)

  /** Float division as numpy performs it on float64 scalars. */
  function FloatDiv(m: Math, a: real, b: real): real
  {
    if b != 0.0 then a / b else m.divByZero(a)
  }

  /** A non-empty set has an element. */
  lemma ElementOf<T>(s: set<T>) returns (x: T)
    requires s != {}
    ensures x in s
  {
    if forall y :: y !in s {
      assert false;
    }
    x :| x in s;
  }

  lemma {:induction false} MinKeyExists(s: set<int>)
    requires s != {}
    ensures exists m :: m in s && forall k :: k in s ==> m <= k
    decreases |s|
  {
    var x := ElementOf(s);
    var rest := s - {x};
    if rest == {} {
      forall k | k in s ensures k == x {
        assert k !in rest;
      }
      assert forall k :: k in s ==> x <= k;
    } else {
      MinKeyExists(rest);
      var m :| m in rest && forall k :: k in rest ==> m <= k;
      var least := if x < m then x else m;
      forall k | k in s ensures least <= k {
        if k != x {
          assert k in rest;
        }
      }
      assert least in s;
    }
  }

  /** The smallest key of a non-empty key set. */
  function MinKey(s: set<int>): (m: int)
    requires s != {}
    ensures m in s
    ensures forall k :: k in s ==> m <= k
  {
    MinKeyExists(s);
    var m :| m in s && forall k :: k in s ==> m <= k;
    m
  }

  /** A map cut down to the keys of `keys`, keeping their values. */
  function Restrict<V>(m: map<int, V>, keys: set<int>): (r: map<int, V>)
    requires keys <= m.Keys
    ensures r.Keys == keys
    ensures forall k :: k in r ==> r[k] == m[k]
  {
    map k | k in keys :: m[k]
  }

  /** The keys of a map in ascending order, the order `sorted(d.items())` visits. */
  function SortedKeys(s: set<int>): (r: seq<int>)
    ensures |r| == |s|
    ensures forall i :: 0 <= i < |r| ==> r[i] in s
    ensures forall i, j :: 0 <= i < j < |r| ==> r[i] < r[j]
    decreases |s|
  {
    if s == {} then []
    else
      var m := MinKey(s);
      var rest := SortedKeys(s - {m});
      SortedCons(s, m, rest);
      [m] + rest
  }

  /** Putting the least key in front of the sorted other keys sorts them all. */
  lemma SortedCons(s: set<int>, m: int, rest: seq<int>)
    requires m in s && forall k :: k in s ==> m <= k
    requires |rest| == |s - {m}|
    requires forall i :: 0 <= i < |rest| ==> rest[i] in s - {m}
    requires forall i, j :: 0 <= i < j < |rest| ==> rest[i] < rest[j]
    ensures |[m] + rest| == |s|
    ensures forall i :: 0 <= i < |[m] + rest| ==> ([m] + rest)[i] in s
    ensures forall i, j :: 0 <= i < j < |[m] + rest| ==> ([m] + rest)[i] < ([m] + rest)[j]
  {
    var r := [m] + rest;
    forall i | 0 <= i < |rest| ensures m < rest[i] {
      assert rest[i] in s && rest[i] != m;
    }
    forall i, j | 0 <= i < j < |r| ensures r[i] < r[j] {
      if i > 0 {
        assert r[i] == rest[i - 1] && r[j] == rest[j - 1];
      } else {
        assert r[j] == rest[j - 1];
      }
    }
  }

  /** Every key is visited: the position of key `k` in the ascending order. */
  lemma {:induction false} SortedKeysComplete(s: set<int>, k: int) returns (i: nat)
    requires k in s
    ensures i < |SortedKeys(s)| && SortedKeys(s)[i] == k
    decreases |s|
  {
    var m := MinKey(s);
    if k == m {
      i := 0;
    } else {
      var j := SortedKeysComplete(s - {m}, k);
      i := j + 1;
    }
  }

  /** Every key is listed by the ascending order. */
  lemma SortedKeysAll(s: set<int>)
    ensures forall k :: k in s ==> k in SortedKeys(s)
  {
    forall k | k in s ensures k in SortedKeys(s) {
      var i := SortedKeysComplete(s, k);
    }
  }
}
