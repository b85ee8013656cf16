/** The numpy reductions the analysis relies on, over real-valued 1-d arrays. */
module Reductions {

  /** np.sum. With real arithmetic the summation order is immaterial. */
  function Sum(s: seq<real>): real
  {
    if |s| == 0 then 0.0 else s[0] + Sum(s[1..])
  }

  lemma {:induction false} SumAppend(a: seq<real>, b: seq<real>)
    ensures Sum(a + b) == Sum(a) + Sum(b)
  {
    if |a| == 0 {
      assert a + b == b;
    } else {
      assert (a + b)[1..] == a[1..] + b;
      SumAppend(a[1..], b);
    }
  }

  /** Sum of the element-wise products, the numerator of np.average. */
  function Dot(a: seq<real>, w: seq<real>): real
    requires |a| == |w|
  {
    if |a| == 0 then 0.0 else a[0] * w[0] + Dot(a[1..], w[1..])
  }

  /** np.max: an element of the array that no element exceeds. */
  function Max(s: seq<real>): (m: real)
    requires |s| > 0
    ensures forall i :: 0 <= i < |s| ==> s[i] <= m
    ensures m in s
  {
    if |s| == 1 then s[0]
    else
      var rest := Max(s[1..]);
      assert rest in s[1..];
      if s[0] >= rest then s[0] else rest
  }

  /** np.min: an element of the array that no element undercuts. */
  function Min(s: seq<real>): (m: real)
    requires |s| > 0
    ensures forall i :: 0 <= i < |s| ==> m <= s[i]
    ensures m in s
  {
    if |s| == 1 then s[0]
    else
      var rest := Min(s[1..]);
      assert rest in s[1..];
      if s[0] <= rest then s[0] else rest
  }

  /** loc_elem_1d: the first index holding `v`. */
  function FirstIndexOf(s: seq<real>, v: real): (i: nat)
    requires v in s
    ensures i < |s| && s[i] == v
    ensures forall j :: 0 <= j < i ==> s[j] != v
  {
    if s[0] == v then 0
    else
      assert v in s[1..];
      1 + FirstIndexOf(s[1..], v)
  }

  /** np.argmax: the first index of the largest element. */
  function ArgMax(s: seq<real>): (i: nat)
    requires |s| > 0
    ensures i < |s|
    ensures forall j :: 0 <= j < |s| ==> s[j] <= s[i]
    ensures forall j :: 0 <= j < i ==> s[j] < s[i]
  {
    FirstIndexOf(s, Max(s))
  }

  /** Absolute value of a real. */
  function Abs(x: real): real
  {
    if x < 0.0 then -x else x
  }

  /** A sequence in non-decreasing order. */
  predicate NonDecreasing(s: seq<real>)
  {
    forall i, j :: 0 <= i <= j < |s| ==> s[i] <= s[j]
  }

  /** The maximum of a sorted array is its last element and the minimum its first. */
  lemma SortedExtremes(s: seq<real>)
    requires |s| > 0 && NonDecreasing(s)
    ensures Max(s) == s[|s| - 1]
    ensures Min(s) == s[0]
  {
    var i :| 0 <= i < |s| && s[i] == Max(s);
    assert s[i] <= s[|s| - 1];
    var j :| 0 <= j < |s| && s[j] == Min(s);
    assert s[0] <= s[j];
  }

  /** A sum of non-negative terms is non-negative, and positive once one term is. */
  lemma {:induction false} SumNonNegative(s: seq<real>)
    requires forall i :: 0 <= i < |s| ==> s[i] >= 0.0
    ensures Sum(s) >= 0.0
    ensures (exists i :: 0 <= i < |s| && s[i] != 0.0) ==> Sum(s) > 0.0
  {
    if |s| > 0 {
      SumNonNegative(s[1..]);
      if exists i :: 0 <= i < |s| && s[i] != 0.0 {
        var i :| 0 <= i < |s| && s[i] != 0.0;
        if i > 0 {
          assert s[1..][i - 1] != 0.0;
        }
      }
    }
  }

  /** With non-negative weights, every value bounded by `hi` keeps the weighted
      sum below `hi` times the total weight, and symmetrically for `lo`. */
  lemma {:induction false} DotBounds(a: seq<real>, w: seq<real>, lo: real, hi: real)
    requires |a| == |w|
    requires forall i :: 0 <= i < |w| ==> w[i] >= 0.0
    requires forall i :: 0 <= i < |a| ==> lo <= a[i] <= hi
    ensures lo * Sum(w) <= Dot(a, w)
    ensures Dot(a, w) <= hi * Sum(w)
  {
    if |a| > 0 {
      var tail, rest := Dot(a[1..], w[1..]), Sum(w[1..]);
      DotBounds(a[1..], w[1..], lo, hi);
      WeightBetween(a[0], w[0], lo, hi);
      Distribute(lo, w[0], rest);
      Distribute(hi, w[0], rest);
      assert Sum(w) == w[0] + rest;
      assert Dot(a, w) == a[0] * w[0] + tail;
    }
  }

  /** A value between lo and hi, weighted by w >= 0, lies between lo·w and hi·w. */
  lemma WeightBetween(x: real, w: real, lo: real, hi: real)
    requires w >= 0.0 && lo <= x <= hi
    ensures lo * w <= x * w <= hi * w
  {
    assert x * w - lo * w == (x - lo) * w;
    assert hi * w - x * w == (hi - x) * w;
  }

  /** Multiplication distributes over a sum of two weights. */
  lemma Distribute(c: real, y: real, z: real)
    ensures c * (y + z) == c * y + c * z
  {
  }
}
