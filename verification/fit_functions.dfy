/** The two small numeric helpers of the fit utilities: relative errors with
    a fallback for zero values, and the seed of a gaussian fit to a
    histogram. */
module FitFunctions {
  import opened Outcomes
  import opened Reductions

  /** The factor relative errors are multiplied by: 100 for percentages. */
  function ErrorScale(percentual: bool): (s: real)
    ensures s == 100.0 <==> percentual
    ensures s == 1.0 <==> !percentual
  {
    if percentual then 100.0 else 1.0
  }

  /** The relative error of one entry, or `default` where the value is zero. */
  function RelativeError(value: real, error: real, default: real, percentual: bool): real
  {
    if value != 0.0 then error / Abs(value) * ErrorScale(percentual) else default
  }

  /** relative_errors: the element-wise relative error of `errors` against
      `values`; entries whose value is zero get `default` instead. */
  function RelativeErrors(values: seq<real>, errors: seq<real>, default: real, percentual: bool)
    : (r: seq<real>)
    requires |errors| == |values|
    ensures |r| == |values|
    ensures forall i :: 0 <= i < |r| && values[i] == 0.0 ==> r[i] == default
    ensures forall i :: 0 <= i < |r| && values[i] != 0.0 ==>
              r[i] * Abs(values[i]) == errors[i] * ErrorScale(percentual)
  {
    seq(|values|, i requires 0 <= i < |values| => RelativeError(values[i], errors[i], default, percentual))
  }

  /** The absolute errors can be read back from the relative ones wherever the
      value is non-zero. */
  lemma RelativeErrorsRecoverErrors(values: seq<real>, errors: seq<real>, default: real, percentual: bool)
    requires |errors| == |values|
    ensures var r := RelativeErrors(values, errors, default, percentual);
            forall i :: 0 <= i < |values| && values[i] != 0.0 ==>
              errors[i] == r[i] * Abs(values[i]) / ErrorScale(percentual)
  {
  }

  /** A percentual result is the plain one times 100 on non-zero values, and
      both agree on the default elsewhere. */
  lemma PercentualIsHundredfold(values: seq<real>, errors: seq<real>, default: real)
    requires |errors| == |values|
    ensures var p := RelativeErrors(values, errors, default, true);
            var f := RelativeErrors(values, errors, default, false);
            forall i :: 0 <= i < |values| ==>
              p[i] == (if values[i] != 0.0 then 100.0 * f[i] else f[i])
  {
  }

  /** The three seed parameters of a gaussian fit. */
  datatype Seed = Seed(amp: real, mu: real, sigma: real)

  /** np.argmax of an empty histogram and np.diff(x)[0] of a single bin both
      raise. */
  datatype SeedError = EmptyHistogram | SingleBin

  /** The seed amplitude formula: a height times sqrt(2π), sigma and the first
      bin spacing. */
  function Amplitude(height: real, rootTwoPi: real, sigma: real, spacing: real): real
  {
    height * rootTwoPi * sigma * spacing
  }

  /** gauss_seed as written: the amplitude is built from the INDEX of the
      highest bin. `rootTwoPi` stands for (2π)**0.5. */
  function GaussSeedAsWritten(x: seq<real>, y: seq<real>, sigmaRel: real, rootTwoPi: real)
    : (r: Result<Seed, SeedError>)
    requires |x| == |y|
    ensures r.Err? <==> |y| < 2
    ensures r == Err(EmptyHistogram) <==> |y| == 0
    ensures r.Ok? ==> r.value.mu == x[ArgMax(y)] && r.value.sigma == sigmaRel * r.value.mu
    ensures r.Ok? ==> r.value.amp == Amplitude(ArgMax(y) as real, rootTwoPi, r.value.sigma, x[1] - x[0])
  {
    if |y| == 0 then Err(EmptyHistogram)
    else if |y| == 1 then Err(SingleBin)
    else
      var iMax := ArgMax(y);
      var mu := x[iMax];
      var sigma := sigmaRel * mu;
      Ok(Seed(Amplitude(iMax as real, rootTwoPi, sigma, x[1] - x[0]), mu, sigma))
  }

  /** gauss_seed with the amplitude built from the CONTENT of the highest
      bin, as the name `y_max` and the comment "highest bin" describe. */
  function GaussSeed(x: seq<real>, y: seq<real>, sigmaRel: real, rootTwoPi: real)
    : (r: Result<Seed, SeedError>)
    requires |x| == |y|
    ensures r.Err? <==> |y| < 2
    ensures r == Err(EmptyHistogram) <==> |y| == 0
    ensures r.Ok? ==> r.value.mu == x[ArgMax(y)] && r.value.sigma == sigmaRel * r.value.mu
    ensures r.Ok? ==> r.value.amp == Amplitude(y[ArgMax(y)], rootTwoPi, r.value.sigma, x[1] - x[0])
  {
    if |y| == 0 then Err(EmptyHistogram)
    else if |y| == 1 then Err(SingleBin)
    else
      var iMax := ArgMax(y);
      var mu := x[iMax];
      var sigma := sigmaRel * mu;
      Ok(Seed(Amplitude(y[iMax], rootTwoPi, sigma, x[1] - x[0]), mu, sigma))
  }

  /** The first index of the maximum holds the maximum. */
  lemma MaxAtArgMax(y: seq<real>)
    requires |y| > 0
    ensures y[ArgMax(y)] == Max(y)
  {
  }

  /** Every histogram scaled by a positive factor. */
  function Scaled(y: seq<real>, c: real): (z: seq<real>)
    ensures |z| == |y|
  {
    seq(|y|, i requires 0 <= i < |y| => c * y[i])
  }

  /** The first index of the maximum is the only index that is a maximum
      with every earlier entry strictly smaller. */
  lemma ArgMaxUnique(s: seq<real>, i: int)
    requires 0 <= i < |s|
    requires forall j :: 0 <= j < |s| ==> s[j] <= s[i]
    requires forall j :: 0 <= j < i ==> s[j] < s[i]
    ensures ArgMax(s) == i
  {
    var k := ArgMax(s);
    assert s[k] <= s[i] && s[i] <= s[k];
  }

  /** Two histograms of the same length whose bins compare alike. */
  predicate SameOrder(y: seq<real>, z: seq<real>)
  {
    && |y| == |z|
    && forall j, k :: 0 <= j < |y| && 0 <= k < |y| ==> (y[j] <= y[k] <==> z[j] <= z[k])
  }

  /** The first maximum depends only on how the bins compare. */
  lemma ArgMaxSameOrder(y: seq<real>, z: seq<real>)
    requires |y| > 0 && SameOrder(y, z)
    ensures ArgMax(z) == ArgMax(y)
  {
    var i := ArgMax(y);
    forall j | 0 <= j < |z| ensures z[j] <= z[i] {
      assert y[j] <= y[i];
    }
    forall j | 0 <= j < i ensures z[j] < z[i] {
      assert !(y[i] <= y[j]);
    }
    ArgMaxUnique(z, i);
  }

  /** Scaling by c > 0 keeps how the bins compare. */
  lemma ScaledSameOrder(y: seq<real>, c: real)
    requires c > 0.0
    ensures SameOrder(y, Scaled(y, c))
  {
    var z := Scaled(y, c);
    forall j, k | 0 <= j < |y| && 0 <= k < |y| ensures y[j] <= y[k] <==> z[j] <= z[k] {
      ScaleKeepsOrder(y[j], y[k], c);
    }
  }

  /** Scaling a histogram by c > 0 does not move its first maximum. */
  lemma ArgMaxScaled(y: seq<real>, c: real)
    requires |y| > 0 && c > 0.0
    ensures ArgMax(Scaled(y, c)) == ArgMax(y)
  {
    ScaledSameOrder(y, c);
    ArgMaxSameOrder(y, Scaled(y, c));
  }

  /** Scaling a histogram by c > 0 scales its highest bin by c. */
  lemma PeakScaled(y: seq<real>, c: real)
    requires |y| > 0 && c > 0.0
    ensures Scaled(y, c)[ArgMax(Scaled(y, c))] == c * y[ArgMax(y)]
  {
    ArgMaxScaled(y, c);
  }

  /** Multiplication by a positive factor keeps strict and weak order. */
  lemma ScaleKeepsOrder(a: real, b: real, c: real)
    requires c > 0.0
    ensures a < b <==> c * a < c * b
    ensures a <= b <==> c * a <= c * b
  {
    if a < b {
      assert c * b - c * a == c * (b - a);
    } else {
      assert c * a - c * b == c * (a - b);
    }
  }

  /** The amplitude is linear in the height. */
  lemma AmplitudeLinear(h: real, c: real, rootTwoPi: real, sigma: real, spacing: real)
    ensures Amplitude(c * h, rootTwoPi, sigma, spacing) == c * Amplitude(h, rootTwoPi, sigma, spacing)
  {
    var k := rootTwoPi * sigma * spacing;
    assert Amplitude(c * h, rootTwoPi, sigma, spacing) == (c * h) * k;
    assert Amplitude(h, rootTwoPi, sigma, spacing) == h * k;
  }

  /** The corrected seed follows the data: scaling the histogram by c > 0
      keeps the mean and width of the seed and scales its amplitude by c. */
  lemma GaussSeedScales(x: seq<real>, y: seq<real>, c: real, sigmaRel: real, rootTwoPi: real)
    requires |x| == |y| && |y| >= 2 && c > 0.0
    ensures var a := GaussSeed(x, y, sigmaRel, rootTwoPi).value;
            var b := GaussSeed(x, Scaled(y, c), sigmaRel, rootTwoPi).value;
            b.mu == a.mu && b.sigma == a.sigma && b.amp == c * a.amp
  {
    var z := Scaled(y, c);
    ArgMaxScaled(y, c);
    var a := GaussSeed(x, y, sigmaRel, rootTwoPi).value;
    var b := GaussSeed(x, z, sigmaRel, rootTwoPi).value;
    assert b.mu == a.mu;
    assert b.sigma == a.sigma;
    PeakScaled(y, c);
    AmplitudeLinear(y[ArgMax(y)], c, rootTwoPi, a.sigma, x[1] - x[0]);
  }

  /** The seed as written does not follow the data: a histogram whose highest
      bin is the first one gets amplitude 0 however tall that bin is, while
      the corrected seed gets the bin's content times the other factors. */
  lemma AsWrittenIgnoresPeakHeight(rootTwoPi: real)
    requires rootTwoPi > 0.0
    ensures GaussSeedAsWritten([1.0, 2.0], [5.0, 1.0], 0.05, rootTwoPi).value.amp == 0.0
    ensures GaussSeed([1.0, 2.0], [5.0, 1.0], 0.05, rootTwoPi).value.amp > 0.0
  {
    var y := [5.0, 1.0];
    ArgMaxUnique(y, 0);
    var g := GaussSeed([1.0, 2.0], y, 0.05, rootTwoPi).value;
    assert g.sigma == 0.05;
    MaxAtArgMax(y);
    assert g.amp == 5.0 * rootTwoPi * 0.05 * 1.0;
  }
}
