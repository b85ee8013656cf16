/** The step-outline transform behind the GUI's histogram plots: a histogram
    (bin contents and bin edges) becomes the x and y arrays of a line that
    draws every bin as a flat step. */
module GuiFunctions {
  import opened Reductions

  /** The step `_hist_outline` adds to every edge: the width of the first bin. */
  function StepSize(binsIn: seq<real>): real
    requires |binsIn| >= 2
  {
    binsIn[1] - binsIn[0]
  }

  /** The x value the outline holds in slot `j`. Slots 2bb+1 and 2bb+2 carry
      edge bb and edge bb plus one step; the two end slots repeat their
      neighbours. */
  function OutlineEdge(binsIn: seq<real>, j: int): real
    requires |binsIn| >= 2 && 0 <= j < 2 * |binsIn| + 2
  {
    if j == 0 then binsIn[0]
    else if j == 2 * |binsIn| + 1 then binsIn[|binsIn| - 1] + StepSize(binsIn)
    else if j % 2 == 1 then binsIn[(j - 1) / 2]
    else binsIn[(j - 2) / 2] + StepSize(binsIn)
  }

  /** The y value the outline holds in slot `j` for `n` edges: both slots of
      bin bb carry its content, every other slot is zero. */
  function OutlineLevel(histIn: seq<real>, n: nat, j: int): real
    requires 0 <= j < 2 * n + 2
  {
    if j == 0 || j == 2 * n + 1 then 0.0
    else if (j - 1) / 2 < |histIn| then histIn[(j - 1) / 2]
    else 0.0
  }

  /** Reference definition of the x array. */
  function OutlineBins(binsIn: seq<real>): (b: seq<real>)
    requires |binsIn| >= 2
    ensures |b| == 2 * |binsIn| + 2
  {
    seq(2 * |binsIn| + 2, j requires 0 <= j < 2 * |binsIn| + 2 => OutlineEdge(binsIn, j))
  }

  /** Reference definition of the y array for `n` edges. */
  function OutlineData(histIn: seq<real>, n: nat): (d: seq<real>)
    ensures |d| == 2 * n + 2
  {
    seq(2 * n + 2, j requires 0 <= j < 2 * n + 2 => OutlineLevel(histIn, n, j))
  }

  /** _hist_outline from the histogram onward: two zero arrays of length
      2·len(binsIn)+2 filled edge by edge, then the end slots patched. */
  method HistOutline(histIn: seq<real>, binsIn: seq<real>) returns (bins: seq<real>, data: seq<real>)
    requires |binsIn| >= 2
    ensures |bins| == 2 * |binsIn| + 2 && |data| == 2 * |binsIn| + 2
    ensures forall bb :: 0 <= bb < |binsIn| ==>
              bins[2 * bb + 1] == binsIn[bb] && bins[2 * bb + 2] == binsIn[bb] + StepSize(binsIn)
    ensures bins[0] == bins[1] && bins[2 * |binsIn| + 1] == bins[2 * |binsIn|]
    ensures forall bb :: 0 <= bb < |histIn| && bb < |binsIn| ==>
              data[2 * bb + 1] == histIn[bb] && data[2 * bb + 2] == histIn[bb]
    ensures forall j :: 0 <= j < |data| && (j == 0 || j == |data| - 1 || j > 2 * |histIn|) ==>
              data[j] == 0.0
    ensures bins == OutlineBins(binsIn) && data == OutlineData(histIn, |binsIn|)
  {
    var n := |binsIn|;
    var step := binsIn[1] - binsIn[0];
    bins := seq(2 * n + 2, _ => 0.0);
    data := seq(2 * n + 2, _ => 0.0);
    var bb := 0;
    while bb < n
      invariant 0 <= bb <= n
      invariant |bins| == 2 * n + 2 && |data| == 2 * n + 2
      invariant forall j :: 1 <= j < 2 * bb + 1 ==> bins[j] == OutlineEdge(binsIn, j)
      invariant forall j :: 1 <= j < 2 * bb + 1 ==> data[j] == OutlineLevel(histIn, n, j)
      invariant forall j :: 2 * bb + 1 <= j < 2 * n + 2 ==> data[j] == 0.0
      invariant data[0] == 0.0
    {
      bins := bins[2 * bb + 1 := binsIn[bb]];
      bins := bins[2 * bb + 2 := binsIn[bb] + step];
      if bb < |histIn| {
        data := data[2 * bb + 1 := histIn[bb]];
        data := data[2 * bb + 2 := histIn[bb]];
      }
      bb := bb + 1;
    }
    bins := bins[0 := bins[1]];
    bins := bins[2 * n + 1 := bins[2 * n]];
    data := data[0 := 0.0];
    data := data[2 * n + 1 := 0.0];
    assert bins == OutlineBins(binsIn);
    assert data == OutlineData(histIn, n);
    OutlineLayout(histIn, binsIn);
  }

  /** The reference arrays slot by slot, in terms of edge and bin indices. */
  lemma OutlineLayout(histIn: seq<real>, binsIn: seq<real>)
    requires |binsIn| >= 2
    ensures var b := OutlineBins(binsIn);
            && (forall bb :: 0 <= bb < |binsIn| ==>
                  b[2 * bb + 1] == binsIn[bb] && b[2 * bb + 2] == binsIn[bb] + StepSize(binsIn))
            && b[0] == b[1] && b[2 * |binsIn| + 1] == b[2 * |binsIn|]
    ensures var d := OutlineData(histIn, |binsIn|);
            && (forall bb :: 0 <= bb < |histIn| && bb < |binsIn| ==>
                  d[2 * bb + 1] == histIn[bb] && d[2 * bb + 2] == histIn[bb])
            && (forall j :: 0 <= j < |d| && (j == 0 || j == |d| - 1 || j > 2 * |histIn|) ==> d[j] == 0.0)
  {
    var n := |binsIn|;
    var b := OutlineBins(binsIn);
    var d := OutlineData(histIn, n);
    forall bb | 0 <= bb < n
      ensures b[2 * bb + 1] == binsIn[bb] && b[2 * bb + 2] == binsIn[bb] + StepSize(binsIn)
    {
      assert (2 * bb + 1 - 1) / 2 == bb && (2 * bb + 2 - 2) / 2 == bb;
    }
    forall bb | 0 <= bb < |histIn| && bb < n
      ensures d[2 * bb + 1] == histIn[bb] && d[2 * bb + 2] == histIn[bb]
    {
      assert (2 * bb + 1 - 1) / 2 == bb && (2 * bb + 2 - 1) / 2 == bb;
    }
  }

  /** Reads the histogram back off an outline: the edges sit in the odd x
      slots and the bin contents in the odd y slots. */
  function Unoutline(bins: seq<real>, data: seq<real>): (r: (seq<real>, seq<real>))
    requires |bins| >= 4 && |bins| % 2 == 0 && |data| == |bins|
    ensures |r.0| == (|bins| - 2) / 2 && |r.1| == |r.0| - 1
  {
    var n := (|bins| - 2) / 2;
    (seq(n, k requires 0 <= k < n => bins[2 * k + 1]),
     seq(n - 1, k requires 0 <= k < n - 1 => data[2 * k + 1]))
  }

  /** The outline loses nothing: for a histogram with one edge more than
      bins, as np.histogram returns it, the edges and contents are recovered
      exactly. */
  lemma UnoutlineInvertsOutline(histIn: seq<real>, binsIn: seq<real>)
    requires |binsIn| >= 2 && |histIn| == |binsIn| - 1
    ensures Unoutline(OutlineBins(binsIn), OutlineData(histIn, |binsIn|)) == (binsIn, histIn)
  {
    var n := |binsIn|;
    var r := Unoutline(OutlineBins(binsIn), OutlineData(histIn, n));
    assert r.0 == binsIn by {
      forall k | 0 <= k < n ensures r.0[k] == binsIn[k] {
        assert (2 * k + 1 - 1) / 2 == k;
      }
    }
    assert r.1 == histIn by {
      forall k | 0 <= k < n - 1 ensures r.1[k] == histIn[k] {
        assert (2 * k + 1 - 1) / 2 == k;
      }
    }
  }

  /** Edges evenly spaced by the first bin's width, as np.histogram produces. */
  predicate EvenlySpaced(binsIn: seq<real>)
    requires |binsIn| >= 2
  {
    forall k :: 0 <= k < |binsIn| - 1 ==> binsIn[k + 1] == binsIn[k] + StepSize(binsIn)
  }

  /** The outline is a staircase: each bin's two slots hold its level (a flat
      step), and for evenly spaced edges each pair of slots across an edge
      shares its x (a vertical riser); with a positive step the x array never
      decreases. */
  lemma {:induction false} OutlineIsStaircase(histIn: seq<real>, binsIn: seq<real>)
    requires |binsIn| >= 2 && EvenlySpaced(binsIn)
    ensures var b := OutlineBins(binsIn);
            forall j :: 0 <= j < |b| - 1 && j % 2 == 0 ==> b[j] == b[j + 1]
    ensures var d := OutlineData(histIn, |binsIn|);
            forall j :: 0 < j < |d| - 1 && j % 2 == 1 ==> d[j] == d[j + 1]
    ensures StepSize(binsIn) >= 0.0 ==> NonDecreasing(OutlineBins(binsIn))
  {
    var n := |binsIn|;
    var b := OutlineBins(binsIn);
    var d := OutlineData(histIn, n);
    forall j | 0 <= j < |b| - 1 && j % 2 == 0 ensures b[j] == b[j + 1] {
      if 0 < j < 2 * n {
        var bb := (j - 2) / 2;
        assert j == 2 * bb + 2 && (j + 1 - 1) / 2 == bb + 1;
        assert binsIn[bb + 1] == binsIn[bb] + StepSize(binsIn);
      }
    }
    forall j | 0 < j < |d| - 1 && j % 2 == 1 ensures d[j] == d[j + 1] {
      assert (j + 1 - 1) / 2 == (j - 1) / 2;
    }
    if StepSize(binsIn) >= 0.0 {
      forall j | 0 <= j < |b| - 1 ensures b[j] <= b[j + 1] {
        if j % 2 == 1 {
          var bb := (j - 1) / 2;
          assert j == 2 * bb + 1;
          if j + 1 < 2 * n + 1 {
            assert (j + 1 - 2) / 2 == bb;
          }
        }
      }
      NonDecreasingFromSteps(b);
    }
  }

  /** Adjacent order implies order everywhere. */
  lemma {:induction false} NonDecreasingFromSteps(s: seq<real>)
    requires forall j :: 0 <= j < |s| - 1 ==> s[j] <= s[j + 1]
    ensures NonDecreasing(s)
  {
    if |s| > 1 {
      NonDecreasingFromSteps(s[..|s| - 1]);
      assert s[..|s| - 1][|s| - 2] == s[|s| - 2];
      forall i, k | 0 <= i <= k < |s| ensures s[i] <= s[k] {
        if k == |s| - 1 && i < k {
          assert s[..|s| - 1][i] <= s[..|s| - 1][|s| - 2];
        } else if k < |s| - 1 {
          assert s[..|s| - 1][i] <= s[..|s| - 1][k];
        }
      }
    }
  }
}
