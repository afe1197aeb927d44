/** One-dimensional piecewise-linear interpolation in the manner of `np.interp`:
    below the first node the value is clamped to the first node's value, above
    the last node to the last node's value, and between two neighbouring nodes
    it lies on the straight line through them. */
module Interpolation {
  import opened ArrayOps

  /** The interpolated value at `x` with nodes `(xp[k], fp[k])`. The nodes are
      walked left to right; on an increasing `xp` this finds the segment
      `xp[j] <= x < xp[j + 1]` that numpy's search finds. */
  function InterpAt(x: real, xp: seq<real>, fp: seq<real>): real
    requires |xp| == |fp| > 0
    decreases |xp|
  {
    if x <= xp[0] then fp[0]
    else if |xp| == 1 then fp[0]
    else if x < xp[1] then (fp[1] - fp[0]) / (xp[1] - xp[0]) * (x - xp[0]) + fp[0]
    else InterpAt(x, xp[1..], fp[1..])
  }

  /** `np.interp(xs, xp, fp)`: the interpolated value at every query point. */
  function Interp(xs: seq<real>, xp: seq<real>, fp: seq<real>): (ys: seq<real>)
    requires |xp| == |fp| > 0
    ensures |ys| == |xs|
  {
    seq(|xs|, k requires 0 <= k < |xs| => InterpAt(xs[k], xp, fp))
  }

  /** At a node the interpolant takes that node's value. */
  lemma {:induction false} InterpAtNode(xp: seq<real>, fp: seq<real>, j: nat)
    requires |xp| == |fp| && j < |xp|
    requires StrictlyIncreasing(xp)
    ensures InterpAt(xp[j], xp, fp) == fp[j]
    decreases j
  {
    if j > 0 {
      assert xp[0] < xp[j] && xp[1] <= xp[j];
      InterpAtNode(xp[1..], fp[1..], j - 1);
    }
  }

  /** On one segment the line through its ends stays between their values. */
  lemma SegmentWithin(x: real, x0: real, x1: real, y0: real, y1: real, lo: real, hi: real)
    requires x0 < x < x1
    requires lo <= y0 <= hi && lo <= y1 <= hi
    ensures lo <= (y1 - y0) / (x1 - x0) * (x - x0) + y0 <= hi
  {
    var t := (x - x0) / (x1 - x0);
    var u := (x1 - x) / (x1 - x0);
    LineAsWeights(x, x0, x1, y0, y1);
    WeightedWithin(t, u, y0, y1, lo, hi);
  }

  /** A point of the segment is a weighted mean of its ends, with positive
      weights in proportion to the distances to the other end. */
  lemma LineAsWeights(x: real, x0: real, x1: real, y0: real, y1: real)
    requires x0 < x < x1
    ensures var t, u := (x - x0) / (x1 - x0), (x1 - x) / (x1 - x0);
      && t > 0.0 && u > 0.0 && t + u == 1.0
      && (y1 - y0) / (x1 - x0) * (x - x0) + y0 == u * y0 + t * y1
  {
    var d := x1 - x0;
    var t, u := (x - x0) / d, (x1 - x) / d;
    QuotientPositive(x - x0, d);
    QuotientPositive(x1 - x, d);
    QuotientSum(x - x0, x1 - x, d);
    assert (y1 - y0) / d * (x - x0) == t * (y1 - y0);
  }

  /** A weighted mean with non-negative weights summing to 1 stays between bounds of its terms. */
  lemma WeightedWithin(t: real, u: real, y0: real, y1: real, lo: real, hi: real)
    requires t >= 0.0 && u >= 0.0 && t + u == 1.0
    requires lo <= y0 <= hi && lo <= y1 <= hi
    ensures lo <= u * y0 + t * y1 <= hi
  {
    ProductNonNegative(u, y0 - lo);
    ProductNonNegative(t, y1 - lo);
    ProductNonNegative(u, hi - y0);
    ProductNonNegative(t, hi - y1);
    assert u * (y0 - lo) + t * (y1 - lo) == u * y0 + t * y1 - (u + t) * lo;
    assert u * (hi - y0) + t * (hi - y1) == (u + t) * hi - (u * y0 + t * y1);
  }

  lemma ProductNonNegative(a: real, b: real)
    requires a >= 0.0 && b >= 0.0
    ensures a * b >= 0.0
  {
  }

  lemma QuotientPositive(a: real, b: real)
    requires a > 0.0 && b > 0.0
    ensures a / b > 0.0
  {
  }

  lemma QuotientSum(a: real, c: real, b: real)
    requires b > 0.0
    ensures a / b + c / b == (a + c) / b && b / b == 1.0
  {
  }

  /** The interpolant never leaves the range of the node values. */
  lemma {:induction false} InterpWithin(x: real, xp: seq<real>, fp: seq<real>, lo: real, hi: real)
    requires |xp| == |fp| > 0
    requires forall k :: 0 <= k < |fp| ==> lo <= fp[k] <= hi
    ensures lo <= InterpAt(x, xp, fp) <= hi
    decreases |xp|
  {
    if x <= xp[0] || |xp| == 1 {
    } else if x < xp[1] {
      SegmentWithin(x, xp[0], xp[1], fp[0], fp[1], lo, hi);
    } else {
      InterpWithin(x, xp[1..], fp[1..], lo, hi);
    }
  }
}
