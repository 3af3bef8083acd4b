/**
 * A piecewise-linear interpolant through a list of knots
 * (src/sci/math/lambda/linear_formula_plan.rs).
 */
module LinearPlan {

  /** A closed interval [min, max]. */
  datatype Range = Range(min: real, max: real) {
    predicate Contains(x: real) {
      min <= x <= max
    }
  }

  /** The interpolant: knot abscissae and ordinates, the gradient of each segment, and the covered range. */
  datatype Linear = Linear(xns: seq<real>, yns: seq<real>, grads: seq<real>, range: Range)

  /**
   * What `Linear::new` requires of its knots: at least two, as many
   * ordinates as abscissae, and ascending abscissae (taken strictly, as the
   * gradients divide by their differences).
   */
  predicate Knots(xns: seq<real>, yns: seq<real>) {
    && |xns| >= 2
    && |xns| == |yns|
    && forall i, j | 0 <= i < j < |xns| :: xns[i] < xns[j]
  }

  /** The gradient of segment i, from knot i to knot i + 1. */
  function Grad(xns: seq<real>, yns: seq<real>, i: nat): real
    requires Knots(xns, yns) && i + 1 < |xns|
  {
    (yns[i + 1] - yns[i]) / (xns[i + 1] - xns[i])
  }

  /** A well-built interpolant: one gradient per segment, and the range from the first knot to the last. */
  ghost predicate Valid(l: Linear) {
    && Knots(l.xns, l.yns)
    && |l.grads| == |l.xns| - 1
    && (forall i | 0 <= i < |l.grads| :: l.grads[i] == Grad(l.xns, l.yns, i))
    && l.range == Range(l.xns[0], l.xns[|l.xns| - 1])
  }

  /** `Linear::new`: computes the gradient of each consecutive pair of knots, in order. */
  method New(xns: seq<real>, yns: seq<real>) returns (l: Linear)
    requires Knots(xns, yns)
    ensures Valid(l) && l.xns == xns && l.yns == yns
  {
    var grads: seq<real> := [];
    for i := 0 to |xns| - 1
      invariant |grads| == i
      invariant forall j | 0 <= j < i :: grads[j] == Grad(xns, yns, j)
    {
      var deltaX := xns[i + 1] - xns[i];
      var deltaY := yns[i + 1] - yns[i];
      grads := grads + [deltaY / deltaX];
    }
    l := Linear(xns, yns, grads, Range(xns[0], xns[|xns| - 1]));
  }

  /** The first knot from index `from` on whose abscissa is at least x. */
  function Segment(xns: seq<real>, x: real, from: nat): (k: nat)
    requires from < |xns| && x <= xns[|xns| - 1]
    ensures from <= k < |xns| && x <= xns[k]
    ensures forall j | from <= j < k :: x > xns[j]
    decreases |xns| - from
  {
    if x <= xns[from] then from else Segment(xns, x, from + 1)
  }

  /** The value at x: on the first segment whose right knot is at or beyond x, extrapolated back from that knot. */
  ghost function Value(l: Linear, x: real): real
    requires Valid(l) && l.range.Contains(x)
  {
    var k := Segment(l.xns, x, 1);
    l.yns[k] + (x - l.xns[k]) * l.grads[k - 1]
  }

  /**
   * `Linear::y`: scans the knots after the first for the first abscissa at
   * least x and extrapolates from it along the segment's gradient. Since x
   * is within the range, the scan always stops before the end, so the
   * source's `unreachable!` is never reached.
   */
  method Y(l: Linear, x: real) returns (y: real)
    requires Valid(l) && l.range.Contains(x)
    ensures y == Value(l, x)
  {
    ghost var k := Segment(l.xns, x, 1);
    var i := 1;
    while !(x <= l.xns[i])
      invariant 1 <= i <= k
      decreases k - i
    {
      i := i + 1;
    }
    var delta := x - l.xns[i];
    y := l.yns[i] + delta * l.grads[i - 1];
  }

  /** On its segment, the value lies on the straight line from the segment's left knot. */
  lemma {:induction false} ValueOnSegment(l: Linear, x: real)
    requires Valid(l) && l.range.Contains(x)
    ensures var k := Segment(l.xns, x, 1);
      && l.xns[k - 1] <= x <= l.xns[k]
      && Value(l, x) == l.yns[k - 1] + (x - l.xns[k - 1]) * l.grads[k - 1]
  {
    var k := Segment(l.xns, x, 1);
    var g := l.grads[k - 1];
    var dx := l.xns[k] - l.xns[k - 1];
    GradTimesWidth(l, k);
    if k > 1 {
      assert x > l.xns[k - 1];
    }
    calc {
      l.yns[k] + (x - l.xns[k]) * g;
      l.yns[k - 1] + g * dx + (x - l.xns[k]) * g;
      { assert g * dx + (x - l.xns[k]) * g == (x - l.xns[k - 1]) * g; }
      l.yns[k - 1] + (x - l.xns[k - 1]) * g;
    }
  }

  /** The interpolant passes through every knot. */
  lemma ThroughKnots(l: Linear, j: nat)
    requires Valid(l) && j < |l.xns|
    ensures l.range.Contains(l.xns[j])
    ensures Value(l, l.xns[j]) == l.yns[j]
  {
    var x := l.xns[j];
    assert l.range.Contains(x) by {
      assert l.xns[0] <= x <= l.xns[|l.xns| - 1];
    }
    var k := Segment(l.xns, x, 1);
    if j == 0 {
      ValueOnSegment(l, x);
      assert k == 1;
      assert Value(l, x) == l.yns[0] + 0.0 * l.grads[0];
    } else {
      assert k == j;
      assert Value(l, x) == l.yns[j] + 0.0 * l.grads[j - 1];
    }
  }

  /** Between two knots the value lies between their ordinates. */
  lemma ValueBetweenKnots(l: Linear, x: real)
    requires Valid(l) && l.range.Contains(x)
    ensures var k := Segment(l.xns, x, 1);
      var lo := if l.yns[k - 1] <= l.yns[k] then l.yns[k - 1] else l.yns[k];
      var hi := if l.yns[k - 1] <= l.yns[k] then l.yns[k] else l.yns[k - 1];
      lo <= Value(l, x) <= hi
  {
    var k := Segment(l.xns, x, 1);
    if k > 1 {
      assert x > l.xns[k - 1];
    }
    assert l.grads[k - 1] == (l.yns[k] - l.yns[k - 1]) / (l.xns[k] - l.xns[k - 1]) by {
      assert l.grads[k - 1] == Grad(l.xns, l.yns, k - 1);
    }
    SegmentBetween(l.xns[k - 1], l.xns[k], l.yns[k - 1], l.yns[k], l.grads[k - 1], x, Value(l, x));
  }

  /**
   * Extrapolating back from the right end of a segment along its gradient,
   * to a point within the segment, stays between the two ordinates.
   */
  lemma SegmentBetween(x0: real, x1: real, y0: real, y1: real, g: real, x: real, v: real)
    requires x0 < x1 && x0 <= x <= x1 && g == (y1 - y0) / (x1 - x0)
    requires v == y1 + (x - x1) * g
    ensures (if y0 <= y1 then y0 else y1) <= v <= (if y0 <= y1 then y1 else y0)
  {
    var dx := x1 - x0;
    assert g * dx == y1 - y0;
    assert y1 + (x - x1) * g == y0 + (x - x0) * g;
    StepBetween(y0, y1, g, dx, x - x0);
  }

  /** A segment's gradient times its width is its rise. */
  lemma GradTimesWidth(l: Linear, k: nat)
    requires Valid(l) && 1 <= k < |l.xns|
    ensures l.xns[k] - l.xns[k - 1] > 0.0
    ensures l.grads[k - 1] * (l.xns[k] - l.xns[k - 1]) == l.yns[k] - l.yns[k - 1]
  {
    var dx := l.xns[k] - l.xns[k - 1];
    assert dx > 0.0;
    assert l.grads[k - 1] == (l.yns[k] - l.yns[k - 1]) / dx;
  }

  /** Going part of the way along a step of gradient g stays between its two ends. */
  lemma StepBetween(a: real, b: real, g: real, dx: real, t: real)
    requires dx > 0.0 && 0.0 <= t <= dx && g * dx == b - a
    ensures (if a <= b then a else b) <= a + t * g <= (if a <= b then b else a)
  {
    assert (dx - t) * g == g * dx - t * g;
    if g >= 0.0 {
      assert (dx - t) * g >= 0.0;
      assert t * g >= 0.0;
    } else {
      assert (dx - t) * g <= 0.0;
      assert t * g <= 0.0;
    }
  }
}
