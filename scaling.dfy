/** Region scaling: every point of a region is pushed away from (or pulled
    toward) the region's integer centroid by a fixed rational factor. */
module Scaling {
  import opened Geometry

  /** An exact rational scale factor num/den. */
  datatype Factor = Factor(num: int, den: int)
  type Scale = f: Factor | f.den > 0 witness Factor(1, 1)

  const EyeScale: Scale := Factor(14, 10)
  const ForeheadScale: Scale := Factor(12, 10)
  const ChinScale: Scale := Factor(8, 10)

  function Sum(s: seq<int>): int {
    if |s| == 0 then 0 else Sum(s[..|s| - 1]) + s[|s| - 1]
  }

  /** `np.mean(points, axis=0).astype(int)`: the per-axis mean, truncated toward zero. */
  function Centroid(pts: seq<Point>): Point
    requires |pts| > 0
  {
    Point(TruncDiv(Sum(Xs(pts)), |pts|), TruncDiv(Sum(Ys(pts)), |pts|))
  }

  lemma {:induction false} SumBetween(s: seq<int>, lo: int, hi: int)
    requires forall i :: 0 <= i < |s| ==> lo <= s[i] <= hi
    ensures |s| * lo <= Sum(s) <= |s| * hi
  {
    if |s| > 0 {
      SumBetween(s[..|s| - 1], lo, hi);
      assert (|s| - 1) * lo + lo == |s| * lo;
      assert (|s| - 1) * hi + hi == |s| * hi;
    }
  }

  /** A truncated mean of values in [lo, hi] is itself in [lo, hi]. */
  lemma TruncMeanBetween(s: seq<int>, lo: int, hi: int)
    requires |s| > 0
    requires forall i :: 0 <= i < |s| ==> lo <= s[i] <= hi
    ensures lo <= TruncDiv(Sum(s), |s|) <= hi
  {
    SumBetween(s, lo, hi);
    TruncQuotientBetween(Sum(s), |s|, lo, hi);
  }

  lemma TruncQuotientBetween(a: int, n: int, lo: int, hi: int)
    requires n > 0 && n * lo <= a <= n * hi
    ensures lo <= TruncDiv(a, n) <= hi
  {
    var q := TruncDiv(a, n);
    if a >= 0 {
      assert (q + 1) * n == q * n + n;
      CancelLess(lo, q + 1, n);
      CancelLe(q, hi, n);
    } else {
      assert (q - 1) * n == q * n - n;
      CancelLe(lo, q, n);
      CancelLess(q - 1, hi, n);
    }
  }

  lemma CancelLe(a: int, b: int, n: int)
    requires n > 0 && a * n <= b * n
    ensures a <= b
  {
    assert (b - a) * n == b * n - a * n;
  }

  lemma CancelLess(a: int, b: int, n: int)
    requires n > 0 && a * n < b * n
    ensures a < b
  {
    assert (b - a) * n == b * n - a * n;
  }

  /** The centroid lies within the region's extent on each axis. */
  lemma CentroidWithinBounds(pts: seq<Point>)
    requires |pts| > 0
    ensures MinOf(Xs(pts)) <= Centroid(pts).x <= MaxOf(Xs(pts))
    ensures MinOf(Ys(pts)) <= Centroid(pts).y <= MaxOf(Ys(pts))
  {
    TruncMeanBetween(Xs(pts), MinOf(Xs(pts)), MaxOf(Xs(pts)));
    TruncMeanBetween(Ys(pts), MinOf(Ys(pts)), MaxOf(Ys(pts)));
  }

  /** One coordinate of `(center + (pt - center) * factor).astype(np.int32)`, computed exactly. */
  function ScaleAxis(v: int, c: int, f: Scale): int {
    TruncDiv(c * f.den + (v - c) * f.num, f.den)
  }

  function ScalePoint(p: Point, c: Point, f: Scale): Point {
    Point(ScaleAxis(p.x, c.x, f), ScaleAxis(p.y, c.y, f))
  }

  /** The exact (real) target c + (v - c) * num / den of one coordinate. */
  function Target(v: int, c: int, f: Scale): real {
    c as real + (v - c) as real * (f.num as real / f.den as real)
  }

  /** A scaled coordinate is its exact target rounded toward zero: within one
      pixel of it, on the side of the origin. */
  lemma ScaleAxisAccuracy(v: int, c: int, f: Scale)
    ensures Target(v, c, f) >= 0.0 ==> ScaleAxis(v, c, f) as real <= Target(v, c, f) < ScaleAxis(v, c, f) as real + 1.0
    ensures Target(v, c, f) < 0.0 ==> ScaleAxis(v, c, f) as real - 1.0 < Target(v, c, f) <= ScaleAxis(v, c, f) as real
  {
    var a := c * f.den + (v - c) * f.num;
    TargetScaled(v, c, f);
    if a >= 0 {
      RoundDown(a, f.den, Target(v, c, f));
    } else {
      RoundUp(a, f.den, Target(v, c, f));
    }
  }

  /** The target times the denominator is the integer numerator the source truncates. */
  lemma TargetScaled(v: int, c: int, f: Scale)
    ensures Target(v, c, f) * f.den as real == (c * f.den + (v - c) * f.num) as real
  {
    var d := f.den as real;
    assert (f.num as real / d) * d == f.num as real;
    calc {
      Target(v, c, f) * d;
      c as real * d + (v - c) as real * ((f.num as real / d) * d);
      c as real * d + (v - c) as real * f.num as real;
    }
  }

  lemma RoundDown(a: int, den: int, t: real)
    requires den > 0 && a >= 0 && t * den as real == a as real
    ensures TruncDiv(a, den) as real <= t < TruncDiv(a, den) as real + 1.0
  {
    var q, d := TruncDiv(a, den), den as real;
    assert (q * den) as real == q as real * d;
    assert (q * den + den) as real == (q as real + 1.0) * d;
    RealCancelLe(q as real, t, d);
    RealCancelLess(t, q as real + 1.0, d);
  }

  lemma RoundUp(a: int, den: int, t: real)
    requires den > 0 && a < 0 && t * den as real == a as real
    ensures TruncDiv(a, den) as real - 1.0 < t <= TruncDiv(a, den) as real
  {
    var q, d := TruncDiv(a, den), den as real;
    assert (q * den) as real == q as real * d;
    assert (q * den - den) as real == (q as real - 1.0) * d;
    RealCancelLess(q as real - 1.0, t, d);
    RealCancelLe(t, q as real, d);
  }

  lemma RealCancelLe(a: real, b: real, d: real)
    requires d > 0.0 && a * d <= b * d
    ensures a <= b
  {
    assert (b - a) * d == b * d - a * d;
  }

  lemma RealCancelLess(a: real, b: real, d: real)
    requires d > 0.0 && a * d < b * d
    ensures a < b
  {
    assert (b - a) * d == b * d - a * d;
  }

  /** The specification of scale_region: one scaled point per input point, in order. */
  function ScaledRegion(pts: seq<Point>, f: Scale): (r: seq<Point>)
    requires |pts| > 0
    ensures |r| == |pts|
  {
    seq(|pts|, i requires 0 <= i < |pts| => ScalePoint(pts[i], Centroid(pts), f))
  }

  /** scale_region: the centroid, then a loop appending each scaled point. */
  method ScaleRegion(pts: seq<Point>, f: Scale) returns (scaled: seq<Point>)
    requires |pts| > 0
    ensures |scaled| == |pts|
    ensures forall i :: 0 <= i < |pts| ==> scaled[i] == ScalePoint(pts[i], Centroid(pts), f)
    ensures scaled == ScaledRegion(pts, f)
  {
    var center := Centroid(pts);
    scaled := [];
    for i := 0 to |pts|
      invariant |scaled| == i
      invariant forall k :: 0 <= k < i ==> scaled[k] == ScalePoint(pts[k], center, f)
    {
      var offset := Point(pts[i].x - center.x, pts[i].y - center.y);
      var pt := Point(TruncDiv(center.x * f.den + offset.x * f.num, f.den),
                      TruncDiv(center.y * f.den + offset.y * f.num, f.den));
      assert pt == ScalePoint(pts[i], center, f);
      scaled := scaled + [pt];
    }
    assert forall k :: 0 <= k < |pts| ==> scaled[k] == ScaledRegion(pts, f)[k];
  }

  /** With a factor of one, scaling gives back the region unchanged. */
  lemma ScaleByOneIsIdentity(pts: seq<Point>, f: Scale)
    requires |pts| > 0 && f.num == f.den
    ensures ScaledRegion(pts, f) == pts
  {
    var c := Centroid(pts);
    forall i | 0 <= i < |pts| ensures ScaledRegion(pts, f)[i] == pts[i] {
      UnitAxis(pts[i].x, c.x, f.den);
      UnitAxis(pts[i].y, c.y, f.den);
    }
  }

  lemma UnitAxis(v: int, c: int, d: int)
    requires d > 0
    ensures TruncDiv(c * d + (v - c) * d, d) == v
  {
    assert c * d + (v - c) * d == v * d;
    var q := TruncDiv(v * d, d);
    if v * d >= 0 {
      assert (q + 1) * d == q * d + d;
      CancelLe(q, v, d);
      CancelLess(v, q + 1, d);
    } else {
      assert (q - 1) * d == q * d - d;
      CancelLe(v, q, d);
      CancelLess(q - 1, v, d);
    }
  }

  /** The centroid is a fixed point of scaling by any factor. */
  lemma CentroidIsFixed(pts: seq<Point>, f: Scale)
    requires |pts| > 0
    ensures ScalePoint(Centroid(pts), Centroid(pts), f) == Centroid(pts)
  {
    var c := Centroid(pts);
    UnitAxis(c.x, c.x, f.den);
    UnitAxis(c.y, c.y, f.den);
  }
}
