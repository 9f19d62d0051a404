/** Integer pixel geometry: points, OpenCV rectangles, truncating conversions
    and the index arithmetic numpy applies to a slice. */
module Geometry {

  datatype Point = Point(x: int, y: int)

  /** A cv::Rect: top-left corner (x, y), width w and height h. */
  datatype Rect = Rect(x: int, y: int, w: int, h: int)

  /** Integer quotient rounded toward zero, as `int(a / d)` or `astype(int)` of a float quotient. */
  function TruncDiv(a: int, d: int): (q: int)
    requires d > 0
    ensures a >= 0 ==> q * d <= a < q * d + d
    ensures a < 0 ==> q * d - d < a <= q * d
  {
    if a >= 0 then a / d else -((-a) / d)
  }

  /** `int(r)` in Python: truncation of a real toward zero. */
  function TruncReal(r: real): (n: int)
    ensures r >= 0.0 ==> n as real <= r < n as real + 1.0
    ensures r < 0.0 ==> n as real - 1.0 < r <= n as real
  {
    if r >= 0.0 then r.Floor else -((-r).Floor)
  }

  /** The half-open membership test of backend/cartoonizer.py line 64. */
  predicate InRect(p: Point, r: Rect) {
    r.x <= p.x < r.x + r.w && r.y <= p.y < r.y + r.h
  }

  /** Squared Euclidean distance; it orders points exactly as the norm does. */
  function SqDist(p: Point, q: Point): nat {
    (p.x - q.x) * (p.x - q.x) + (p.y - q.y) * (p.y - q.y)
  }

  /** Distinct points are at a positive distance. */
  lemma SqDistPositive(p: Point, q: Point)
    requires p != q
    ensures SqDist(p, q) > 0
  {
    var dx, dy := p.x - q.x, p.y - q.y;
    assert dx * dx >= 0 && dy * dy >= 0;
    if dx != 0 {
      assert dx * dx > 0;
    } else {
      assert dy != 0;
      assert dy * dy > 0;
    }
  }

  function Xs(pts: seq<Point>): (r: seq<int>)
    ensures |r| == |pts| && forall i :: 0 <= i < |pts| ==> r[i] == pts[i].x
  {
    seq(|pts|, i requires 0 <= i < |pts| => pts[i].x)
  }

  function Ys(pts: seq<Point>): (r: seq<int>)
    ensures |r| == |pts| && forall i :: 0 <= i < |pts| ==> r[i] == pts[i].y
  {
    seq(|pts|, i requires 0 <= i < |pts| => pts[i].y)
  }

  function MinOf(s: seq<int>): (m: int)
    requires |s| > 0
    ensures m in s && forall i :: 0 <= i < |s| ==> m <= s[i]
  {
    if |s| == 1 then s[0]
    else
      var rest := MinOf(s[1..]);
      if s[0] <= rest then s[0] else rest
  }

  function MaxOf(s: seq<int>): (m: int)
    requires |s| > 0
    ensures m in s && forall i :: 0 <= i < |s| ==> s[i] <= m
  {
    if |s| == 1 then s[0]
    else
      var rest := MaxOf(s[1..]);
      if s[0] >= rest then s[0] else rest
  }

  /** cv2.boundingRect of an integer point set: the smallest rectangle, with
      inclusive extremes, so width and height are max - min + 1; an empty set
      gives the zero rectangle. */
  function BoundingRect(pts: seq<Point>): (r: Rect)
    ensures |pts| == 0 ==> r == Rect(0, 0, 0, 0)
    ensures |pts| > 0 ==> r.w >= 1 && r.h >= 1
  {
    if |pts| == 0 then Rect(0, 0, 0, 0)
    else
      var x0, y0 := MinOf(Xs(pts)), MinOf(Ys(pts));
      Rect(x0, y0, MaxOf(Xs(pts)) - x0 + 1, MaxOf(Ys(pts)) - y0 + 1)
  }

  /** Every point of a set lies in its half-open bounding rectangle. */
  lemma BoundingRectContains(pts: seq<Point>)
    requires |pts| > 0
    ensures forall p :: p in pts ==> InRect(p, BoundingRect(pts))
  {
    var r := BoundingRect(pts);
    forall p | p in pts ensures InRect(p, r) {
      var i :| 0 <= i < |pts| && pts[i] == p;
      assert Xs(pts)[i] == p.x && Ys(pts)[i] == p.y;
    }
  }

  /** The bounding rectangle is tight: some point sits on each of its four borders. */
  lemma BoundingRectIsTight(pts: seq<Point>)
    requires |pts| > 0
    ensures exists p :: p in pts && p.x == BoundingRect(pts).x
    ensures exists p :: p in pts && p.y == BoundingRect(pts).y
    ensures exists p :: p in pts && p.x == BoundingRect(pts).x + BoundingRect(pts).w - 1
    ensures exists p :: p in pts && p.y == BoundingRect(pts).y + BoundingRect(pts).h - 1
  {
    var xs, ys := Xs(pts), Ys(pts);
    var a :| 0 <= a < |pts| && xs[a] == MinOf(xs);
    assert pts[a] in pts && pts[a].x == BoundingRect(pts).x;
    var b :| 0 <= b < |pts| && ys[b] == MinOf(ys);
    assert pts[b] in pts && pts[b].y == BoundingRect(pts).y;
    var c :| 0 <= c < |pts| && xs[c] == MaxOf(xs);
    assert pts[c] in pts && pts[c].x == BoundingRect(pts).x + BoundingRect(pts).w - 1;
    var d :| 0 <= d < |pts| && ys[d] == MaxOf(ys);
    assert pts[d] in pts && pts[d].y == BoundingRect(pts).y + BoundingRect(pts).h - 1;
  }

  /** Where numpy places the bound `i` of a slice of an axis of length n:
      negative bounds count from the end, and the result is clamped to [0, n]. */
  function SliceIndex(i: int, n: nat): (k: nat)
    ensures k <= n
    ensures 0 <= i <= n ==> k == i
    ensures i < 0 <= i + n ==> k == i + n
  {
    if i < 0 then (if i + n < 0 then 0 else i + n)
    else if i > n then n
    else i
  }

  /** The number of elements numpy's `a[lo:hi]` selects from an axis of length n. */
  function SliceLength(lo: int, hi: int, n: nat): (len: nat)
    ensures SliceIndex(lo, n) + len <= n
    ensures 0 <= lo <= hi <= n ==> len == hi - lo
  {
    var a, b := SliceIndex(lo, n), SliceIndex(hi, n);
    if b > a then b - a else 0
  }
}
