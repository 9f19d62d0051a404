/** Triangle vertex filtering and nearest-point correspondence (warp_region's
    inner loop): vertices outside the hull's bounding rectangle are dropped,
    and each kept vertex is matched to the scaled point at the index of the
    first source point nearest to it. */
module Correspondence {
  import opened Geometry

  /** `np.argmin` over the distances to the source points: the first index of
      least distance, defined as the fold the scan performs. */
  function FirstNearest(p: Point, pts: seq<Point>): (k: nat)
    requires |pts| > 0
    ensures k < |pts|
  {
    if |pts| == 1 then 0
    else
      var k := FirstNearest(p, pts[..|pts| - 1]);
      if SqDist(p, pts[|pts| - 1]) < SqDist(p, pts[k]) then |pts| - 1 else k
  }

  /** k holds a least distance to p, and every earlier index is strictly farther. */
  ghost predicate IsFirstNearest(p: Point, pts: seq<Point>, k: int) {
    0 <= k < |pts| &&
    (forall j :: 0 <= j < |pts| ==> SqDist(p, pts[k]) <= SqDist(p, pts[j])) &&
    (forall j :: 0 <= j < k ==> SqDist(p, pts[k]) < SqDist(p, pts[j]))
  }

  lemma {:induction false} FirstNearestIsArgMin(p: Point, pts: seq<Point>)
    requires |pts| > 0
    ensures IsFirstNearest(p, pts, FirstNearest(p, pts))
  {
    if |pts| > 1 {
      var init := pts[..|pts| - 1];
      FirstNearestIsArgMin(p, init);
      assert forall j :: 0 <= j < |init| ==> init[j] == pts[j];
    }
  }

  /** The argmin is the only index with the first-nearest property. */
  lemma FirstNearestIsUnique(p: Point, pts: seq<Point>, k: int)
    requires |pts| > 0 && IsFirstNearest(p, pts, k)
    ensures k == FirstNearest(p, pts)
  {
    var m := FirstNearest(p, pts);
    FirstNearestIsArgMin(p, pts);
    assert !(k < m) && !(m < k);
  }

  /** A vertex that is one of the source points is matched to the first
      occurrence of that point (distance zero wins). */
  lemma VertexAtSourcePoint(p: Point, pts: seq<Point>, k: nat)
    requires k < |pts| && pts[k] == p
    requires forall j :: 0 <= j < k ==> pts[j] != p
    ensures FirstNearest(p, pts) == k
  {
    forall j | 0 <= j < k ensures SqDist(p, pts[k]) < SqDist(p, pts[j]) {
      SqDistPositive(p, pts[j]);
    }
    FirstNearestIsUnique(p, pts, k);
  }

  /** The argmin loop: the norms are scanned in order, ties keep the earlier index. */
  method Nearest(p: Point, pts: seq<Point>) returns (k: nat)
    requires |pts| > 0
    ensures k == FirstNearest(p, pts)
  {
    k := 0;
    var best := SqDist(p, pts[0]);
    for i := 1 to |pts|
      invariant k == FirstNearest(p, pts[..i])
      invariant best == SqDist(p, pts[k])
    {
      assert pts[..i + 1][..i] == pts[..i];
      var d := SqDist(p, pts[i]);
      if d < best {
        k, best := i, d;
      }
    }
    assert pts[..|pts|] == pts;
  }

  /** The vertices, in order, that pass the half-open rectangle test. */
  function KeptVertices(vs: seq<Point>, rect: Rect): seq<Point> {
    if |vs| == 0 then []
    else KeptVertices(vs[..|vs| - 1], rect) + (if InRect(vs[|vs| - 1], rect) then [vs[|vs| - 1]] else [])
  }

  /** The kept vertices are exactly the vertices inside the rectangle: each
      kept one is a vertex inside it, each vertex inside it is kept, all are
      kept exactly when all are inside, and then the kept sequence is the
      triangle's own vertices in their order. */
  lemma KeptVerticesInside(vs: seq<Point>, rect: Rect)
    ensures |KeptVertices(vs, rect)| <= |vs|
    ensures forall p :: p in KeptVertices(vs, rect) ==> p in vs && InRect(p, rect)
    ensures forall p :: p in vs && InRect(p, rect) ==> p in KeptVertices(vs, rect)
    ensures |KeptVertices(vs, rect)| == |vs| <==> forall i :: 0 <= i < |vs| ==> InRect(vs[i], rect)
    ensures (forall i :: 0 <= i < |vs| ==> InRect(vs[i], rect)) ==> KeptVertices(vs, rect) == vs
  {
    KeptAreInside(vs, rect);
    InsideVerticesKept(vs, rect);
    if forall i :: 0 <= i < |vs| ==> InRect(vs[i], rect) {
      AllInsideKeptInOrder(vs, rect);
    }
  }

  /** Each kept vertex is a vertex inside the rectangle, and none is dropped
      exactly when all are inside. */
  lemma {:induction false} KeptAreInside(vs: seq<Point>, rect: Rect)
    ensures |KeptVertices(vs, rect)| <= |vs|
    ensures forall p :: p in KeptVertices(vs, rect) ==> p in vs && InRect(p, rect)
    ensures |KeptVertices(vs, rect)| == |vs| <==> forall i :: 0 <= i < |vs| ==> InRect(vs[i], rect)
  {
    if |vs| > 0 {
      var init := vs[..|vs| - 1];
      KeptAreInside(init, rect);
      assert forall i :: 0 <= i < |init| ==> init[i] == vs[i];
      assert vs == init + [vs[|vs| - 1]];
    }
  }

  /** Every vertex inside the rectangle survives the filter. */
  lemma {:induction false} InsideVerticesKept(vs: seq<Point>, rect: Rect)
    ensures forall p :: p in vs && InRect(p, rect) ==> p in KeptVertices(vs, rect)
  {
    if |vs| > 0 {
      var init := vs[..|vs| - 1];
      InsideVerticesKept(init, rect);
      assert vs == init + [vs[|vs| - 1]];
      forall p | p in vs && InRect(p, rect) ensures p in KeptVertices(vs, rect) {
        if p != vs[|vs| - 1] {
          assert p in init;
        }
      }
    }
  }

  /** When every vertex is inside, the filter returns the vertices unchanged. */
  lemma {:induction false} AllInsideKeptInOrder(vs: seq<Point>, rect: Rect)
    requires forall i :: 0 <= i < |vs| ==> InRect(vs[i], rect)
    ensures KeptVertices(vs, rect) == vs
  {
    if |vs| > 0 {
      var init := vs[..|vs| - 1];
      assert forall i :: 0 <= i < |init| ==> InRect(init[i], rect) by {
        assert forall i :: 0 <= i < |init| ==> init[i] == vs[i];
      }
      AllInsideKeptInOrder(init, rect);
      assert vs == init + [vs[|vs| - 1]];
    }
  }

  /** `dst_pts[argmin]` for each kept vertex; same-length regions make the index valid. */
  function Matched(kept: seq<Point>, src: seq<Point>, dst: seq<Point>): (r: seq<Point>)
    requires |src| == |dst| > 0
    ensures |r| == |kept|
  {
    seq(|kept|, k requires 0 <= k < |kept| => dst[FirstNearest(kept[k], src)])
  }

  /** The inner loop of warp_region over the three vertices of one triangle. */
  method CorrespondTriangle(vs: seq<Point>, rect: Rect, src: seq<Point>, dst: seq<Point>)
    returns (srcTri: seq<Point>, dstTri: seq<Point>)
    requires |src| == |dst| > 0
    ensures srcTri == KeptVertices(vs, rect)
    ensures dstTri == Matched(srcTri, src, dst)
  {
    srcTri, dstTri := [], [];
    for i := 0 to |vs|
      invariant srcTri == KeptVertices(vs[..i], rect)
      invariant dstTri == Matched(srcTri, src, dst)
    {
      assert vs[..i + 1][..i] == vs[..i];
      var pt := vs[i];
      if InRect(pt, rect) {
        srcTri := srcTri + [pt];
        var idx := Nearest(pt, src);
        dstTri := dstTri + [dst[idx]];
      }
    }
    assert vs[..|vs|] == vs;
  }

  /** A triangle is warped only when all three of its vertices are kept. */
  lemma TriangleKeptIffInside(vs: seq<Point>, rect: Rect)
    requires |vs| == 3
    ensures |KeptVertices(vs, rect)| == 3 <==> InRect(vs[0], rect) && InRect(vs[1], rect) && InRect(vs[2], rect)
  {
    KeptVerticesInside(vs, rect);
  }
}
