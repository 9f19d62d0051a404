/** The piecewise-affine warp of exaggerate_face as a specification: which
    patches each region contributes, when processing fails, and the final
    canvas. The OpenCV primitives are opaque functions supplied by the caller. */
module Warping {
  import opened Outcomes
  import opened Geometry
  import opened Regions
  import opened Scaling
  import opened Correspondence
  import opened Raster

  /** One row of Subdiv2D.getTriangleList: three vertices as floats. */
  datatype TriangleRow = TriangleRow(x0: real, y0: real, x1: real, y1: real, x2: real, y2: real)

  /** The OpenCV calls, treated as opaque functions:
      convexHull; Subdiv2D over a rectangle with the hull points inserted,
      then getTriangleList; fillConvexPoly of a local triangle into a
      rows-by-cols mask (0/1 valued); getAffineTransform of the two local
      triangles followed by warpAffine of a source block to a cols-by-rows block. */
  datatype Vision = Vision(
    convexHull: seq<Point> -> seq<Point>,
    triangulate: (Rect, seq<Point>) -> seq<TriangleRow>,
    fillTriangle: (int, int, seq<Point>) -> ((int, int) -> bool),
    warpAffine: (Grid, seq<Point>, seq<Point>, int, int) -> ((int, int) -> Pixel))

  /** `np.array(triangles, dtype=np.int32)`, read as vertices (t[0], t[1]), (t[2], t[3]), (t[4], t[5]). */
  function Vertices(t: TriangleRow): (vs: seq<Point>)
    ensures |vs| == 3
  {
    [Point(TruncReal(t.x0), TruncReal(t.y0)), Point(TruncReal(t.x1), TruncReal(t.y1)), Point(TruncReal(t.x2), TruncReal(t.y2))]
  }

  /** The triangle in the coordinates of its bounding rectangle. */
  function Localize(t: seq<Point>, r: Rect): (l: seq<Point>)
    ensures |l| == |t|
  {
    seq(|t|, i requires 0 <= i < |t| => Point(t[i].x - r.x, t[i].y - r.y))
  }

  /** Localised to its own bounding rectangle, every vertex lies in the
      rectangle [0, w) x [0, h) of the mask that fillConvexPoly draws on. */
  lemma LocalizedInsideMask(t: seq<Point>)
    requires |t| > 0
    ensures var r := BoundingRect(t);
      forall i :: 0 <= i < |t| ==> InRect(Localize(t, r)[i], Rect(0, 0, r.w, r.h))
  {
    BoundingRectContains(t);
    assert forall i :: 0 <= i < |t| ==> t[i] in t;
  }

  /** numpy can broadcast an axis of the canvas slice of length `len` against
      the mask's axis of length `want` and assign the result back to the slice. */
  predicate Broadcasts(len: nat, want: int) {
    len == want || (len == 0 && want == 1)
  }

  /** The slice of the input under the source triangle's rectangle is not empty. */
  predicate SourceBlockNonEmpty(t1: seq<Point>, height: nat, width: nat) {
    var w1 := SliceWindow(BoundingRect(t1), height, width);
    w1.rows > 0 && w1.cols > 0
  }

  /** The canvas slice under the destination triangle's rectangle can take the blend. */
  predicate DestinationBroadcasts(t2: seq<Point>, height: nat, width: nat) {
    var r2 := BoundingRect(t2);
    var w2 := SliceWindow(r2, height, width);
    Broadcasts(w2.rows, r2.h) && Broadcasts(w2.cols, r2.w)
  }

  /** warp_triangle, up to the blend: the patch it composites, or the
      exception it raises. */
  function TrianglePatch(img: Grid, height: nat, width: nat, t1: seq<Point>, t2: seq<Point>, cv: Vision): (r: Result<Patch>)
    requires IsGrid(img, height, width) && |t1| == 3 && |t2| == 3
    ensures r.Ok? <==> SourceBlockNonEmpty(t1, height, width) && DestinationBroadcasts(t2, height, width)
    ensures r.Ok? ==> r.value.window == SliceWindow(BoundingRect(t2), height, width)
    ensures r.Err? ==> r.failure == (if SourceBlockNonEmpty(t1, height, width) then ShapeMismatch else EmptySourceBlock)
  {
    var r1, r2 := BoundingRect(t1), BoundingRect(t2);
    var l1, l2 := Localize(t1, r1), Localize(t2, r2);
    var mask := cv.fillTriangle(r2.h, r2.w, l2);
    var w1 := SliceWindow(r1, height, width);
    if w1.rows == 0 || w1.cols == 0 then Err(EmptySourceBlock)
    else
      var warped := cv.warpAffine(Crop(img, height, width, w1), l1, l2, r2.w, r2.h);
      var w2 := SliceWindow(r2, height, width);
      if Broadcasts(w2.rows, r2.h) && Broadcasts(w2.cols, r2.w) then Ok(Patch(w2, warped, mask))
      else Err(ShapeMismatch)
  }

  /** On one axis, a slice starting inside the image's quadrant and spanning at
      least two pixels can take the blend exactly when it ends inside the image. */
  lemma BroadcastsIffInside(lo: int, len: int, n: nat)
    requires lo >= 0 && len >= 2
    ensures Broadcasts(SliceLength(lo, lo + len, n), len) <==> lo + len <= n
  {
    if lo + len > n {
      assert SliceLength(lo, lo + len, n) < len;
    }
  }

  /** For a destination rectangle at least 2 by 2 (as for every non-collinear
      triangle) with its corner inside the image's quadrant, and a non-empty
      source block, the blend succeeds exactly when the rectangle lies inside
      the image, and then it writes exactly that rectangle. */
  lemma TrianglePatchOkIff(img: Grid, height: nat, width: nat, t1: seq<Point>, t2: seq<Point>, cv: Vision)
    requires IsGrid(img, height, width) && |t1| == 3 && |t2| == 3
    requires SourceBlockNonEmpty(t1, height, width)
    requires var r2 := BoundingRect(t2); r2.x >= 0 && r2.y >= 0 && r2.w >= 2 && r2.h >= 2
    ensures var r2 := BoundingRect(t2);
      TrianglePatch(img, height, width, t1, t2, cv).Ok? <==> r2.y + r2.h <= height && r2.x + r2.w <= width
    ensures var r2 := BoundingRect(t2);
      TrianglePatch(img, height, width, t1, t2, cv).Ok? ==>
        TrianglePatch(img, height, width, t1, t2, cv).value.window == Window(r2.y, r2.x, r2.h, r2.w)
  {
    var r2 := BoundingRect(t2);
    BroadcastsIffInside(r2.y, r2.h, height);
    BroadcastsIffInside(r2.x, r2.w, width);
  }

  /** A triangle whose destination rectangle runs off the bottom of the image
      (so the canvas slice is shorter than the mask) raises. */
  lemma BottomBorderTriangleFails(img: Grid, height: nat, width: nat, t1: seq<Point>, t2: seq<Point>, cv: Vision)
    requires IsGrid(img, height, width) && |t1| == 3 && |t2| == 3
    requires SourceBlockNonEmpty(t1, height, width)
    requires var r2 := BoundingRect(t2); 0 <= r2.y < height < r2.y + r2.h
    ensures TrianglePatch(img, height, width, t1, t2, cv) == Err(ShapeMismatch)
  {
  }

  /** On an axis of length n, the span [lo, lo + len) lies inside the axis. */
  predicate InsideAxis(lo: int, len: int, n: nat) {
    0 <= lo && lo + len <= n
  }

  /** The span lies wholly before the axis, but no more than n before it, and
      its stop bound is negative: numpy counts both bounds from the end. */
  predicate WrapsFromEnd(lo: int, len: int, n: nat) {
    0 <= lo + n && lo + len < 0
  }

  /** The span lies wholly outside the axis, before or after it. */
  predicate OutsideAxis(lo: int, len: int, n: nat) {
    lo >= n || lo + len <= 0
  }

  /** A wrapping span selects the same number of elements, counted from the end. */
  lemma AxisWraps(lo: int, len: int, n: nat)
    requires len >= 0 && WrapsFromEnd(lo, len, n)
    ensures SliceIndex(lo, n) == lo + n && SliceLength(lo, lo + len, n) == len
  {
    assert SliceIndex(lo + len, n) == lo + len + n;
  }

  /** Every other span outside the axis selects fewer elements than it spans,
      and none when it is one element thick: after the axis both bounds clamp
      to n, a stop bound of 0 stays 0, and a span starting more than n before
      the axis loses its start to the clamp. */
  lemma AxisOutsideIsShort(lo: int, len: int, n: nat)
    requires len >= 1 && OutsideAxis(lo, len, n) && !WrapsFromEnd(lo, len, n)
    ensures SliceLength(lo, lo + len, n) < len
    ensures len == 1 ==> SliceLength(lo, lo + len, n) == 0
  {
  }

  /** The window and broadcast outcome of a destination rectangle that lies in
      the image or wraps from the end on each axis. */
  lemma WrappedWindow(r: Rect, height: nat, width: nat)
    requires r.w >= 0 && r.h >= 0
    requires InsideAxis(r.y, r.h, height) || WrapsFromEnd(r.y, r.h, height)
    requires InsideAxis(r.x, r.w, width) || WrapsFromEnd(r.x, r.w, width)
    ensures SliceWindow(r, height, width) ==
      Window(if r.y < 0 then r.y + height else r.y, if r.x < 0 then r.x + width else r.x, r.h, r.w)
    ensures var w := SliceWindow(r, height, width); Broadcasts(w.rows, r.h) && Broadcasts(w.cols, r.w)
  {
    if r.y < 0 { AxisWraps(r.y, r.h, height); }
    if r.x < 0 { AxisWraps(r.x, r.w, width); }
  }

  /** On an axis where the rectangle is at least two long and lies wholly
      outside without wrapping, the canvas slice cannot take the mask. */
  lemma OutsideRectCannotBroadcast(r: Rect, height: nat, width: nat)
    requires r.w >= 1 && r.h >= 1
    requires (r.h >= 2 && OutsideAxis(r.y, r.h, height) && !WrapsFromEnd(r.y, r.h, height)) ||
             (r.w >= 2 && OutsideAxis(r.x, r.w, width) && !WrapsFromEnd(r.x, r.w, width))
    ensures var w := SliceWindow(r, height, width); !(Broadcasts(w.rows, r.h) && Broadcasts(w.cols, r.w))
  {
    if r.h >= 2 && OutsideAxis(r.y, r.h, height) && !WrapsFromEnd(r.y, r.h, height) {
      AxisOutsideIsShort(r.y, r.h, height);
    } else {
      AxisOutsideIsShort(r.x, r.w, width);
    }
  }

  /** On an axis where the rectangle is one thick and lies wholly outside
      without wrapping, with the other axis inside the image, the canvas slice
      is empty and still takes the mask. */
  lemma ThinOutsideRectIsEmpty(r: Rect, height: nat, width: nat)
    requires r.w >= 1 && r.h >= 1
    requires (r.h == 1 && OutsideAxis(r.y, r.h, height) && !WrapsFromEnd(r.y, r.h, height) && InsideAxis(r.x, r.w, width)) ||
             (r.w == 1 && OutsideAxis(r.x, r.w, width) && !WrapsFromEnd(r.x, r.w, width) && InsideAxis(r.y, r.h, height))
    ensures var w := SliceWindow(r, height, width);
      Broadcasts(w.rows, r.h) && Broadcasts(w.cols, r.w) && (w.rows == 0 || w.cols == 0)
  {
    if r.h == 1 && OutsideAxis(r.y, r.h, height) && !WrapsFromEnd(r.y, r.h, height) && InsideAxis(r.x, r.w, width) {
      AxisOutsideIsShort(r.y, r.h, height);
    } else {
      AxisOutsideIsShort(r.x, r.w, width);
    }
  }

  /** numpy wraps negative slice bounds. A destination rectangle that, on each
      axis, either lies in the image or wraps from the end does not raise. Its
      patch window is the rectangle shifted by one image height (width) on each
      wrapping axis, so a rectangle above the image writes the band of the same
      height at the bottom of the canvas, and one left of it the band at the
      right edge. */
  lemma NegativeBoundsWrap(img: Grid, height: nat, width: nat, t1: seq<Point>, t2: seq<Point>, cv: Vision)
    requires IsGrid(img, height, width) && |t1| == 3 && |t2| == 3
    requires SourceBlockNonEmpty(t1, height, width)
    requires var r2 := BoundingRect(t2);
      (InsideAxis(r2.y, r2.h, height) || WrapsFromEnd(r2.y, r2.h, height)) &&
      (InsideAxis(r2.x, r2.w, width) || WrapsFromEnd(r2.x, r2.w, width))
    ensures TrianglePatch(img, height, width, t1, t2, cv).Ok?
    ensures var r2 := BoundingRect(t2);
      TrianglePatch(img, height, width, t1, t2, cv).value.window ==
        Window(if r2.y < 0 then r2.y + height else r2.y, if r2.x < 0 then r2.x + width else r2.x, r2.h, r2.w)
  {
    WrappedWindow(BoundingRect(t2), height, width);
  }

  /** A destination rectangle at least two pixels long on an axis where it lies
      wholly outside the image, without wrapping, gives a canvas slice shorter
      than the mask on that axis: the blend raises. */
  lemma OutsideImageTriangleFails(img: Grid, height: nat, width: nat, t1: seq<Point>, t2: seq<Point>, cv: Vision)
    requires IsGrid(img, height, width) && |t1| == 3 && |t2| == 3
    requires SourceBlockNonEmpty(t1, height, width)
    requires var r2 := BoundingRect(t2);
      (r2.h >= 2 && OutsideAxis(r2.y, r2.h, height) && !WrapsFromEnd(r2.y, r2.h, height)) ||
      (r2.w >= 2 && OutsideAxis(r2.x, r2.w, width) && !WrapsFromEnd(r2.x, r2.w, width))
    ensures TrianglePatch(img, height, width, t1, t2, cv) == Err(ShapeMismatch)
  {
    OutsideRectCannotBroadcast(BoundingRect(t2), height, width);
  }

  /** A destination rectangle one pixel thick on an axis where it lies wholly
      outside the image, without wrapping, and inside the image on the other
      axis, gives an empty canvas slice, which numpy broadcasts against the
      mask's single row or column: nothing raises and the patch covers no pixel. */
  lemma ThinOutsideTriangleIsNoOp(img: Grid, height: nat, width: nat, t1: seq<Point>, t2: seq<Point>, cv: Vision)
    requires IsGrid(img, height, width) && |t1| == 3 && |t2| == 3
    requires SourceBlockNonEmpty(t1, height, width)
    requires var r2 := BoundingRect(t2);
      (r2.h == 1 && OutsideAxis(r2.y, r2.h, height) && !WrapsFromEnd(r2.y, r2.h, height) && InsideAxis(r2.x, r2.w, width)) ||
      (r2.w == 1 && OutsideAxis(r2.x, r2.w, width) && !WrapsFromEnd(r2.x, r2.w, width) && InsideAxis(r2.y, r2.h, height))
    ensures TrianglePatch(img, height, width, t1, t2, cv).Ok?
    ensures var w := TrianglePatch(img, height, width, t1, t2, cv).value.window; w.rows == 0 || w.cols == 0
    ensures forall i, j :: !Covers(TrianglePatch(img, height, width, t1, t2, cv).value, i, j)
  {
    ThinOutsideRectIsEmpty(BoundingRect(t2), height, width);
  }

  /** What one triangle of the list contributes on its own: a patch only when
      all three of its vertices pass the rectangle test, nothing otherwise,
      or the exception its warp raises. */
  function TriangleContribution(img: Grid, height: nat, width: nat, t: TriangleRow, rect: Rect,
                                src: seq<Point>, dst: seq<Point>, cv: Vision): (r: Result<seq<Patch>>)
    requires IsGrid(img, height, width) && |src| == |dst| > 0
    ensures r.Ok? ==> |r.value| <= 1
    ensures r.Ok? ==> forall q :: q in r.value ==> FitsIn(q.window, height, width)
  {
    var srcTri := KeptVertices(Vertices(t), rect);
    var dstTri := Matched(srcTri, src, dst);
    if |srcTri| == 3 && |dstTri| == 3 then
      match TrianglePatch(img, height, width, srcTri, dstTri, cv)
      case Err(e) => Err(e)
      case Ok(p) => Ok([p])
    else Ok([])
  }

  /** The patches of the triangles, in triangulation order; the first exception wins. */
  function TrianglesPatches(img: Grid, height: nat, width: nat, tris: seq<TriangleRow>, rect: Rect,
                            src: seq<Point>, dst: seq<Point>, cv: Vision): (r: Result<seq<Patch>>)
    requires IsGrid(img, height, width) && |src| == |dst| > 0
    ensures r.Ok? ==> forall q :: q in r.value ==> FitsIn(q.window, height, width)
  {
    if |tris| == 0 then Ok([])
    else
      match TrianglesPatches(img, height, width, tris[..|tris| - 1], rect, src, dst, cv)
      case Err(e) => Err(e)
      case Ok(ps) =>
        match TriangleContribution(img, height, width, tris[|tris| - 1], rect, src, dst, cv)
        case Err(e) => Err(e)
        case Ok(q) => Ok(ps + q)
  }

  /** Once a triangle raises, the whole region raises: the later triangles are never reached. */
  lemma {:induction false} FailureIsFinal(img: Grid, height: nat, width: nat, tris: seq<TriangleRow>, n: nat,
                                          rect: Rect, src: seq<Point>, dst: seq<Point>, cv: Vision)
    requires IsGrid(img, height, width) && |src| == |dst| > 0 && n <= |tris|
    requires TrianglesPatches(img, height, width, tris[..n], rect, src, dst, cv).Err?
    ensures TrianglesPatches(img, height, width, tris, rect, src, dst, cv) ==
            TrianglesPatches(img, height, width, tris[..n], rect, src, dst, cv)
  {
    if n < |tris| {
      assert tris[..|tris| - 1][..n] == tris[..n];
      FailureIsFinal(img, height, width, tris[..|tris| - 1], n, rect, src, dst, cv);
    } else {
      assert tris[..n] == tris;
    }
  }

  /** The number of triangles whose three vertices lie in the rectangle. */
  function CountInside(tris: seq<TriangleRow>, rect: Rect): nat {
    if |tris| == 0 then 0
    else
      var vs := Vertices(tris[|tris| - 1]);
      CountInside(tris[..|tris| - 1], rect) +
        (if InRect(vs[0], rect) && InRect(vs[1], rect) && InRect(vs[2], rect) then 1 else 0)
  }

  /** When a region is processed without error, it composites exactly one patch
      per triangle lying wholly in the rectangle, and none for the others. */
  lemma {:induction false} PatchPerInsideTriangle(img: Grid, height: nat, width: nat, tris: seq<TriangleRow>,
                                                  rect: Rect, src: seq<Point>, dst: seq<Point>, cv: Vision)
    requires IsGrid(img, height, width) && |src| == |dst| > 0
    requires TrianglesPatches(img, height, width, tris, rect, src, dst, cv).Ok?
    ensures |TrianglesPatches(img, height, width, tris, rect, src, dst, cv).value| == CountInside(tris, rect)
  {
    if |tris| > 0 {
      PatchPerInsideTriangle(img, height, width, tris[..|tris| - 1], rect, src, dst, cv);
      TriangleKeptIffInside(Vertices(tris[|tris| - 1]), rect);
      var vs := Vertices(tris[|tris| - 1]);
      var srcTri := KeptVertices(vs, rect);
      assert |Matched(srcTri, src, dst)| == |srcTri|;
    }
  }

  /** warp_region: hull, its bounding rectangle, the triangulation, then the triangles' patches. */
  function RegionPatches(img: Grid, height: nat, width: nat, src: seq<Point>, dst: seq<Point>, cv: Vision): (r: Result<seq<Patch>>)
    requires IsGrid(img, height, width) && |src| == |dst| > 0
    ensures r.Ok? ==> forall q :: q in r.value ==> FitsIn(q.window, height, width)
  {
    var hull := cv.convexHull(src);
    var rect := BoundingRect(hull);
    TrianglesPatches(img, height, width, cv.triangulate(rect, hull), rect, src, dst, cv)
  }

  /** All four regions, each warped toward its scaled copy, in the order
      left eye, right eye, forehead, chin; the first failure wins. */
  function FacePatches(img: Grid, height: nat, width: nat, f: Face, cv: Vision): (r: Result<seq<Patch>>)
    requires IsGrid(img, height, width)
    requires |f.leftEye| > 0 && |f.rightEye| > 0 && |f.forehead| > 0 && |f.chin| > 0
    ensures r.Ok? ==> forall q :: q in r.value ==> FitsIn(q.window, height, width)
  {
    var l := RegionPatches(img, height, width, f.leftEye, ScaledRegion(f.leftEye, EyeScale), cv);
    var r := RegionPatches(img, height, width, f.rightEye, ScaledRegion(f.rightEye, EyeScale), cv);
    var fh := RegionPatches(img, height, width, f.forehead, ScaledRegion(f.forehead, ForeheadScale), cv);
    var c := RegionPatches(img, height, width, f.chin, ScaledRegion(f.chin, ChinScale), cv);
    if l.Err? then l
    else if r.Err? then r
    else if fh.Err? then fh
    else if c.Err? then c
    else Ok(l.value + r.value + fh.value + c.value)
  }

  /** What exaggerate_face does with an image and the landmark detector's answer. */
  datatype Outcome = NoFace | Failed(failure: Failure) | Warped(canvas: Grid)

  function Exaggerate(img: Grid, height: nat, width: nat, detected: Option<seq<Landmark>>, cv: Vision): (r: Outcome)
    requires IsGrid(img, height, width)
    ensures r.Warped? ==> IsGrid(r.canvas, height, width)
  {
    match detected
    case None => NoFace
    case Some(mesh) =>
      match ExtractFace(mesh, width, height)
      case None => Failed(LandmarkIndexError)
      case Some(f) =>
        match FacePatches(img, height, width, f, cv)
        case Err(e) => Failed(e)
        case Ok(ps) => Warped(Apply(img, ps))
  }

  /** A pixel of the output that no composited triangle covers is the input's pixel. */
  lemma ExaggerateFrame(img: Grid, height: nat, width: nat, mesh: seq<Landmark>, cv: Vision, i: nat, j: nat)
    requires IsGrid(img, height, width) && i < height && j < width
    requires ExtractFace(mesh, width, height).Some?
    requires FacePatches(img, height, width, ExtractFace(mesh, width, height).value, cv).Ok?
    requires !CoveredBy(FacePatches(img, height, width, ExtractFace(mesh, width, height).value, cv).value, i, j)
    ensures Exaggerate(img, height, width, Some(mesh), cv).Warped?
    ensures Exaggerate(img, height, width, Some(mesh), cv).canvas[i][j] == img[i][j]
  {
    var ps := FacePatches(img, height, width, ExtractFace(mesh, width, height).value, cv).value;
    ApplyFrame(img, ps, height, width, i, j);
  }

  /** With a mesh covering every listed index (every face mesh the detector
      returns), the only ways to fail are the two raised while warping a triangle. */
  lemma FullMeshFailsOnlyInWarp(img: Grid, height: nat, width: nat, mesh: seq<Landmark>, cv: Vision)
    requires IsGrid(img, height, width) && |mesh| >= IndexBound
    ensures var r := Exaggerate(img, height, width, Some(mesh), cv);
      r.Failed? ==> r.failure == EmptySourceBlock || r.failure == ShapeMismatch
  {
    LongMeshYieldsFace(mesh, width, height);
    var f := ExtractFace(mesh, width, height).value;
    RegionFailures(img, height, width, f.leftEye, ScaledRegion(f.leftEye, EyeScale), cv);
    RegionFailures(img, height, width, f.rightEye, ScaledRegion(f.rightEye, EyeScale), cv);
    RegionFailures(img, height, width, f.forehead, ScaledRegion(f.forehead, ForeheadScale), cv);
    RegionFailures(img, height, width, f.chin, ScaledRegion(f.chin, ChinScale), cv);
  }

  lemma RegionFailures(img: Grid, height: nat, width: nat, src: seq<Point>, dst: seq<Point>, cv: Vision)
    requires IsGrid(img, height, width) && |src| == |dst| > 0
    ensures var r := RegionPatches(img, height, width, src, dst, cv);
      r.Err? ==> r.failure == EmptySourceBlock || r.failure == ShapeMismatch
  {
    var hull := cv.convexHull(src);
    var rect := BoundingRect(hull);
    TriangleFailures(img, height, width, cv.triangulate(rect, hull), rect, src, dst, cv);
  }

  lemma {:induction false} TriangleFailures(img: Grid, height: nat, width: nat, tris: seq<TriangleRow>, rect: Rect,
                                            src: seq<Point>, dst: seq<Point>, cv: Vision)
    requires IsGrid(img, height, width) && |src| == |dst| > 0
    ensures var r := TrianglesPatches(img, height, width, tris, rect, src, dst, cv);
      r.Err? ==> r.failure == EmptySourceBlock || r.failure == ShapeMismatch
  {
    if |tris| > 0 {
      TriangleFailures(img, height, width, tris[..|tris| - 1], rect, src, dst, cv);
    }
  }

}
