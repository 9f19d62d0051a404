/** exaggerate_face: the output canvas as an object holding a 2-D pixel
    array that is updated in place, triangle by triangle, while every read
    comes from the untouched input image. */
module Cartoonizer {
  import opened Outcomes
  import opened Geometry
  import opened Regions
  import opened Scaling
  import opened Correspondence
  import opened Raster
  import opened Warping

  /** The contents of a pixel array, row by row. */
  function GridOf(a: array2<Pixel>): (g: Grid)
    reads a
    ensures IsGrid(g, a.Length0, a.Length1)
    ensures forall i, j :: 0 <= i < a.Length0 && 0 <= j < a.Length1 ==> g[i][j] == a[i, j]
  {
    seq(a.Length0, i requires 0 <= i < a.Length0 reads a =>
      seq(a.Length1, j requires 0 <= j < a.Length1 reads a => a[i, j]))
  }

  /** Pixel-by-pixel agreement with a grid of the same size is equality of contents. */
  lemma GridOfIs(a: array2<Pixel>, g: Grid)
    requires IsGrid(g, a.Length0, a.Length1)
    requires forall i, j :: 0 <= i < a.Length0 && 0 <= j < a.Length1 ==> a[i, j] == g[i][j]
    ensures GridOf(a) == g
  {
    var h := GridOf(a);
    forall i | 0 <= i < a.Length0 ensures h[i] == g[i] {
      assert forall j :: 0 <= j < a.Length1 ==> h[i][j] == g[i][j];
    }
  }

  /** The loop of warp_triangle that moves both triangles into the coordinates
      of their bounding rectangles. */
  method LocalTriangles(t1: seq<Point>, r1: Rect, t2: seq<Point>, r2: Rect) returns (l1: seq<Point>, l2: seq<Point>)
    requires |t1| == 3 && |t2| == 3
    ensures l1 == Localize(t1, r1) && l2 == Localize(t2, r2)
  {
    l1, l2 := [], [];
    for i := 0 to 3
      invariant |l1| == i && forall k :: 0 <= k < i ==> l1[k] == Point(t1[k].x - r1.x, t1[k].y - r1.y)
      invariant |l2| == i && forall k :: 0 <= k < i ==> l2[k] == Point(t2[k].x - r2.x, t2[k].y - r2.y)
    {
      l1 := l1 + [Point(t1[i].x - r1.x, t1[i].y - r1.y)];
      l2 := l2 + [Point(t2[i].x - r2.x, t2[i].y - r2.y)];
    }
    LocalizedIs(l1, t1, r1);
    LocalizedIs(l2, t2, r2);
  }

  lemma LocalizedIs(l: seq<Point>, t: seq<Point>, r: Rect)
    requires |l| == |t| && forall k :: 0 <= k < |t| ==> l[k] == Point(t[k].x - r.x, t[k].y - r.y)
    ensures l == Localize(t, r)
  {
  }

  /** The `exaggerated` canvas: a copy of `image` that only the blends write. */
  class Canvas {
    const source: array2<Pixel>
    const pixels: array2<Pixel>
    const height: nat
    const width: nat

    ghost predicate Valid() {
      pixels != source &&
      source.Length0 == height && source.Length1 == width &&
      pixels.Length0 == height && pixels.Length1 == width
    }

    /** `exaggerated = image.copy()` */
    constructor Copy(image: array2<Pixel>)
      ensures Valid() && source == image && fresh(pixels)
      ensures height == image.Length0 && width == image.Length1
      ensures GridOf(pixels) == GridOf(image)
    {
      source := image;
      height, width := image.Length0, image.Length1;
      pixels := new Pixel[image.Length0, image.Length1]((i, j) reads image
        requires 0 <= i < image.Length0 && 0 <= j < image.Length1 => image[i, j]);
      new;
      GridOfIs(pixels, GridOf(image));
    }

    /** Line 90: blend the patch into its window, row by row. Only pixels in the
        window under the mask change; they take the warped value. */
    method Composite(p: Patch)
      requires Valid() && FitsIn(p.window, height, width)
      modifies pixels
      ensures GridOf(pixels) == Raster.Composite(old(GridOf(pixels)), p)
      ensures forall i, j :: 0 <= i < height && 0 <= j < width ==>
        pixels[i, j] == if Covers(p, i, j) then p.warped(i - p.window.top, j - p.window.left) else old(pixels[i, j])
    {
      ghost var before := GridOf(pixels);
      ghost var after := Raster.Composite(before, p);
      var k := 0;
      while k < p.window.rows
        invariant 0 <= k <= p.window.rows
        invariant forall i, j :: 0 <= i < height && 0 <= j < width ==>
          pixels[i, j] == if p.window.top <= i < p.window.top + k then after[i][j] else before[i][j]
      {
        BlendRow(p, k, p.window.top + k, before);
        k := k + 1;
      }
      CompositeEffect(before, p, height, width);
      GridOfIs(pixels, after);
    }

    /** Row k of the window: each pixel becomes its blend with the warped block. */
    method BlendRow(p: Patch, k: nat, row: nat, ghost before: Grid)
      requires Valid() && FitsIn(p.window, height, width) && k < p.window.rows && row == p.window.top + k
      requires IsGrid(before, height, width)
      requires forall j :: 0 <= j < width ==> pixels[row, j] == before[row][j]
      modifies pixels
      ensures forall i, j :: 0 <= i < height && 0 <= j < width ==>
        pixels[i, j] == if i == row then Raster.Composite(before, p)[i][j] else old(pixels[i, j])
    {
      var w := p.window;
      ghost var after := Raster.Composite(before, p);
      var l := 0;
      while l < w.cols
        invariant 0 <= l <= w.cols
        invariant forall i, j :: 0 <= i < height && 0 <= j < width ==>
          pixels[i, j] == if i == row && w.left <= j < w.left + l then after[i][j] else old(pixels[i, j])
      {
        assert after[row][w.left + l] == Blend(before[row][w.left + l], p.warped(k, l), p.mask(k, l));
        pixels[row, w.left + l] := Blend(pixels[row, w.left + l], p.warped(k, l), p.mask(k, l));
        l := l + 1;
      }
      assert forall j :: 0 <= j < width && !(w.left <= j < w.left + w.cols) ==> after[row][j] == before[row][j];
    }

    /** warp_triangle up to the blend: bounding rectangles, local triangles,
        mask, source block and warp, or the exception raised on the way. */
    method PreparePatch(t1: seq<Point>, t2: seq<Point>, cv: Vision) returns (r: Result<Patch>)
      requires Valid() && |t1| == 3 && |t2| == 3
      ensures r == TrianglePatch(GridOf(source), height, width, t1, t2, cv)
      ensures r.Ok? ==> FitsIn(r.value.window, height, width)
    {
      var r1, r2 := BoundingRect(t1), BoundingRect(t2);
      var l1, l2 := LocalTriangles(t1, r1, t2, r2);
      var mask := cv.fillTriangle(r2.h, r2.w, l2);
      var w1 := SliceWindow(r1, height, width);
      if w1.rows == 0 || w1.cols == 0 {
        return Err(EmptySourceBlock);
      }
      var warped := cv.warpAffine(Crop(GridOf(source), height, width, w1), l1, l2, r2.w, r2.h);
      var w2 := SliceWindow(r2, height, width);
      if !(Broadcasts(w2.rows, r2.h) && Broadcasts(w2.cols, r2.w)) {
        return Err(ShapeMismatch);
      }
      r := Ok(Patch(w2, warped, mask));
    }

    /** warp_triangle: build the patch and blend it in; false where the source raises. */
    method WarpTriangle(t1: seq<Point>, t2: seq<Point>, cv: Vision) returns (ok: bool)
      requires Valid() && |t1| == 3 && |t2| == 3
      modifies pixels
      ensures ok == TrianglePatch(GridOf(source), height, width, t1, t2, cv).Ok?
      ensures ok ==> GridOf(pixels) == Raster.Composite(old(GridOf(pixels)), TrianglePatch(GridOf(source), height, width, t1, t2, cv).value)
      ensures !ok ==> GridOf(pixels) == old(GridOf(pixels))
    {
      var patch := PreparePatch(t1, t2, cv);
      if patch.Err? {
        return false;
      }
      Composite(patch.value);
      ok := true;
    }

    /** One pass of warp_region's loop: filter and match the triangle's
        vertices, and warp it when all three survive. */
    method ProcessTriangle(t: TriangleRow, rect: Rect, src: seq<Point>, dst: seq<Point>, cv: Vision) returns (ok: bool)
      requires Valid() && |src| == |dst| > 0
      modifies pixels
      ensures var step := TriangleContribution(GridOf(source), height, width, t, rect, src, dst, cv);
        ok == step.Ok? && (ok ==> GridOf(pixels) == Apply(old(GridOf(pixels)), step.value))
    {
      var srcTri, dstTri := CorrespondTriangle(Vertices(t), rect, src, dst);
      ok := true;
      if |srcTri| == 3 && |dstTri| == 3 {
        ghost var before := GridOf(pixels);
        ok := WarpTriangle(srcTri, dstTri, cv);
        if ok {
          ghost var p := TrianglePatch(GridOf(source), height, width, srcTri, dstTri, cv).value;
          assert [p][..0] == [];
          assert Apply(before, [p]) == Raster.Composite(before, p);
        }
      }
    }

    /** The loop of warp_region over the triangle list; false as soon as one raises. */
    method WarpTriangles(triangles: seq<TriangleRow>, rect: Rect, src: seq<Point>, dst: seq<Point>, cv: Vision)
      returns (ok: bool)
      requires Valid() && |src| == |dst| > 0
      modifies pixels
      ensures var all := TrianglesPatches(GridOf(source), height, width, triangles, rect, src, dst, cv);
        ok == all.Ok? && (ok ==> GridOf(pixels) == Apply(old(GridOf(pixels)), all.value))
    {
      ghost var img := GridOf(source);
      ghost var start := GridOf(pixels);
      ghost var done: seq<Patch> := [];
      var n := 0;
      while n < |triangles|
        invariant 0 <= n <= |triangles|
        invariant GridOf(source) == img
        invariant TrianglesPatches(img, height, width, triangles[..n], rect, src, dst, cv) == Ok(done)
        invariant GridOf(pixels) == Apply(start, done)
      {
        ghost var alone := TriangleContribution(img, height, width, triangles[n], rect, src, dst, cv);
        assert triangles[..n + 1][..n] == triangles[..n];
        var good := ProcessTriangle(triangles[n], rect, src, dst, cv);
        if !good {
          assert TrianglesPatches(img, height, width, triangles[..n + 1], rect, src, dst, cv).Err?;
          FailureIsFinal(img, height, width, triangles, n + 1, rect, src, dst, cv);
          return false;
        }
        assert TrianglesPatches(img, height, width, triangles[..n + 1], rect, src, dst, cv) == Ok(done + alone.value);
        ApplyConcat(start, done, alone.value);
        done := done + alone.value;
        n := n + 1;
      }
      assert triangles[..n] == triangles;
      ok := true;
    }

    /** warp_region: the hull, its bounding rectangle, the triangulation, and
        the warp of every triangle whose three vertices survive the rectangle test. */
    method WarpRegion(src: seq<Point>, dst: seq<Point>, cv: Vision) returns (ok: bool)
      requires Valid() && |src| == |dst| > 0
      modifies pixels
      ensures ok == RegionPatches(GridOf(source), height, width, src, dst, cv).Ok?
      ensures ok ==> GridOf(pixels) == Apply(old(GridOf(pixels)), RegionPatches(GridOf(source), height, width, src, dst, cv).value)
    {
      var hull := cv.convexHull(src);
      var rect := BoundingRect(hull);
      if |hull| > 0 {
        // every hull point lies in the rectangle, so Subdiv2D accepts each insertion
        BoundingRectContains(hull);
      }
      var triangles := cv.triangulate(rect, hull);
      ok := WarpTriangles(triangles, rect, src, dst, cv);
    }
  }

  /** exaggerate_face. With no face detected, or when any step raises, the
      input array itself is returned; otherwise a fresh canvas holding the
      input with the four regions warped. The input is never written. */
  method ExaggerateFace(image: array2<Pixel>, detected: Option<seq<Landmark>>, cv: Vision) returns (out: array2<Pixel>)
    ensures detected.None? ==> out == image
    ensures var r := Exaggerate(GridOf(image), image.Length0, image.Length1, detected, cv);
      (r.Warped? ==> fresh(out) && GridOf(out) == r.canvas) && (!r.Warped? ==> out == image)
    ensures GridOf(image) == old(GridOf(image))
  {
    var height, width := image.Length0, image.Length1;
    if detected.None? {
      return image;
    }
    var face := ExtractFace(detected.value, width, height);
    if face.None? {
      return image;
    }
    var f := face.value;
    var canvas := new Canvas.Copy(image);

    var leftEyeScaled := ScaleRegion(f.leftEye, EyeScale);
    var rightEyeScaled := ScaleRegion(f.rightEye, EyeScale);
    var foreheadScaled := ScaleRegion(f.forehead, ForeheadScale);
    var chinScaled := ScaleRegion(f.chin, ChinScale);

    ghost var img := GridOf(image);
    var ok := canvas.WarpRegion(f.leftEye, leftEyeScaled, cv);
    if !ok {
      return image;
    }
    ok := canvas.WarpRegion(f.rightEye, rightEyeScaled, cv);
    if !ok {
      return image;
    }
    ok := canvas.WarpRegion(f.forehead, foreheadScaled, cv);
    if !ok {
      return image;
    }
    ok := canvas.WarpRegion(f.chin, chinScaled, cv);
    if !ok {
      return image;
    }
    ghost var l := RegionPatches(img, height, width, f.leftEye, leftEyeScaled, cv).value;
    ghost var r := RegionPatches(img, height, width, f.rightEye, rightEyeScaled, cv).value;
    ghost var fh := RegionPatches(img, height, width, f.forehead, foreheadScaled, cv).value;
    ghost var c := RegionPatches(img, height, width, f.chin, chinScaled, cv).value;
    ApplyConcat(img, l, r);
    ApplyConcat(img, l + r, fh);
    ApplyConcat(img, l + r + fh, c);
    out := canvas.pixels;
  }
}
