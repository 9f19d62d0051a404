# Face exaggeration, modelled in Dafny

This project models `exaggerate_face` in `backend/cartoonizer.py` and the
helpers nested inside it: `to_pixel`, `scale_region`, `warp_region` and
`warp_triangle`. The function takes a BGR image and asks a face-mesh
detector for landmarks. It turns nine landmarks per eye, four on the
forehead and three on the chin into pixel points. It scales each region
about its centroid: 1.4 for the eyes, 1.2 for the forehead and 0.8 for the
chin. Then, for every triangle of a Delaunay triangulation of the region's
convex hull whose three vertices lie inside the hull's bounding box, it
warps a block of the original image onto a copy of it. A mask decides which
pixels of the destination block are replaced. When no face is found, or any
step raises, the original image comes back unchanged.

Modules:

- `Outcomes` (`outcomes.dfy`): `Option`, plus a `Result` whose failures name
  the three ways the code can raise.
  - `LandmarkIndexError`: the mesh has fewer landmarks than an index.
  - `EmptySourceBlock`: the affine warp gets an empty source block.
  - `ShapeMismatch`: numpy cannot broadcast the blend on line 90.
- `Geometry` (`geometry.dfy`): points and rectangles.
  - Python's truncation toward zero, for integers (`astype(int)`) and for
    reals (`int(...)`).
  - OpenCV's bounding rectangle, as min and max plus one, half-open.
  - numpy's slice bounds: negative indices wrap once, then the bounds are
    clamped to the axis.
- `Regions` (`regions.dfy`): `to_pixel` and the four landmark index lists.
- `Scaling` (`scaling.dfy`): `scale_region`, over exact rationals.
- `Correspondence` (`correspondence.dfy`): the vertex filter of
  `warp_region` and its `argmin` nearest-source-point lookup.
- `Raster` (`raster.dfy`): pixels, grids, windows. The blend of line 90 is a
  pure function `Composite`, and a sequence of blends is the fold `Apply`.
- `Warping` (`warping.dfy`): the whole computation as functions.
  - `TrianglePatch` models `warp_triangle`.
  - `TrianglesPatches` and `RegionPatches` model `warp_region`.
  - `Exaggerate` models `exaggerate_face`.
  - Each returns the patches to composite, or the failure that aborts.
- `Cartoonizer` (`cartoonizer.dfy`): the imperative model.
  - `Canvas` is a class holding the read-only source image and the `array2`
    copy that is written in place (`exaggerated`).
  - Its methods loop over the triangles and over the destination rows and
    columns, like the source's loops and slice assignment.
  - Each method is proved equal to the function model.
  - `ExaggerateFace` is the entry point. It returns the input array itself
    when there is no face or a failure occurs, and the fresh canvas
    otherwise.

The calls into OpenCV and the face detector are not visible in Dafny. They
are parameters:

- the detector's result is an `Option<seq<Landmark>>`;
- `convexHull`, Delaunay triangulation (`Subdiv2D` plus
  `getTriangleList`), `fillConvexPoly` and `warpAffine` (together with
  `getAffineTransform`) are function fields of the datatype
  `Warping.Vision`.

The model holds for any such functions. Only the error behaviour the code
depends on is assumed for them (see below).

The model follows the code in these places, where one might expect otherwise:

- A triangle is not always skipped when its destination block leaves the
  image. numpy normalises each slice bound of line 90. A negative bound
  counts once from the end, and then both bounds are clamped to the axis.
  Whether the blend raises depends, axis by axis, on the block's span
  `[lo, lo + len)` against the axis length `n`.
  - Inside the image, the slice is the block itself.
  - Wholly before the axis, with `lo >= -n` and stop bound `lo + len < 0`
    (last row or column at most -2), both bounds wrap. The slice has the
    block's length, so the blend writes the band of the same size at the
    opposite edge of the canvas: the bottom edge for a block above the
    image, the right edge for a block left of it
    (`Warping.NegativeBoundsWrap`).
  - Wholly outside the axis in any other way, the slice is shorter than the
    block. That covers a block after the axis, a block whose stop bound is
    exactly 0, and a block starting more than `n` before the axis. If the block
    is at least two long there, the broadcast raises. The `except` on lines
    106-108 catches it, and the whole original image is returned
    (`Warping.OutsideImageTriangleFails`).
  - If the block is one pixel thick there and inside the image on the other
    axis, the slice is empty. It broadcasts against the mask's single row or
    column, so nothing raises and nothing is written
    (`Warping.ThinOutsideTriangleIsNoOp`).
  - A block that starts inside the image and runs past the bottom or right
    edge raises too (`Warping.BottomBorderTriangleFails`,
    `Warping.TrianglePatchOkIff`).
- Compositing therefore writes only inside the patch window (the normalised
  slice), not always inside the destination rectangle. The window equals
  the rectangle when the rectangle lies in the image (`Raster.SliceWindow`,
  `Warping.TrianglePatchOkIff`). A rectangle with a negative corner
  coordinate can be written elsewhere.
- The vertex filter on line 64 drops vertices outside the bounding box. It
  does not clip them. A triangle with fewer than three remaining vertices is
  skipped.
- Degenerate (collinear) triangles are not singled out by the code, so they
  are not singled out by the model either.

## Model

| member | source | states |
|---|---|---|
| Geometry.TruncDiv | backend/cartoonizer.py:39 | the integer quotient is truncated toward zero: for a non-negative dividend `q*d <= a < q*d + d`, for a negative one `q*d - d < a <= q*d` |
| Geometry.TruncReal | backend/cartoonizer.py:28-29 | `int()` of a real truncates toward zero: the result is within one of the real, on the side of zero |
| Geometry.BoundingRect | backend/cartoonizer.py:51 | the bounding rectangle of no points is all zeros; of at least one point it is at least one pixel wide and high |
| Geometry.BoundingRectContains | backend/cartoonizer.py:51-54 | every point lies in the half-open bounding rectangle, so every hull point inserted into the subdivision is inside its rectangle |
| Geometry.BoundingRectIsTight | backend/cartoonizer.py:51 | each of the four borders of the bounding rectangle is attained by some point |
| Geometry.SliceIndex | backend/cartoonizer.py:85 | a normalised slice bound lies within the axis; an in-range bound is kept as written, and a negative bound no more than the axis length below zero counts from the end |
| Geometry.SliceLength | backend/cartoonizer.py:85 | a slice never runs past the axis end, and an in-range slice `lo:hi` has length `hi - lo` |
| Regions.ToPixel | backend/cartoonizer.py:28-29 | `to_pixel`: each coordinate is the normalised landmark coordinate times the image extent, truncated toward zero (within one of the product, on the side of zero); `Regions.ToPixelInImage` bounds it |
| Regions.ToPixelInImage | backend/cartoonizer.py:28-29 | a landmark with normalised coordinates in [0, 1) maps to a pixel inside the image |
| Regions.ExtractRegion | backend/cartoonizer.py:31-34 | the region is found exactly when every index is below the mesh length; then it has one point per index, in order, each being `to_pixel` of that landmark |
| Regions.ExtractFace | backend/cartoonizer.py:31-34 | an extracted face has 9, 9, 4 and 3 points for the left eye, right eye, forehead and chin |
| Regions.LongMeshYieldsFace | backend/cartoonizer.py:26-34 | a mesh of at least 388 landmarks (in particular every face mesh: 468 landmarks, or 478 with the refined landmarks line 17 asks for) always yields the face, and each region point is the converted landmark at the listed index |
| Regions.FaceFoundIff | backend/cartoonizer.py:31-34 | the four regions are extracted exactly when the mesh has at least 388 landmarks; any shorter mesh raises |
| Regions.ShortMeshFails | backend/cartoonizer.py:31-32 | a mesh of at most 387 landmarks raises an index error while listing the regions (landmark 387 is used by the right eye) |
| Scaling.CentroidWithinBounds | backend/cartoonizer.py:39 | the truncated mean of a non-empty region lies between the region's smallest and largest coordinate, on both axes |
| Scaling.TruncMeanBetween | backend/cartoonizer.py:39 | the truncated mean of integers that all lie in `[lo, hi]` lies in `[lo, hi]` |
| Scaling.Centroid | backend/cartoonizer.py:39 | `np.mean(..., axis=0).astype(int)`: the per-axis sum divided by the point count, truncated toward zero; its bounds are stated by `Scaling.CentroidWithinBounds` |
| Scaling.ScaleAxis | backend/cartoonizer.py:42-44 | one coordinate of `center + (pt - center) * factor`, truncated toward zero; `Scaling.ScaleAxisAccuracy` ties it to the exact real value |
| Scaling.ScalePoint | backend/cartoonizer.py:42-44 | one point scaled about the center on both axes; `Scaling.CentroidIsFixed` shows the center is its fixed point |
| Scaling.ScaleAxisAccuracy | backend/cartoonizer.py:42-44 | a scaled coordinate is the exact value `center + offset * factor` truncated toward zero |
| Scaling.ScaledRegion | backend/cartoonizer.py:38-45 | the result of `scale_region`: one scaled point per input point, in order; `Scaling.ScaleRegion` is proved to compute it and `Scaling.ScaleByOneIsIdentity` is stated about it |
| Scaling.ScaleRegion | backend/cartoonizer.py:38-45 | the loop yields as many points as the input, in the same order, point i being point i scaled about the centroid |
| Scaling.ScaleByOneIsIdentity | backend/cartoonizer.py:38-45 | scaling by a factor of one returns the region unchanged |
| Scaling.CentroidIsFixed | backend/cartoonizer.py:39-44 | the centroid maps to itself under any factor |
| Correspondence.FirstNearest | backend/cartoonizer.py:67 | the `argmin` index is a valid index into the source points |
| Correspondence.FirstNearestIsArgMin | backend/cartoonizer.py:67 | the chosen source point is at least as near as every other one and strictly nearer than every earlier one, so ties go to the lowest index |
| Correspondence.FirstNearestIsUnique | backend/cartoonizer.py:67 | any index with the argmin property is the one chosen |
| Correspondence.VertexAtSourcePoint | backend/cartoonizer.py:67-68 | a vertex equal to a source point is matched to that point's first occurrence |
| Correspondence.Nearest | backend/cartoonizer.py:67 | the scanning loop returns the first index of minimum distance |
| Correspondence.KeptVertices | backend/cartoonizer.py:62-66 | the triangle's vertices that pass the half-open rectangle test of line 64 (`Geometry.InRect`), in order; its properties are stated by `Correspondence.KeptVerticesInside` |
| Correspondence.KeptVerticesInside | backend/cartoonizer.py:62-66 | the kept vertices are exactly the vertices lying in the half-open rectangle: each kept one is such a vertex, and each such vertex is kept; all are kept exactly when all lie inside, and then the kept sequence is the triangle's own vertices in their order |
| Correspondence.Matched | backend/cartoonizer.py:67-68 | one destination point is chosen per kept vertex |
| Correspondence.CorrespondTriangle | backend/cartoonizer.py:59-68 | the loop collects exactly the kept vertices and their matched destination points |
| Correspondence.TriangleKeptIffInside | backend/cartoonizer.py:62-69 | a triangle is warped exactly when its three vertices lie inside the rectangle |
| Raster.Blend | backend/cartoonizer.py:90 | the per-pixel blend `out * (1 - mask) + warped * mask` on uint8 channels: with a 0/1 mask it is the warped pixel where the mask is 1 and the canvas pixel where it is 0 |
| Raster.SliceWindow | backend/cartoonizer.py:85 | a sliced window always fits in the image, and an in-bounds rectangle gives exactly its own window |
| Raster.Crop | backend/cartoonizer.py:85 | the source block `img1[r1 rows, r1 cols]` under a window that fits the image: the window's shape, its pixel (k, l) being the image pixel at that offset from the window corner; `Raster.CropOfInImageRect` states it for a rectangle |
| Raster.CropOfInImageRect | backend/cartoonizer.py:85 | for a rectangle lying in the image, the sliced source block has the rectangle's shape and holds exactly the rectangle's own pixels |
| Raster.Composite | backend/cartoonizer.py:90 | the slice assignment of line 90 as a pure function on the canvas; it keeps the canvas shape, and `Raster.CompositeEffect` states its effect per pixel |
| Raster.CompositeEffect | backend/cartoonizer.py:82-90 | compositing keeps the image shape; a pixel inside the window and under the mask becomes the warped pixel, and every other pixel keeps its value |
| Raster.Apply | backend/cartoonizer.py:98-101 | applying a sequence of patches keeps the image shape |
| Raster.ApplyConcat | backend/cartoonizer.py:98-101 | applying two patch sequences one after the other equals applying their concatenation |
| Raster.ApplyFrame | backend/cartoonizer.py:90 | a pixel covered by no patch keeps its original value |
| Raster.ApplyLastWriter | backend/cartoonizer.py:90 | a covered pixel ends up as the warped pixel of the last patch covering it |
| Warping.Vertices | backend/cartoonizer.py:56-57 | a triangle row yields three integer vertices |
| Warping.Localize | backend/cartoonizer.py:76-80 | the triangle's vertices relative to its bounding rectangle's corner, one per vertex; `Cartoonizer.LocalTriangles` is proved to compute it and `Warping.LocalizedInsideMask` bounds it |
| Warping.LocalizedInsideMask | backend/cartoonizer.py:76-83 | localised to its own bounding rectangle, every vertex lies inside the `r2[3]` by `r2[2]` mask that `fillConvexPoly` draws on |
| Warping.TrianglePatch | backend/cartoonizer.py:72-90 | `warp_triangle` succeeds exactly when the source block is non-empty and the destination slice broadcasts against the mask. On success the patch window is the destination rectangle's slice as numpy normalises it (`Raster.SliceWindow`). An empty source fails first, and a broadcast mismatch fails second. The broadcast rule of line 90 is `Warping.Broadcasts`: a canvas axis takes the mask's axis when the lengths are equal, or when the canvas axis is empty and the mask's is 1 |
| Warping.BroadcastsIffInside | backend/cartoonizer.py:90 | for a slice at least two long starting inside the axis, broadcasting succeeds exactly when the slice ends inside the axis |
| Warping.TrianglePatchOkIff | backend/cartoonizer.py:85-90 | for a non-empty source and a destination rectangle at least 2x2 at non-negative coordinates, the warp succeeds exactly when the rectangle lies in the image, and its window is then that rectangle |
| Warping.BottomBorderTriangleFails | backend/cartoonizer.py:90 | a destination rectangle that starts inside the image and crosses its bottom edge makes the blend raise a shape mismatch |
| Warping.AxisWraps | backend/cartoonizer.py:85-90 | a span wholly before an axis of length n, starting at most n before it and with a negative stop bound, selects as many elements as it spans, starting `lo + n` |
| Warping.AxisOutsideIsShort | backend/cartoonizer.py:85-90 | every other span wholly outside the axis selects fewer elements than it spans, and none when it is one element thick |
| Warping.NegativeBoundsWrap | backend/cartoonizer.py:85-90 | a destination rectangle that, on each axis, lies in the image or wraps from the end does not raise; its window is the rectangle shifted by one image height (width) on each wrapping axis |
| Warping.OutsideImageTriangleFails | backend/cartoonizer.py:85-90 | a destination rectangle at least two long on an axis where it lies wholly outside the image without wrapping makes the blend raise a shape mismatch |
| Warping.ThinOutsideTriangleIsNoOp | backend/cartoonizer.py:85-90 | a destination rectangle one pixel thick on an axis where it lies wholly outside the image without wrapping, and inside it on the other axis, does not raise, and its patch covers no pixel |
| Warping.TriangleContribution | backend/cartoonizer.py:59-70 | one triangle contributes at most one patch, and its window fits the canvas |
| Warping.TrianglesPatches | backend/cartoonizer.py:59-70 | the triangle loop of `warp_region`: the patches of all triangles in order, or the first exception; every patch window fits the canvas |
| Warping.FailureIsFinal | backend/cartoonizer.py:59-70 | once a triangle raises, the result of the whole loop is that failure, whatever follows |
| Warping.PatchPerInsideTriangle | backend/cartoonizer.py:59-70 | a successful loop composites exactly one patch per triangle whose three vertices lie inside the rectangle |
| Warping.RegionPatches | backend/cartoonizer.py:47-70 | `warp_region`: hull, bounding rectangle and triangulation, then the triangle loop; every patch window fits the canvas |
| Warping.FacePatches | backend/cartoonizer.py:93-101 | the four regions in the order left eye, right eye, forehead, chin, each warped toward its copy scaled by 1.4, 1.4, 1.2 and 0.8; the first failure wins, and every patch window fits the canvas |
| Warping.Exaggerate | backend/cartoonizer.py:15-108 | a warped result has the input image's dimensions |
| Warping.ExaggerateFrame | backend/cartoonizer.py:36 | with a full face and no failure, every pixel that no triangle's mask covers keeps its original value |
| Warping.RegionFailures | backend/cartoonizer.py:47-70 | `warp_region` can fail only by an empty source block or a shape mismatch |
| Warping.TriangleFailures | backend/cartoonizer.py:59-70 | the triangle loop can fail only by an empty source block or a shape mismatch |
| Warping.FullMeshFailsOnlyInWarp | backend/cartoonizer.py:26-108 | with a mesh of at least 388 landmarks (every face mesh), the only failures left are those raised while warping a triangle |
| Cartoonizer.LocalTriangles | backend/cartoonizer.py:76-80 | the loop builds both triangles' coordinates relative to their bounding rectangles |
| Cartoonizer.Canvas.Copy | backend/cartoonizer.py:36 | the canvas is a fresh array equal to the input image, distinct from it |
| Cartoonizer.Canvas.BlendRow | backend/cartoonizer.py:90 | one destination row is blended in place and every other row is left as it was |
| Cartoonizer.Canvas.Composite | backend/cartoonizer.py:90 | the in-place slice assignment leaves the canvas equal to the pure composite of its old contents: masked pixels in the window become the warped ones and all others keep their values |
| Cartoonizer.Canvas.PreparePatch | backend/cartoonizer.py:72-89 | computes the triangle's mask, warped block and window from the unchanged source, or the failure, and a successful window fits the canvas |
| Cartoonizer.Canvas.WarpTriangle | backend/cartoonizer.py:72-90 | succeeds exactly when the warp model succeeds, then composites its patch; on failure the canvas is untouched |
| Cartoonizer.Canvas.ProcessTriangle | backend/cartoonizer.py:59-70 | one loop iteration applies exactly that triangle's contribution, or reports its failure |
| Cartoonizer.Canvas.WarpTriangles | backend/cartoonizer.py:59-70 | the triangle loop succeeds exactly when the model does, and then the canvas is its old contents with all patches applied in order |
| Cartoonizer.Canvas.WarpRegion | backend/cartoonizer.py:47-70 | `warp_region` on the canvas succeeds exactly when the region model does, and then applies that region's patches |
| Cartoonizer.ExaggerateFace | backend/cartoonizer.py:7-108 | no face returns the input itself; a failure returns the input itself; otherwise a fresh image equal to the warped model result; the input is never modified |

## Left out

- Face detection (MediaPipe FaceMesh, `cvtColor`, `close`) is not modelled. The detection result is an input: `None` for no face, or the landmark list.
- The bodies of `convexHull`, `Subdiv2D`/`getTriangleList`, `fillConvexPoly`, `getAffineTransform` and `warpAffine` are not modelled. They are opaque functions.
- `warpAffine` is assumed to raise on an empty source block, following OpenCV's assertion on empty input. The model assumes nothing else about these functions, so no pixel values of the warp are proved.
- `Subdiv2D.insert` and `getTriangleList` are assumed not to raise. Every inserted hull point lies inside the subdivision's rectangle (`Geometry.BoundingRectContains`).
- Mask values are modelled as 0/1 per pixel. The anti-aliased edge (line type 16) is not modelled; it writes intermediate values, which after `uint8` rounding are 0 or 1.
- Floating point is not modelled.
  - Coordinates, means and scale factors are exact rationals. IEEE rounding of `1.4 * offset` and of `p.x * w` is not captured.
  - `Correspondence.FirstNearest` compares squared distances instead of `np.linalg.norm`. This gives the same argmin over integer points when no rounding occurs.
- The `uint8` blend `out * (1 - mask) + warped * mask` is reduced modulo 256, as numpy does. With a 0/1 mask this never wraps.
- `Scaling.ScaleRegion`: 32-bit wrap-around when `astype(np.int32)` converts the scaled points is not modelled. Point coordinates are unbounded integers. Real image sizes keep values far inside the int32 range.
- `Warping.Vertices`: the conversion of `getTriangleList`'s floats to int32 truncates toward zero. Out-of-range values and their wrap-around are not modelled.
- `Scaling.ScaleRegion` requires a non-empty region. `np.mean` of an empty list is NaN, but all four region lists are fixed and non-empty.
- `hull_dst` (line 49) is computed and never used, so it is not modelled.
- The `print` in the `except` branch (line 107) is output only and is not modelled.
- Exceptions other than the three named failures are not modelled:
  - failures inside MediaPipe or OpenCV beyond the assumptions above;
  - memory errors.
- The Flask applications, the stylisation pipeline and the web front end are not part of this model.
