/** Region extraction: picking the fixed anatomical landmark subsets and
    converting each normalised landmark to integer pixel coordinates. */
module Regions {
  import opened Outcomes
  import opened Geometry

  /** A face-mesh landmark in normalised image coordinates (z is not used). */
  datatype Landmark = Landmark(x: real, y: real)

  /** One more than the largest index any region lists (387, in the right eye).
      Every face mesh the detector returns is longer: 468 landmarks, or 478
      with the refined iris landmarks it is configured to return. */
  const IndexBound: nat := 388

  const LeftEyeIndices: seq<nat> := [33, 133, 160, 159, 158, 144, 153, 154, 155]
  const RightEyeIndices: seq<nat> := [362, 263, 387, 386, 385, 373, 380, 374, 381]
  const ForeheadIndices: seq<nat> := [10, 338, 297, 332]
  const ChinIndices: seq<nat> := [152, 176, 148]

  /** The four regions, in pixel coordinates. */
  datatype Face = Face(leftEye: seq<Point>, rightEye: seq<Point>, forehead: seq<Point>, chin: seq<Point>)

  /** to_pixel: each normalised coordinate times the image extent, truncated toward zero. */
  function ToPixel(p: Landmark, width: nat, height: nat): (r: Point)
    ensures p.x * width as real >= 0.0 ==> r.x as real <= p.x * width as real < r.x as real + 1.0
    ensures p.x * width as real < 0.0 ==> r.x as real - 1.0 < p.x * width as real <= r.x as real
    ensures p.y * height as real >= 0.0 ==> r.y as real <= p.y * height as real < r.y as real + 1.0
    ensures p.y * height as real < 0.0 ==> r.y as real - 1.0 < p.y * height as real <= r.y as real
  {
    Point(TruncReal(p.x * width as real), TruncReal(p.y * height as real))
  }

  /** A landmark inside the unit square lands on a pixel of the image. */
  lemma ToPixelInImage(p: Landmark, width: nat, height: nat)
    requires 0.0 <= p.x < 1.0 && 0.0 <= p.y < 1.0
    requires width > 0 && height > 0
    ensures 0 <= ToPixel(p, width, height).x < width
    ensures 0 <= ToPixel(p, width, height).y < height
  {
    var sx, sy := p.x * width as real, p.y * height as real;
    assert 0.0 <= sx < width as real by {
      assert sx < 1.0 * width as real;
    }
    assert 0.0 <= sy < height as real by {
      assert sy < 1.0 * height as real;
    }
    var q := ToPixel(p, width, height);
    assert 0.0 <= q.x as real <= sx && 0.0 <= q.y as real <= sy;
  }

  /** `[to_pixel(landmarks[i]) for i in indices]`: an index past the end of the
      mesh raises, which is reported as None. */
  function ExtractRegion(mesh: seq<Landmark>, indices: seq<nat>, width: nat, height: nat): (r: Option<seq<Point>>)
    ensures r.Some? <==> forall k :: 0 <= k < |indices| ==> indices[k] < |mesh|
    ensures r.Some? ==> |r.value| == |indices|
    ensures r.Some? ==> forall k :: 0 <= k < |indices| ==> r.value[k] == ToPixel(mesh[indices[k]], width, height)
  {
    if |indices| == 0 then Some([])
    else if indices[0] >= |mesh| then None
    else
      match ExtractRegion(mesh, indices[1..], width, height)
      case None => None
      case Some(rest) => Some([ToPixel(mesh[indices[0]], width, height)] + rest)
  }

  /** Extracts the left eye, right eye, forehead and chin, in that order. */
  function ExtractFace(mesh: seq<Landmark>, width: nat, height: nat): (f: Option<Face>)
    ensures f.Some? ==> |f.value.leftEye| == 9 && |f.value.rightEye| == 9
    ensures f.Some? ==> |f.value.forehead| == 4 && |f.value.chin| == 3
  {
    match (ExtractRegion(mesh, LeftEyeIndices, width, height),
           ExtractRegion(mesh, RightEyeIndices, width, height),
           ExtractRegion(mesh, ForeheadIndices, width, height),
           ExtractRegion(mesh, ChinIndices, width, height))
    case (Some(l), Some(r), Some(fh), Some(c)) => Some(Face(l, r, fh, c))
    case _ => None
  }

  /** Every index used is below 388, so a mesh of at least 388 landmarks (in
      particular a full face mesh) always yields the four regions, each
      landmark taken from the index the region lists. */
  lemma LongMeshYieldsFace(mesh: seq<Landmark>, width: nat, height: nat)
    requires |mesh| >= IndexBound
    ensures ExtractFace(mesh, width, height).Some?
    ensures var f := ExtractFace(mesh, width, height).value;
      (forall k :: 0 <= k < 9 ==> f.leftEye[k] == ToPixel(mesh[LeftEyeIndices[k]], width, height)) &&
      (forall k :: 0 <= k < 9 ==> f.rightEye[k] == ToPixel(mesh[RightEyeIndices[k]], width, height)) &&
      (forall k :: 0 <= k < 4 ==> f.forehead[k] == ToPixel(mesh[ForeheadIndices[k]], width, height)) &&
      (forall k :: 0 <= k < 3 ==> f.chin[k] == ToPixel(mesh[ChinIndices[k]], width, height))
  {
    assert forall k :: 0 <= k < |LeftEyeIndices| ==> LeftEyeIndices[k] < |mesh|;
    assert forall k :: 0 <= k < |RightEyeIndices| ==> RightEyeIndices[k] < |mesh|;
    assert forall k :: 0 <= k < |ForeheadIndices| ==> ForeheadIndices[k] < |mesh|;
    assert forall k :: 0 <= k < |ChinIndices| ==> ChinIndices[k] < |mesh|;
  }

  /** A mesh too short for some listed index makes extraction fail. */
  lemma ShortMeshFails(mesh: seq<Landmark>, width: nat, height: nat)
    requires |mesh| <= 387
    ensures ExtractFace(mesh, width, height).None?
  {
    assert RightEyeIndices[2] == 387;
  }

  /** Extraction succeeds exactly when the mesh reaches past landmark 387. */
  lemma FaceFoundIff(mesh: seq<Landmark>, width: nat, height: nat)
    ensures ExtractFace(mesh, width, height).Some? <==> |mesh| >= IndexBound
  {
    if |mesh| >= IndexBound {
      LongMeshYieldsFace(mesh, width, height);
    } else {
      ShortMeshFails(mesh, width, height);
    }
  }
}
