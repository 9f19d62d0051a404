/** Pixels, image grids, and the mask compositing of line 90 of
    backend/cartoonizer.py as a pure function on grids. */
module Raster {
  import opened Geometry

  /** One 8-bit channel (numpy uint8). */
  type Channel = x: int | 0 <= x < 256

  datatype Pixel = Pixel(r: Channel, g: Channel, b: Channel)

  /** An image as rows of pixels. */
  type Grid = seq<seq<Pixel>>

  predicate IsGrid(g: Grid, height: nat, width: nat) {
    |g| == height && forall i :: 0 <= i < height ==> |g[i]| == width
  }

  /** `out * (1 - mask) + warped * mask` on one uint8 channel, mask 0 or 1. */
  function BlendChannel(out: Channel, warped: Channel, mask: bool): Channel {
    var m := if mask then 1 else 0;
    (out * (1 - m) + warped * m) % 256
  }

  /** The blend of one pixel. With a 0/1 mask it selects: mask 1 takes the
      warped pixel, mask 0 keeps the canvas. */
  function Blend(out: Pixel, warped: Pixel, mask: bool): (r: Pixel)
    ensures r == if mask then warped else out
  {
    Pixel(BlendChannel(out.r, warped.r, mask), BlendChannel(out.g, warped.g, mask), BlendChannel(out.b, warped.b, mask))
  }

  /** The part of the canvas a numpy slice `img[top:top+rows, left:left+cols]` addresses. */
  datatype Window = Window(top: nat, left: nat, rows: nat, cols: nat)

  predicate InWindow(w: Window, i: int, j: int) {
    w.top <= i < w.top + w.rows && w.left <= j < w.left + w.cols
  }

  predicate FitsIn(w: Window, height: nat, width: nat) {
    w.top + w.rows <= height && w.left + w.cols <= width
  }

  /** The window numpy selects for the rectangle r on an image of the given size. */
  function SliceWindow(r: Rect, height: nat, width: nat): (w: Window)
    ensures FitsIn(w, height, width)
    ensures 0 <= r.y && r.y + r.h <= height && 0 <= r.x && r.x + r.w <= width && r.w >= 0 && r.h >= 0 ==>
      w == Window(r.y, r.x, r.h, r.w)
  {
    Window(SliceIndex(r.y, height), SliceIndex(r.x, width),
           SliceLength(r.y, r.y + r.h, height), SliceLength(r.x, r.x + r.w, width))
  }

  /** The sub-grid under a window. */
  function Crop(g: Grid, height: nat, width: nat, w: Window): (block: Grid)
    requires IsGrid(g, height, width) && FitsIn(w, height, width)
    ensures IsGrid(block, w.rows, w.cols)
    ensures forall k, l :: 0 <= k < w.rows && 0 <= l < w.cols ==> block[k][l] == g[w.top + k][w.left + l]
  {
    seq(w.rows, k requires 0 <= k < w.rows =>
      seq(w.cols, l requires 0 <= l < w.cols => g[w.top + k][w.left + l]))
  }

  /** The source block of a rectangle lying in the image is exactly the
      rectangle's own pixels, offset from its corner. */
  lemma CropOfInImageRect(g: Grid, height: nat, width: nat, r: Rect)
    requires IsGrid(g, height, width)
    requires 0 <= r.y && r.y + r.h <= height && 0 <= r.x && r.x + r.w <= width && r.w >= 0 && r.h >= 0
    ensures var b := Crop(g, height, width, SliceWindow(r, height, width));
      IsGrid(b, r.h, r.w) && forall k, l :: 0 <= k < r.h && 0 <= l < r.w ==> b[k][l] == g[r.y + k][r.x + l]
  {
  }

  /** One triangle's contribution to the canvas: the window it writes, the
      warped block and the triangle mask, both indexed in window coordinates. */
  datatype Patch = Patch(window: Window, warped: (int, int) -> Pixel, mask: (int, int) -> bool)

  /** The pixel (i, j) is overwritten by the patch: inside its window and under its mask. */
  predicate Covers(p: Patch, i: int, j: int) {
    InWindow(p.window, i, j) && p.mask(i - p.window.top, j - p.window.left)
  }

  /** The canvas after one blend of line 90; it has the shape of the canvas before. */
  function Composite(g: Grid, p: Patch): (r: Grid)
    ensures |r| == |g| && forall i :: 0 <= i < |g| ==> |r[i]| == |g[i]|
  {
    seq(|g|, i requires 0 <= i < |g| =>
      seq(|g[i]|, j requires 0 <= j < |g[i]| =>
        if InWindow(p.window, i, j)
        then Blend(g[i][j], p.warped(i - p.window.top, j - p.window.left), p.mask(i - p.window.top, j - p.window.left))
        else g[i][j]))
  }

  /** Compositing keeps the grid's size, writes the warped value exactly where
      the patch covers, and leaves every other pixel alone. */
  lemma CompositeEffect(g: Grid, p: Patch, height: nat, width: nat)
    requires IsGrid(g, height, width)
    ensures IsGrid(Composite(g, p), height, width)
    ensures forall i, j :: 0 <= i < height && 0 <= j < width ==>
      Composite(g, p)[i][j] == if Covers(p, i, j) then p.warped(i - p.window.top, j - p.window.left) else g[i][j]
  {
  }

  /** The canvas after the patches are composited in order; the canvas keeps
      the input's dimensions throughout. */
  function Apply(g: Grid, ps: seq<Patch>): (r: Grid)
    ensures |r| == |g| && forall i :: 0 <= i < |g| ==> |r[i]| == |g[i]|
  {
    if |ps| == 0 then g else Composite(Apply(g, ps[..|ps| - 1]), ps[|ps| - 1])
  }

  /** Compositing a run of patches after another is compositing them all. */
  lemma {:induction false} ApplyConcat(g: Grid, a: seq<Patch>, b: seq<Patch>)
    ensures Apply(g, a + b) == Apply(Apply(g, a), b)
  {
    if |b| == 0 {
      assert a + b == a;
    } else {
      ApplyConcat(g, a, b[..|b| - 1]);
      assert (a + b)[..|a + b| - 1] == a + b[..|b| - 1];
    }
  }

  /** Some patch of the run covers (i, j). */
  predicate CoveredBy(ps: seq<Patch>, i: int, j: int) {
    exists k :: 0 <= k < |ps| && Covers(ps[k], i, j)
  }

  /** A pixel that no patch covers keeps its value. */
  lemma {:induction false} ApplyFrame(g: Grid, ps: seq<Patch>, height: nat, width: nat, i: nat, j: nat)
    requires IsGrid(g, height, width) && i < height && j < width
    requires !CoveredBy(ps, i, j)
    ensures Apply(g, ps)[i][j] == g[i][j]
  {
    if |ps| > 0 {
      var init := ps[..|ps| - 1];
      assert forall k :: 0 <= k < |init| ==> init[k] == ps[k];
      ApplyFrame(g, init, height, width, i, j);
      CompositeEffect(Apply(g, init), ps[|ps| - 1], height, width);
    }
  }

  /** A covered pixel ends with the warped value of the last patch that covers it. */
  lemma {:induction false} ApplyLastWriter(g: Grid, ps: seq<Patch>, height: nat, width: nat, i: nat, j: nat, k: nat)
    requires IsGrid(g, height, width) && i < height && j < width
    requires k < |ps| && Covers(ps[k], i, j)
    requires forall m :: k < m < |ps| ==> !Covers(ps[m], i, j)
    ensures Apply(g, ps)[i][j] == ps[k].warped(i - ps[k].window.top, j - ps[k].window.left)
  {
    var init := ps[..|ps| - 1];
    assert forall m :: 0 <= m < |init| ==> init[m] == ps[m];
    CompositeEffect(Apply(g, init), ps[|ps| - 1], height, width);
    if k < |ps| - 1 {
      ApplyLastWriter(g, init, height, width, i, j, k);
    }
  }
}
