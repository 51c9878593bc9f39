/** Rectangular grids of packed ARGB pixels, stored row by row, and the
    scanline driver `ARGBCompositeContext.compose` that runs a blend kernel
    over the overlap of a source and a destination raster. */
module Rasters {
  import opened Argb
  import opened Kernels

  /** `rows[y][x]` is the pixel in column `x` of row `y`. */
  datatype Raster = Raster(width: nat, height: nat, rows: seq<seq<Pixel>>)

  predicate Valid(img: Raster) {
    && |img.rows| == img.height
    && forall y :: 0 <= y < |img.rows| ==> |img.rows[y]| == img.width
  }

  predicate InBounds(img: Raster, x: int, y: int) {
    0 <= x < img.width && 0 <= y < img.height
  }

  function Get(img: Raster, x: int, y: int): Pixel
    requires Valid(img) && InBounds(img, x, y)
  {
    img.rows[y][x]
  }

  function Min(a: nat, b: nat): nat {
    if a <= b then a else b
  }

  /** The columns compose touches: `min(src.width, dstIn.width)`. */
  function RegionWidth(src: Raster, dstIn: Raster): nat {
    Min(src.width, dstIn.width)
  }

  /** The rows compose touches: `min(src.height, dstIn.height)`. */
  function RegionHeight(src: Raster, dstIn: Raster): nat {
    Min(src.height, dstIn.height)
  }

  predicate InRegion(src: Raster, dstIn: Raster, x: int, y: int) {
    0 <= x < RegionWidth(src, dstIn) && 0 <= y < RegionHeight(src, dstIn)
  }

  /** What the three rasters must satisfy for compose to stay within bounds:
      the output raster covers the region it is written in. */
  predicate ComposeReady(src: Raster, dstIn: Raster, dstOut: Raster) {
    && Valid(src) && Valid(dstIn) && Valid(dstOut)
    && RegionWidth(src, dstIn) <= dstOut.width
    && RegionHeight(src, dstIn) <= dstOut.height
  }

  /** Reference definition of compose without its early return: inside the
      region every output pixel is the kernel applied to the source and
      destination pixels there; outside it `dstOut` keeps its pixels. */
  function Blended(k: Kernel, pre: Byte, src: Raster, dstIn: Raster, dstOut: Raster): Raster
    requires ComposeReady(src, dstIn, dstOut)
  {
    Raster(dstOut.width, dstOut.height,
      seq(dstOut.height, y requires 0 <= y < dstOut.height =>
        seq(dstOut.width, x requires 0 <= x < dstOut.width =>
          if InRegion(src, dstIn, x, y)
          then ComposePixel(k, src.rows[y][x], dstIn.rows[y][x], pre)
          else dstOut.rows[y][x])))
  }

  /** The pixel loop of compose over one row: `dstRow[x] = composePixel(srcRow[x], dstRow[x])`. */
  method BlendRow(k: Kernel, pre: Byte, srcRow: seq<Pixel>, dstRow: seq<Pixel>) returns (row: seq<Pixel>)
    requires |srcRow| == |dstRow|
    ensures |row| == |dstRow|
    ensures forall j :: 0 <= j < |row| ==> row[j] == ComposePixel(k, srcRow[j], dstRow[j], pre)
  {
    row := dstRow;
    for x := 0 to |row|
      invariant |row| == |dstRow|
      invariant forall j :: 0 <= j < x ==> row[j] == ComposePixel(k, srcRow[j], dstRow[j], pre)
      invariant forall j :: x <= j < |row| ==> row[j] == dstRow[j]
    {
      row := row[x := ComposePixel(k, srcRow[x], row[x], pre)];
    }
  }

  /** `ARGBCompositeContext.compose`: returns the new contents of `dstOut`.
      With a zero pre-alpha nothing is written. Otherwise each row of the
      region is read from `src` and `dstIn`, blended pixel by pixel and
      written back to the same row of `dstOut`. */
  method Compose(k: Kernel, pre: Byte, src: Raster, dstIn: Raster, dstOut: Raster) returns (out: Raster)
    requires ComposeReady(src, dstIn, dstOut)
    ensures Valid(out) && out.width == dstOut.width && out.height == dstOut.height
    ensures pre == 0 ==> out == dstOut
    ensures pre != 0 ==> forall x, y :: InRegion(src, dstIn, x, y) ==>
      Get(out, x, y) == ComposePixel(k, Get(src, x, y), Get(dstIn, x, y), pre)
    ensures forall x, y :: InBounds(dstOut, x, y) && !InRegion(src, dstIn, x, y) ==>
      Get(out, x, y) == Get(dstOut, x, y)
    ensures pre != 0 ==> out == Blended(k, pre, src, dstIn, dstOut)
  {
    if pre == 0 {
      return dstOut;
    }
    var width := RegionWidth(src, dstIn);
    var height := RegionHeight(src, dstIn);
    var expected := Blended(k, pre, src, dstIn, dstOut);
    var rows := dstOut.rows;
    for y := 0 to height
      invariant |rows| == dstOut.height
      invariant forall i :: 0 <= i < y ==> rows[i] == expected.rows[i]
      invariant forall i :: y <= i < |rows| ==> rows[i] == dstOut.rows[i]
    {
      var row := BlendRow(k, pre, src.rows[y][..width], dstIn.rows[y][..width]);
      BlendedRowInside(k, pre, src, dstIn, dstOut, y, row);
      rows := rows[y := row + rows[y][width..]];
    }
    forall i | height <= i < |rows|
      ensures rows[i] == expected.rows[i]
    {
      BlendedRowOutside(k, pre, src, dstIn, dstOut, i);
    }
    out := Raster(dstOut.width, dstOut.height, rows);
    assert out.rows == expected.rows;
  }

  /** A region row of `Blended` is the blended prefix followed by the rest of the `dstOut` row. */
  lemma BlendedRowInside(k: Kernel, pre: Byte, src: Raster, dstIn: Raster, dstOut: Raster,
                         y: nat, row: seq<Pixel>)
    requires ComposeReady(src, dstIn, dstOut) && y < RegionHeight(src, dstIn)
    requires |row| == RegionWidth(src, dstIn)
    requires forall j :: 0 <= j < |row| ==>
      row[j] == ComposePixel(k, src.rows[y][..|row|][j], dstIn.rows[y][..|row|][j], pre)
    ensures Blended(k, pre, src, dstIn, dstOut).rows[y] == row + dstOut.rows[y][|row|..]
  {
  }

  /** A row below the region is the `dstOut` row. */
  lemma BlendedRowOutside(k: Kernel, pre: Byte, src: Raster, dstIn: Raster, dstOut: Raster, y: nat)
    requires ComposeReady(src, dstIn, dstOut) && RegionHeight(src, dstIn) <= y < dstOut.height
    ensures Blended(k, pre, src, dstIn, dstOut).rows[y] == dstOut.rows[y]
  {
  }

  /** Blending in place a source that is fully transparent over the region
      (or any source at pre-alpha 0) leaves the destination as it was. */
  lemma TransparentSourceKeepsDestination(k: Kernel, pre: Byte, src: Raster, dst: Raster)
    requires ComposeReady(src, dst, dst)
    requires forall x, y :: InRegion(src, dst, x, y) ==> EffectiveAlpha(Get(src, x, y), pre) == 0
    ensures Blended(k, pre, src, dst, dst) == dst
  {
    var b := Blended(k, pre, src, dst, dst);
    forall y | 0 <= y < dst.height
      ensures b.rows[y] == dst.rows[y]
    {
      forall x | 0 <= x < dst.width
        ensures b.rows[y][x] == dst.rows[y][x]
      {
        if InRegion(src, dst, x, y) {
          assert EffectiveAlpha(Get(src, x, y), pre) == 0;
        }
      }
    }
  }

  /** Compose's early return changes nothing when it blends in place: with a
      zero pre-alpha every kernel already returns the destination pixel. */
  lemma EarlyReturnAgreesInPlace(k: Kernel, src: Raster, dst: Raster)
    requires ComposeReady(src, dst, dst)
    ensures Blended(k, 0, src, dst, dst) == dst
  {
    TransparentSourceKeepsDestination(k, 0, src, dst);
  }
}
