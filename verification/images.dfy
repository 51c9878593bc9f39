/** The script functions of ImageFunctions whose pixel effect is computed by
    the source itself: IMAGE (a blank image), IMAGESET (one pixel write with
    a bounds check) and IMAGETRANSPOSE (an explicit double loop). Image
    parameters are `Option<Raster>`; `None` is a script value that is not a
    BufferedImage. */
module Images {
  import opened Results
  import opened Argb
  import opened Rasters

  /** A BufferedImage: a valid raster of at least one pixel. */
  predicate IsImage(img: Raster) {
    Valid(img) && img.width >= 1 && img.height >= 1
  }

  predicate ImageArg(arg: Option<Raster>) {
    arg.Some? ==> IsImage(arg.value)
  }

  /** A raster of the given size whose pixels are all 0 (transparent black). */
  function Blank(width: nat, height: nat): (r: Raster)
    ensures Valid(r) && r.width == width && r.height == height
  {
    Raster(width, height, seq(height, _ => seq(width, _ => 0)))
  }

  /** IMAGE(width, height): width is checked before height. */
  function NewImage(width: int, height: int): (r: Result<Raster>)
    ensures r.Success? <==> width >= 1 && height >= 1
    ensures width < 1 ==> r == Failure(BadDimensions(Width))
    ensures width >= 1 && height < 1 ==> r == Failure(BadDimensions(Height))
    ensures r.Success? ==> IsImage(r.value) && r.value.width == width && r.value.height == height
    ensures r.Success? ==> forall x, y :: InBounds(r.value, x, y) ==> Get(r.value, x, y) == 0
  {
    if width < 1 then Failure(BadDimensions(Width))
    else if height < 1 then Failure(BadDimensions(Height))
    else Success(Blank(width, height))
  }

  // ---------------------------------------------------------------------
  // IMAGESET

  /** IMAGESET(image, x, y, color): rejects coordinates outside the image,
      otherwise writes exactly one pixel. */
  function SetPixel(arg: Option<Raster>, x: int, y: int, color: Pixel): (r: Result<Raster>)
    requires ImageArg(arg)
    ensures arg.None? ==> r == Failure(BadImage(First))
    ensures arg.Some? ==> (r == Failure(BadCoordinates) <==> !InBounds(arg.value, x, y))
    ensures arg.Some? && !InBounds(arg.value, x, y) ==> r == Failure(BadCoordinates)
    ensures r.Success? ==> arg.Some? && InBounds(arg.value, x, y)
    ensures r.Success? ==> IsImage(r.value)
    ensures r.Success? ==> r.value.width == arg.value.width && r.value.height == arg.value.height
    ensures r.Success? ==> Get(r.value, x, y) == color
    ensures r.Success? ==> forall i, j :: InBounds(r.value, i, j) && (i, j) != (x, y) ==>
      Get(r.value, i, j) == Get(arg.value, i, j)
  {
    if arg.None? then Failure(BadImage(First))
    else
      var img := arg.value;
      if x < 0 || x >= img.width || y < 0 || y >= img.height then Failure(BadCoordinates)
      else
        var row: seq<Pixel> := img.rows[y][x := color];
        Success(Raster(img.width, img.height, img.rows[y := row]))
  }

  /** Writing a pixel's current colour back leaves the image as it was. */
  lemma SetPixelSameColor(img: Raster, x: int, y: int)
    requires IsImage(img) && InBounds(img, x, y)
    ensures SetPixel(Some(img), x, y, Get(img, x, y)) == Success(img)
  {
    var r := SetPixel(Some(img), x, y, Get(img, x, y)).value;
    assert r.rows[y] == img.rows[y];
    assert r.rows == img.rows;
  }

  /** A second write to the same pixel overrides the first. */
  lemma SetPixelOverwrites(img: Raster, x: int, y: int, c1: Pixel, c2: Pixel)
    requires IsImage(img) && InBounds(img, x, y)
    ensures SetPixel(SetPixel(Some(img), x, y, c1).ToOption(), x, y, c2) == SetPixel(Some(img), x, y, c2)
  {
    var once := SetPixel(Some(img), x, y, c1).value;
    var twice := SetPixel(Some(once), x, y, c2).value;
    var direct := SetPixel(Some(img), x, y, c2).value;
    assert twice.rows[y] == direct.rows[y];
    assert twice.rows == direct.rows;
  }

  // ---------------------------------------------------------------------
  // IMAGETRANSPOSE

  /** Reference definition: the image with its axes swapped. */
  function Transposed(img: Raster): Raster
    requires Valid(img)
  {
    Raster(img.height, img.width,
      seq(img.width, x requires 0 <= x < img.width =>
        seq(img.height, y requires 0 <= y < img.height => img.rows[y][x])))
  }

  /** Transposing twice gives the image back. */
  lemma TransposeInvolution(img: Raster)
    requires Valid(img)
    ensures Valid(Transposed(img)) && Transposed(Transposed(img)) == img
  {
    var t := Transposed(Transposed(img));
    forall y | 0 <= y < img.height
      ensures t.rows[y] == img.rows[y]
    {
    }
  }

  /** IMAGETRANSPOSE(image): a new `height x width` image, filled by a loop
      over the source's columns `x` and rows `y` that writes `in(x, y)` to
      `out(y, x)`. */
  method Transpose(arg: Option<Raster>) returns (r: Result<Raster>)
    requires ImageArg(arg)
    ensures arg.None? <==> r == Failure(BadImage(First))
    ensures arg.Some? ==> r.Success?
    ensures r.Success? ==> IsImage(r.value)
    ensures r.Success? ==> r.value.width == arg.value.height && r.value.height == arg.value.width
    ensures r.Success? ==> forall x, y :: InBounds(arg.value, x, y) ==>
      Get(r.value, y, x) == Get(arg.value, x, y)
    ensures r.Success? ==> r.value == Transposed(arg.value)
  {
    if arg.None? {
      return Failure(BadImage(First));
    }
    var img := arg.value;
    var out := Blank(img.height, img.width);
    var rows := out.rows;
    for x := 0 to img.width
      invariant |rows| == img.width
      invariant forall i :: 0 <= i < |rows| ==> |rows[i]| == img.height
      invariant forall i, j :: 0 <= i < x && 0 <= j < img.height ==> rows[i][j] == img.rows[j][i]
    {
      for y := 0 to img.height
        invariant |rows| == img.width
        invariant forall i :: 0 <= i < |rows| ==> |rows[i]| == img.height
        invariant forall i, j :: 0 <= i < x && 0 <= j < img.height ==> rows[i][j] == img.rows[j][i]
        invariant forall j :: 0 <= j < y ==> rows[x][j] == img.rows[j][x]
      {
        rows := rows[x := rows[x][y := Get(img, x, y)]];
      }
    }
    var t := Transposed(img);
    assert forall i | 0 <= i < img.width :: rows[i] == t.rows[i];
    return Success(Raster(img.height, img.width, rows));
  }
}
