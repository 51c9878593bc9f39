/** Argument validation of IMAGEPAINT and the format inference of
    IMAGEWRITE. Both decide, before any pixel is drawn or any byte is
    written, whether the call goes ahead and with which parameters; the
    drawing and encoding themselves belong to the platform. */
module Calls {
  import opened Results
  import opened Rasters
  import opened Images
  import opened Modes

  // ---------------------------------------------------------------------
  // IMAGEPAINT

  /** A validated IMAGEPAINT call, as handed to the renderer: `source` drawn
      into `target` at (x, y), scaled to width x height. */
  datatype PaintCall = PaintCall(
    target: Raster, source: Raster, x: int, y: int, width: int, height: int,
    blend: Blend, preAlpha: real, resampling: Resampling)

  /** Null, or the name of a resampling mode in some case. */
  predicate KnownResampling(arg: Option<string>)
    ensures KnownResampling(arg) <==> arg.None? || exists m :: SameIgnoringCase(arg.value, ResamplingName(m))
  {
    var r := ResolveResampling(arg);
    assert r.Some? ==> (arg.None? || SameIgnoringCase(arg.value, ResamplingName(r.value)));
    r.Some?
  }

  /** Null, or the name of a blend in some case. */
  predicate KnownBlend(arg: Option<string>)
    ensures KnownBlend(arg) <==> arg.None? || exists b :: SameIgnoringCase(arg.value, BlendName(b))
  {
    var r := ResolveBlend(arg);
    assert r.Some? ==> (arg.None? || SameIgnoringCase(arg.value, BlendName(r.value)));
    r.Some?
  }

  /** IMAGEPAINT(image, sourceImage, x, y, width, height, blend, prealpha, mode).
      Checks, in this order: the image, the source image, the resampling
      mode, the blend, then width and height, each defaulting to the source's
      size when null. The first failing check decides the error. */
  function Paint(image: Option<Raster>, source: Option<Raster>, x: int, y: int,
                 width: Option<int>, height: Option<int>, blend: Option<string>,
                 preAlpha: Option<real>, mode: Option<string>): (r: Result<PaintCall>)
    requires ImageArg(image) && ImageArg(source)
    ensures r.Success? <==>
      && image.Some? && source.Some? && KnownResampling(mode) && KnownBlend(blend)
      && width.GetOr(source.value.width) >= 1 && height.GetOr(source.value.height) >= 1
    ensures r == Failure(BadImage(First)) <==> image.None?
    ensures r == Failure(BadImage(Second)) <==> image.Some? && source.None?
    ensures r == Failure(BadMode) <==> image.Some? && source.Some? && !KnownResampling(mode)
    ensures r == Failure(BadBlend) <==>
      image.Some? && source.Some? && KnownResampling(mode) && !KnownBlend(blend)
    ensures r == Failure(BadDimensions(Width)) <==>
      && image.Some? && source.Some? && KnownResampling(mode) && KnownBlend(blend)
      && width.Some? && width.value < 1
    ensures r == Failure(BadDimensions(Height)) <==>
      && image.Some? && source.Some? && KnownResampling(mode) && KnownBlend(blend)
      && width.GetOr(1) >= 1 && height.Some? && height.value < 1
    ensures r.Success? ==> r.value.target == image.value && r.value.source == source.value
    ensures r.Success? ==> r.value.x == x && r.value.y == y
    ensures r.Success? ==> r.value.width == (if width.Some? then width.value else source.value.width)
    ensures r.Success? ==> r.value.height == (if height.Some? then height.value else source.value.height)
    ensures r.Success? ==> r.value.preAlpha == (if preAlpha.Some? then preAlpha.value else 1.0)
    ensures r.Success? ==> Some(r.value.blend) == ResolveBlend(blend)
    ensures r.Success? ==> Some(r.value.resampling) == ResolveResampling(mode)
  {
    var m := ResolveResampling(mode);
    var b := ResolveBlend(blend);
    if image.None? then Failure(BadImage(First))
    else if source.None? then Failure(BadImage(Second))
    else if m.None? then Failure(BadMode)
    else if b.None? then Failure(BadBlend)
    else
      var w := width.GetOr(source.value.width);
      var h := height.GetOr(source.value.height);
      if w < 1 then Failure(BadDimensions(Width))
      else if h < 1 then Failure(BadDimensions(Height))
      else Success(PaintCall(image.value, source.value, x, y, w, h, b.value, preAlpha.GetOr(1.0), m.value))
  }

  /** With every optional argument null, painting one image into another
      always goes ahead: at the source's own size, alpha blended, full
      pre-alpha, nearest-neighbour resampling. */
  lemma PaintDefaults(image: Raster, source: Raster, x: int, y: int)
    requires IsImage(image) && IsImage(source)
    ensures Paint(Some(image), Some(source), x, y, None, None, None, None, None)
      == Success(PaintCall(image, source, x, y, source.width, source.height, AlphaOver, 1.0, Nearest))
  {
  }

  // ---------------------------------------------------------------------
  // IMAGEWRITE

  /** The kinds of destination IMAGEWRITE accepts. */
  datatype Destination = FileDest(path: string) | PathDest(path: string) | StreamDest

  /** Which script argument the encoder is given as its output. */
  datatype Output = DestinationArg | ImageArgument

  /** What IMAGEWRITE goes on to do: nothing (a null destination), or encode
      the image in the named format into the given output. */
  datatype WritePlan = NoWrite | WriteAs(format: string, output: Output)

  /** `fileName.lastIndexOf(c)`: the last position of `c`, or -1. */
  function LastIndexOf(s: string, c: char): (r: int)
    ensures -1 <= r < |s|
    ensures r == -1 <==> c !in s
    ensures r >= 0 ==> s[r] == c && c !in s[r + 1..]
  {
    if |s| == 0 then -1
    else if s[|s| - 1] == c then |s| - 1
    else
      var r := LastIndexOf(s[..|s| - 1], c);
      assert s == s[..|s| - 1] + [s[|s| - 1]];
      r
  }

  /** The format name for a file destination: the explicit type if one was
      given, otherwise the text after the last '.' of the path. */
  function InferFormat(path: string, typeArg: Option<string>): (r: Result<string>)
    ensures typeArg.Some? ==> r == Success(typeArg.value)
    ensures typeArg.None? ==> (r.Success? <==> '.' in path)
    ensures r.Failure? ==> r.error == BadFormat
    ensures typeArg.None? && r.Success? ==>
      && '.' !in r.value && |r.value| < |path|
      && path[|path| - |r.value| - 1] == '.' && path[|path| - |r.value|..] == r.value
  {
    if typeArg.Some? then Success(typeArg.value)
    else
      var x := LastIndexOf(path, '.');
      if x < 0 then Failure(BadFormat)
      else Success(path[x + 1..])
  }

  /** A path built as stem + "." + extension gives back the extension. */
  lemma InferFormatOfExtension(stem: string, ext: string)
    requires '.' !in ext
    ensures InferFormat(stem + "." + ext, None) == Success(ext)
  {
    var path := stem + "." + ext;
    var x := LastIndexOf(path, '.');
    assert path[|stem|] == '.';
    assert path[|stem| + 1..] == ext;
  }

  /** IMAGEWRITE(image, destination, type), up to the call into the encoder:
      the image is checked first, a null destination writes nothing, a
      stream needs an explicit type, a file or path may infer it. The output
      is always the destination argument. */
  function Write(image: Option<Raster>, dest: Option<Destination>, typeArg: Option<string>): (r: Result<WritePlan>)
    requires ImageArg(image)
    ensures image.None? <==> r == Failure(BadImage(First))
    ensures image.Some? && dest.None? ==> r == Success(NoWrite)
    ensures image.Some? && dest == Some(StreamDest) ==>
      r == (if typeArg.Some? then Success(WriteAs(typeArg.value, DestinationArg)) else Failure(BadFormat))
    ensures image.Some? && dest.Some? && !dest.value.StreamDest? ==>
      (r.Success? <==> typeArg.Some? || '.' in dest.value.path)
    ensures image.Some? && dest.Some? && !dest.value.StreamDest? ==>
      r == (var f := InferFormat(dest.value.path, typeArg);
            if f.Failure? then Failure(BadFormat) else Success(WriteAs(f.value, DestinationArg)))
    ensures r.Success? && r.value.WriteAs? ==> dest.Some? && r.value.output == DestinationArg
    ensures r == Success(NoWrite) ==> dest.None?
  {
    WriteWith(image, dest, typeArg, DestinationArg)
  }

  /** IMAGEWRITE as the source writes it: in the stream branch the stream
      is taken from the variable still holding the image argument. */
  function WriteAsWritten(image: Option<Raster>, dest: Option<Destination>, typeArg: Option<string>): (r: Result<WritePlan>)
    requires ImageArg(image)
    ensures image.Some? && dest == Some(StreamDest) && typeArg.Some? ==>
      r == Success(WriteAs(typeArg.value, ImageArgument))
    ensures !(image.Some? && dest == Some(StreamDest) && typeArg.Some?) ==> r == Write(image, dest, typeArg)
  {
    WriteWith(image, dest, typeArg, ImageArgument)
  }

  function WriteWith(image: Option<Raster>, dest: Option<Destination>, typeArg: Option<string>,
                     streamOutput: Output): Result<WritePlan>
    requires ImageArg(image)
  {
    if image.None? then Failure(BadImage(First))
    else if dest.None? then Success(NoWrite)
    else match dest.value
      case StreamDest =>
        if typeArg.None? then Failure(BadFormat) else Success(WriteAs(typeArg.value, streamOutput))
      case FileDest(path) =>
        var f := InferFormat(path, typeArg);
        if f.Failure? then Failure(f.error) else Success(WriteAs(f.value, DestinationArg))
      case PathDest(path) =>
        var f := InferFormat(path, typeArg);
        if f.Failure? then Failure(f.error) else Success(WriteAs(f.value, DestinationArg))
  }

  /** Writing a valid image to a stream with an explicit type: the source
      hands the encoder the image argument where the stream belongs. */
  lemma StreamWriteUsesImageArgument(image: Raster)
    requires IsImage(image)
    ensures WriteAsWritten(Some(image), Some(StreamDest), Some("png")).value.output == ImageArgument
    ensures Write(Some(image), Some(StreamDest), Some("png")).value.output == DestinationArg
  {
  }
}
