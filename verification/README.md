# ImageFunctions pixel core, in Dafny

A model of the part of RookScript-Desktop's `ImageFunctions` that computes
pixels itself rather than handing them to Java AWT: the four custom blend
kernels (add, subtract, multiply, desaturate) and the scanline loop that
drives them, the transpose loop, the single-pixel write of IMAGESET, the
dimension checks of IMAGE, the case-insensitive resampling and blend
registries, the argument checks of IMAGEPAINT, and the format inference of
IMAGEWRITE.

Modules:

- `Results` (results.dfy): `Option`, `Result` and the script error values
  (BadImage, BadDimensions, BadCoordinates, BadMode, BadBlend, BadFormat).
- `Argb` (argb.dfy): bytes, packed 32-bit pixels, channel unpack and pack.
  A Java `int` pixel is its unsigned bit pattern, so masks with unsigned
  shifts become division and `% 256`. The OR of shifted bytes becomes a sum,
  which is the same because every field is one byte wide. `Pack` takes
  byte-typed channels, so each kernel must prove its channels stay in 0..255.
- `Kernels` (kernels.dfy): `composePixel` of the Additive, Subtractive,
  Multiplicative and Desaturation contexts, with the `mix` helper and the
  luma. Every operand is non-negative, so Dafny's `/` matches Java's
  truncating `/`. The pre-alpha is the integer `preAlpha255`, in 0..255.
- `Rasters` (rasters.dfy): rasters as row sequences, and
  `ARGBCompositeContext.compose` as a method with a row loop and a pixel
  loop. It returns the new contents of `dstOut`.
- `Images` (images.dfy): IMAGE, IMAGESET, IMAGETRANSPOSE. An image argument
  that is not a BufferedImage is `None`.
- `Modes` (modes.dfy): the two `VALUES` registries and their null
  defaults. Java's `String.CASE_INSENSITIVE_ORDER` compares characters,
  then their upper-case forms, then the lower-case forms of those. For the
  upper-case ASCII enum names, that equality is written out as `Folds`. It
  includes the four non-ASCII characters that fold onto ASCII letters:
  U+0131 and U+0130 for 'I', U+017F for 'S' and U+212A for 'K'. The
  platform's case mappings are parameters, constrained by the facts of the
  Unicode tables the comparison can observe (`CaseTables`), and
  `FoldsIsJavaComparison` proves `Folds` equal to Java's test under them.
- `Calls` (calls.dfy): the IMAGEPAINT check order and the IMAGEWRITE
  destination and format decision.

## Model

| member | source | states |
|---|---|---|
| Argb.Alpha | src/main/java/com/blackrook/rookscript/desktop/functions/ImageFunctions.java:1768-1769 | the alpha channel is the top byte: the pixel lies between alpha * 2^24 and (alpha + 1) * 2^24 |
| Argb.Red | src/main/java/com/blackrook/rookscript/desktop/functions/ImageFunctions.java:1766-1767 | the red channel is the byte of the top 16 bits that lies below alpha |
| Argb.Green | src/main/java/com/blackrook/rookscript/desktop/functions/ImageFunctions.java:1764-1765 | the green channel is the byte of the top 24 bits that lies below alpha and red |
| Argb.Blue | src/main/java/com/blackrook/rookscript/desktop/functions/ImageFunctions.java:1762-1763 | the blue channel is what remains below alpha, red and green, so the four channels rebuild the pixel |
| Argb.Pack | src/main/java/com/blackrook/rookscript/desktop/functions/ImageFunctions.java:1778-1782 | every channel of a packed pixel reads back as the byte packed into it |
| Argb.PackOfChannels | src/main/java/com/blackrook/rookscript/desktop/functions/ImageFunctions.java:1762-1769 | unpacking a pixel into its four channels and packing them again gives the pixel back |
| Argb.ChannelsDetermine | src/main/java/com/blackrook/rookscript/desktop/functions/ImageFunctions.java:1762-1769 | two pixels with equal alpha, red, green and blue are equal |
| Kernels.Scale | src/main/java/com/blackrook/rookscript/desktop/functions/ImageFunctions.java:1774-1776 | `x * a / 255` is at most both `x` and `a`; it is `x` at a == 255, `a` at x == 255, and 0 when either is 0 |
| Kernels.ScaleMonotone | src/main/java/com/blackrook/rookscript/desktop/functions/ImageFunctions.java:1774-1776 | scaling a channel by a larger alpha never gives a smaller value |
| Kernels.EffectiveAlpha | src/main/java/com/blackrook/rookscript/desktop/functions/ImageFunctions.java:1771 | the effective source alpha is at most the source alpha and at most the pre-alpha |
| Kernels.Clamp | src/main/java/com/blackrook/rookscript/desktop/functions/ImageFunctions.java:1779-1781 | the clamp returns the byte nearest to its argument: no byte in 0..255 is closer; values already in 0..255 are kept, values below go to 0 and above to 255 |
| Kernels.AddChannel | src/main/java/com/blackrook/rookscript/desktop/functions/ImageFunctions.java:1779-1781 | an added channel is the destination plus the scaled source when that is below 255 and exactly 255 otherwise; never below the destination, never more than the scaled source above it |
| Kernels.AddPixel | src/main/java/com/blackrook/rookscript/desktop/functions/ImageFunctions.java:1760-1784 | additive blend: output alpha is the destination alpha; every colour channel is at least the destination's; zero effective alpha returns the destination pixel |
| Kernels.AddMonotoneInPreAlpha | src/main/java/com/blackrook/rookscript/desktop/functions/ImageFunctions.java:1771-1783 | raising the pre-alpha never makes any added colour channel darker |
| Kernels.AddOpaqueWhiteSaturates | src/main/java/com/blackrook/rookscript/desktop/functions/ImageFunctions.java:1771-1783 | adding opaque white at full pre-alpha sets all three colour channels to 255 and keeps alpha |
| Kernels.SubtractPixel | src/main/java/com/blackrook/rookscript/desktop/functions/ImageFunctions.java:1798-1822 | subtractive blend: output alpha is the destination alpha; every colour channel is at most the destination's; zero effective alpha returns the destination pixel |
| Kernels.SubtractChannel | src/main/java/com/blackrook/rookscript/desktop/functions/ImageFunctions.java:1817-1819 | a subtracted channel is the destination minus the scaled source when that is above 0 and exactly 0 otherwise; never above the destination, never more than the scaled source below it |
| Kernels.SubtractIsInvertedAdd | src/main/java/com/blackrook/rookscript/desktop/functions/ImageFunctions.java:1809-1821 | subtracting equals inverting the destination's colours, adding, and inverting the result |
| Kernels.AddIsInvertedSubtract | src/main/java/com/blackrook/rookscript/desktop/functions/ImageFunctions.java:1771-1783 | adding equals inverting the destination's colours, subtracting, and inverting the result, using that inverting twice is the identity |
| Kernels.MultiplyFactor | src/main/java/com/blackrook/rookscript/desktop/functions/ImageFunctions.java:1850-1852 | the factor `s + (255-s)*(255-a)/255` lies between the source channel and 255; it is 255 at zero alpha or white, and the source channel at full alpha |
| Kernels.MultiplyChannel | src/main/java/com/blackrook/rookscript/desktop/functions/ImageFunctions.java:1855-1857 | a multiplied channel never exceeds the destination channel |
| Kernels.MultiplyPixel | src/main/java/com/blackrook/rookscript/desktop/functions/ImageFunctions.java:1836-1860 | multiplicative blend: output alpha is the destination alpha; every colour channel is at most the destination's; zero effective alpha returns the destination pixel |
| Kernels.MultiplyByOpaqueWhite | src/main/java/com/blackrook/rookscript/desktop/functions/ImageFunctions.java:1847-1859 | an opaque white source at pre-alpha 255 leaves the destination pixel unchanged |
| Kernels.MultiplyByOpaqueBlack | src/main/java/com/blackrook/rookscript/desktop/functions/ImageFunctions.java:1847-1859 | an opaque black source at pre-alpha 255 zeroes all colour channels and keeps the destination alpha |
| Kernels.MultiplyOpaqueCommutes | src/main/java/com/blackrook/rookscript/desktop/functions/ImageFunctions.java:1847-1859 | between two opaque pixels at pre-alpha 255, multiplying is symmetric |
| Kernels.Mix | src/main/java/com/blackrook/rookscript/desktop/functions/ImageFunctions.java:1898-1901 | `mix(a, b, t)` lies between min(a, b) and max(a, b); it is `a` at t == 0 and `b` at t == 255 |
| Kernels.Luma | src/main/java/com/blackrook/rookscript/desktop/functions/ImageFunctions.java:1887 | the luma of a pixel never exceeds its brightest colour channel, so it is at most 255 |
| Kernels.LumaAboveMin | src/main/java/com/blackrook/rookscript/desktop/functions/ImageFunctions.java:1887 | truncation keeps the luma no more than 2 below the darkest colour channel |
| Kernels.DesaturateChannel | src/main/java/com/blackrook/rookscript/desktop/functions/ImageFunctions.java:1891-1893 | a desaturated channel lies between the destination channel and the luma; it is the channel at mix 0 and the luma at mix 255 |
| Kernels.DesaturatePixel | src/main/java/com/blackrook/rookscript/desktop/functions/ImageFunctions.java:1875-1896 | desaturation: output alpha is the destination alpha; every colour channel stays between the destination's darkest channel minus 2 and its brightest; a source red of 0 or zero effective alpha returns the destination pixel |
| Kernels.DesaturateReadsSourceRedAndAlpha | src/main/java/com/blackrook/rookscript/desktop/functions/ImageFunctions.java:1877-1888 | two sources that agree on red and alpha desaturate alike, whatever their green and blue |
| Kernels.DesaturateFullIsGrey | src/main/java/com/blackrook/rookscript/desktop/functions/ImageFunctions.java:1885-1895 | an opaque source with red 255 at pre-alpha 255 turns all three colour channels into the destination luma |
| Kernels.ComposePixel | src/main/java/com/blackrook/rookscript/desktop/functions/ImageFunctions.java:1711 | every custom kernel keeps the destination alpha and returns the destination pixel under zero effective alpha |
| Rasters.BlendRow | src/main/java/com/blackrook/rookscript/desktop/functions/ImageFunctions.java:1734-1735 | after the pixel loop, every position of the row holds the kernel applied to the source and destination pixels at that position |
| Rasters.Compose | src/main/java/com/blackrook/rookscript/desktop/functions/ImageFunctions.java:1714-1739 | with pre-alpha 0 dstOut is returned untouched; otherwise each pixel of the min(width) x min(height) region is the kernel applied to the source and dstIn pixels there; every other pixel of dstOut is unchanged |
| Rasters.TransparentSourceKeepsDestination | src/main/java/com/blackrook/rookscript/desktop/functions/ImageFunctions.java:1724-1738 | blending in place a source whose region pixels all have zero effective alpha leaves the destination unchanged |
| Rasters.EarlyReturnAgreesInPlace | src/main/java/com/blackrook/rookscript/desktop/functions/ImageFunctions.java:1717-1718 | when dstIn is dstOut, the pre-alpha-0 early return gives the same raster the loop would |
| Images.Blank | src/main/java/com/blackrook/rookscript/desktop/functions/ImageFunctions.java:91 | a new raster has the requested size |
| Images.NewImage | src/main/java/com/blackrook/rookscript/desktop/functions/ImageFunctions.java:80-91 | IMAGE reports BadDimensions exactly when width or height is below 1, width first; otherwise the image has the requested size and every pixel is 0 |
| Images.SetPixel | src/main/java/com/blackrook/rookscript/desktop/functions/ImageFunctions.java:1119-1131 | a non-image is BadImage; BadCoordinates exactly when x or y is out of bounds; otherwise pixel (x, y) becomes the colour and every other pixel and the size are unchanged |
| Images.SetPixelSameColor | src/main/java/com/blackrook/rookscript/desktop/functions/ImageFunctions.java:1131 | writing back a pixel's own colour returns the same image |
| Images.SetPixelOverwrites | src/main/java/com/blackrook/rookscript/desktop/functions/ImageFunctions.java:1131 | two writes to one pixel equal the last write alone |
| Images.TransposeInvolution | src/main/java/com/blackrook/rookscript/desktop/functions/ImageFunctions.java:759-762 | transposing twice gives the original image |
| Images.Transpose | src/main/java/com/blackrook/rookscript/desktop/functions/ImageFunctions.java:752-762 | a non-image is BadImage; otherwise the result is height x width with out(y, x) == in(x, y) for every in-range (x, y) |
| Modes.FoldsUnique | src/main/java/com/blackrook/rookscript/desktop/functions/ImageFunctions.java:1379 | no character compares equal, ignoring case, to two different upper-case ASCII letters |
| Modes.SameNameUnique | src/main/java/com/blackrook/rookscript/desktop/functions/ImageFunctions.java:1379 | no string compares equal, ignoring case, to two different upper-case names |
| Modes.FoldsIsJavaComparison | src/main/java/com/blackrook/rookscript/desktop/functions/ImageFunctions.java:1379 | under the Unicode simple case mappings, a character matches an ASCII capital in `CASE_INSENSITIVE_ORDER`'s three-step test exactly when `Folds` holds: the capital, its small letter, U+0131 or U+0130 for I, U+017F for S, U+212A for K |
| Modes.SameIgnoringCaseIsJavaComparison | src/main/java/com/blackrook/rookscript/desktop/functions/ImageFunctions.java:1473 | `SameIgnoringCase(s, name)` holds exactly when `CASE_INSENSITIVE_ORDER.compare(s, name) == 0`: equal lengths and every position matching by the three-step test |
| Modes.KernelOf | src/main/java/com/blackrook/rookscript/desktop/functions/ImageFunctions.java:1396-1461 | the blends without a custom composite are exactly REPLACE and ALPHA |
| Modes.BlendOf | src/main/java/com/blackrook/rookscript/desktop/functions/ImageFunctions.java:1418-1461 | each custom composite is installed by a blend that maps back to it |
| Modes.BlendOfKernelOf | src/main/java/com/blackrook/rookscript/desktop/functions/ImageFunctions.java:1418-1461 | a blend with a custom composite is the only blend installing it |
| Modes.Find | src/main/java/com/blackrook/rookscript/desktop/functions/ImageFunctions.java:1379-1388 | a registry lookup returns a value whose name matches, or None only when no name matches |
| Modes.ResamplingIndex | src/main/java/com/blackrook/rookscript/desktop/functions/ImageFunctions.java:1381-1386 | every resampling mode is in the registry |
| Modes.LookupResampling | src/main/java/com/blackrook/rookscript/desktop/functions/ImageFunctions.java:1379-1388 | `ResamplingType.VALUES.get(s)` is Some(m) exactly when s equals m's name ignoring case |
| Modes.BlendIndex | src/main/java/com/blackrook/rookscript/desktop/functions/ImageFunctions.java:1475-1480 | every blend is in the registry |
| Modes.LookupBlend | src/main/java/com/blackrook/rookscript/desktop/functions/ImageFunctions.java:1473-1482 | `CompositingTypes.VALUES.get(s)` is Some(b) exactly when s equals b's name ignoring case |
| Modes.ResolveResampling | src/main/java/com/blackrook/rookscript/desktop/functions/ImageFunctions.java:888 | a null mode is NEAREST; a given name resolves to m exactly when it matches m's name |
| Modes.ResolveBlend | src/main/java/com/blackrook/rookscript/desktop/functions/ImageFunctions.java:892 | a null blend is ALPHA; a given name resolves to b exactly when it matches b's name |
| Modes.NamesFoundInAnyAsciiCase | src/main/java/com/blackrook/rookscript/desktop/functions/ImageFunctions.java:1379-1388 | every enum name is found under its own spelling and in lower case |
| Modes.UnknownNameNotFound | src/main/java/com/blackrook/rookscript/desktop/functions/ImageFunctions.java:1473-1482 | a name matching no enum constant is found in neither registry |
| Calls.KnownResampling | src/main/java/com/blackrook/rookscript/desktop/functions/ImageFunctions.java:914-918 | a mode argument passes the check exactly when it is null or some mode's name |
| Calls.KnownBlend | src/main/java/com/blackrook/rookscript/desktop/functions/ImageFunctions.java:919-923 | a blend argument passes the check exactly when it is null or some blend's name |
| Calls.Paint | src/main/java/com/blackrook/rookscript/desktop/functions/ImageFunctions.java:886-941 | IMAGEPAINT succeeds exactly when every check passes; each error is reported exactly when all earlier checks passed and its own failed, in order image, source, mode, blend, width, height; null width and height take the source's size; on success the call carries the resolved arguments, and an error carries nothing to draw |
| Calls.PaintDefaults | src/main/java/com/blackrook/rookscript/desktop/functions/ImageFunctions.java:888-929 | with every optional argument null, painting goes ahead at the source's size, with ALPHA blend, pre-alpha 1.0 and NEAREST resampling |
| Calls.LastIndexOf | src/main/java/com/blackrook/rookscript/desktop/functions/ImageFunctions.java:260 | the result is -1 exactly when the character is absent; otherwise it is the position of its last occurrence |
| Calls.InferFormat | src/main/java/com/blackrook/rookscript/desktop/functions/ImageFunctions.java:258-269 | an explicit type is used as is; otherwise inference fails with BadFormat exactly when the path has no '.', and succeeds with the dot-free text after the last '.' |
| Calls.InferFormatOfExtension | src/main/java/com/blackrook/rookscript/desktop/functions/ImageFunctions.java:258-269 | a path made of stem + "." + ext, with no '.' in ext, infers ext |
| Calls.Write | src/main/java/com/blackrook/rookscript/desktop/functions/ImageFunctions.java:236-315 | a non-image is BadImage; a null destination writes nothing; a stream with a type encodes in that type, and without one is BadFormat; a file or path encodes in the inferred format, and is BadFormat when inference fails; the encoder always writes to the destination argument |
| Calls.WriteAsWritten | src/main/java/com/blackrook/rookscript/desktop/functions/ImageFunctions.java:281-298 | as written, a stream write of an image with a type hands the encoder the image argument; in every other case the result is that of Write |
| Calls.StreamWriteUsesImageArgument | src/main/java/com/blackrook/rookscript/desktop/functions/ImageFunctions.java:290 | for a stream destination, the as-written function and the corrected one pick different encoder outputs |

## Left out

- Rendering through AWT `Graphics2D.drawImage` and `fillRect` is not modelled. That covers the resize, scale, crop, flip and fill pixels, and the blit in IMAGEPAINT and IMAGEDRAW. The platform renderer and its hints decide those pixels. Calls.Paint stops at the validated call it would hand over.
- IMAGERESIZE, IMAGESCALE, IMAGECROP, IMAGEFLIPH, IMAGEFLIPV, IMAGEFILL, IMAGEDRAW, IMAGECOPY, IMAGEGET, IMAGEWIDTH and IMAGEHEIGHT are not modelled. Their pixel work is the renderer's or a plain accessor. Their argument checks mirror the ones modelled for IMAGE and IMAGEPAINT.
- The REPLACE and ALPHA blends are not computed. They delegate to the platform's `AlphaComposite`. `Modes.KernelOf` maps them to no kernel.
- `ResamplingType.setHints` is not modelled. It only sets rendering hints.
- The float pre-alpha and its conversion `(int)(preAlpha * 255)` are not modelled. The kernels take the resulting integer as a byte in 0..255. The source does not clamp, so a pre-alpha outside [0, 1] in a script is outside the model. Calls.Paint carries the script's pre-alpha as an unconverted `real`.
- Colour-model conversion (`getRGB`) and `checkRaster` are not modelled. Rasters are taken to be int-ARGB, so pixel values pass through unchanged.
- Images.NewImage: does not model the failure of `new BufferedImage` itself. The platform throws when width * height does not fit an `int`, and may run out of memory for smaller sizes; the model returns an image for every size of at least 1 x 1.
- Rasters.Compose requires that dstOut covers the blended region. AWT hands compose rasters of matching size, and a smaller dstOut would make the source throw.
- The image decoding and encoding of IMAGEREAD and IMAGEWRITE are ImageIO I/O and are not modelled. So is the encoder's "no appropriate writer" answer.
- Script-stack marshaling, the type coercion of `asInt`/`asString`, and the thread-local scratch values are glue and are not modelled. IMAGEDRAW declares six parameters but pops eight values; this falls in that glue too.
- DesktopFunctions.java (opening files and URIs) is not part of this model.

## Findings

| source | as written | input that shows it | evidently intended | confidence | as-written member | corrected member |
|---|---|---|---|---|---|---|
| src/main/java/com/blackrook/rookscript/desktop/functions/ImageFunctions.java:290 | in the OutputStream branch of IMAGEWRITE the stream is read from `temp`, which still holds the image argument | IMAGEWRITE(image, someOutputStream, "png") | read the stream from `dest`, the destination argument that was just checked to be an OutputStream | high that the wrong variable is read; what `asObjectType` then returns is not visible; not executed | Calls.WriteAsWritten (shown by Calls.StreamWriteUsesImageArgument) | Calls.Write |
