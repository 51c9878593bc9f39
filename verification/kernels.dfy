/** The four custom blend kernels of ImageFunctions: `composePixel` of the
    Additive, Subtractive, Multiplicative and Desaturation composite
    contexts. Each combines an incoming source pixel with the existing
    destination pixel under a pre-alpha `pre` already converted to 0..255.
    All arithmetic is on non-negative ints, so Dafny's `/` is the source's
    truncating `/`. */
module Kernels {
  import opened Argb

  datatype Kernel = Additive | Subtractive | Multiplicative | Desaturation

  /** `x * a / 255`: an 8-bit value scaled by an 8-bit fraction. */
  function Scale(x: Byte, a: Byte): (r: Byte)
    ensures r <= x && r <= a
    ensures a == 255 ==> r == x
    ensures x == 255 ==> r == a
    ensures (a == 0 || x == 0) ==> r == 0
  {
    ScaleBound(x, a);
    x * a / 255
  }

  /** Multiplying by a non-negative factor keeps the order. */
  lemma {:induction false} MulMonotone(x: nat, a: int, b: int)
    requires a <= b
    ensures x * a <= x * b
  {
    if x > 0 {
      MulMonotone(x - 1, a, b);
      assert x * a == (x - 1) * a + a;
      assert x * b == (x - 1) * b + b;
    }
  }

  lemma ScaleBound(x: Byte, a: Byte)
    ensures x * a / 255 <= x && x * a / 255 <= a
  {
    MulMonotone(x, a, 255);
    MulMonotone(a, x, 255);
    assert a * x == x * a;
  }

  /** Scaling is monotone in the fraction. */
  lemma ScaleMonotone(x: Byte, a1: Byte, a2: Byte)
    requires a1 <= a2
    ensures Scale(x, a1) <= Scale(x, a2)
  {
    MulMonotone(x, a1, a2);
  }

  /** How far apart two integers are. */
  function Dist(a: int, b: int): nat {
    if a <= b then b - a else a - b
  }

  /** `Math.min(Math.max(v, 0), 255)`: the byte nearest to `v`. */
  function Clamp(v: int): (r: Byte)
    ensures forall b: Byte :: Dist(r, v) <= Dist(b, v)
    ensures 0 <= v <= 255 ==> r == v
    ensures v < 0 ==> r == 0
    ensures v > 255 ==> r == 255
  {
    if v < 0 then 0 else if v > 255 then 255 else v
  }

  /** The source alpha with the pre-alpha applied (`srcAlpha * preAlpha / 255`). */
  function EffectiveAlpha(src: Pixel, pre: Byte): (a: Byte)
    ensures a <= Alpha(src) && a <= pre
  {
    Scale(Alpha(src), pre)
  }

  // ---------------------------------------------------------------------
  // Additive

  /** One colour channel of the additive kernel: the destination plus the
      scaled source, saturating at 255. */
  function AddChannel(s: Byte, d: Byte, a: Byte): (r: Byte)
    ensures d <= r && r - d <= Scale(s, a)
    ensures r == 255 <==> d + Scale(s, a) >= 255
    ensures r < 255 ==> r == d + Scale(s, a)
  {
    Clamp(d + Scale(s, a))
  }

  /** AdditiveCompositeContext.composePixel. */
  function AddPixel(src: Pixel, dst: Pixel, pre: Byte): (r: Pixel)
    ensures Alpha(r) == Alpha(dst)
    ensures forall c :: Chan(dst, c) <= Chan(r, c)
    ensures EffectiveAlpha(src, pre) == 0 ==> r == dst
  {
    var a := EffectiveAlpha(src, pre);
    var r := Pack(Alpha(dst), AddChannel(Red(src), Red(dst), a),
                  AddChannel(Green(src), Green(dst), a), AddChannel(Blue(src), Blue(dst), a));
    if a == 0 then PackOfChannels(dst); r else r
  }

  /** A larger pre-alpha never makes an added channel darker. */
  lemma AddMonotoneInPreAlpha(src: Pixel, dst: Pixel, pre1: Byte, pre2: Byte, c: Channel)
    requires pre1 <= pre2
    ensures Chan(AddPixel(src, dst, pre1), c) <= Chan(AddPixel(src, dst, pre2), c)
  {
    ScaleMonotone(Alpha(src), pre1, pre2);
    ScaleMonotone(Chan(src, c), EffectiveAlpha(src, pre1), EffectiveAlpha(src, pre2));
  }

  /** Adding an opaque white source at full pre-alpha saturates every colour channel. */
  lemma AddOpaqueWhiteSaturates(dst: Pixel)
    ensures var r := AddPixel(0xFFFF_FFFF, dst, 255);
      Red(r) == 255 && Green(r) == 255 && Blue(r) == 255 && Alpha(r) == Alpha(dst)
  {
    OpaqueWhiteChannels();
  }

  lemma OpaqueWhiteChannels()
    ensures Alpha(0xFFFF_FFFF) == 255 && Red(0xFFFF_FFFF) == 255
    ensures Green(0xFFFF_FFFF) == 255 && Blue(0xFFFF_FFFF) == 255
  {
  }

  // ---------------------------------------------------------------------
  // Subtractive

  /** One colour channel of the subtractive kernel: the destination minus
      the scaled source, saturating at 0. */
  function SubtractChannel(s: Byte, d: Byte, a: Byte): (r: Byte)
    ensures r <= d && d - r <= Scale(s, a)
    ensures r == 0 <==> Scale(s, a) >= d
    ensures r > 0 ==> r == d - Scale(s, a)
  {
    Clamp(d - Scale(s, a))
  }

  /** SubtractiveCompositeContext.composePixel. */
  function SubtractPixel(src: Pixel, dst: Pixel, pre: Byte): (r: Pixel)
    ensures Alpha(r) == Alpha(dst)
    ensures forall c :: Chan(r, c) <= Chan(dst, c)
    ensures EffectiveAlpha(src, pre) == 0 ==> r == dst
  {
    var a := EffectiveAlpha(src, pre);
    var r := Pack(Alpha(dst), SubtractChannel(Red(src), Red(dst), a),
                  SubtractChannel(Green(src), Green(dst), a), SubtractChannel(Blue(src), Blue(dst), a));
    if a == 0 then PackOfChannels(dst); r else r
  }

  /** The photographic negative: every colour channel `c` becomes `255 - c`,
      alpha is kept. */
  function Invert(p: Pixel): (r: Pixel)
    ensures Alpha(r) == Alpha(p)
    ensures forall c :: Chan(r, c) == 255 - Chan(p, c)
  {
    Pack(Alpha(p), 255 - Red(p), 255 - Green(p), 255 - Blue(p))
  }

  /** Taking the negative twice gives the pixel back. */
  lemma InvertInvolution(p: Pixel)
    ensures Invert(Invert(p)) == p
  {
    ChannelsDetermine(Invert(Invert(p)), p);
  }

  /** Subtracting a source is adding it to the negative of the destination
      and taking the negative of the result. */
  lemma SubtractIsInvertedAdd(src: Pixel, dst: Pixel, pre: Byte)
    ensures SubtractPixel(src, dst, pre) == Invert(AddPixel(src, Invert(dst), pre))
  {
    var s := SubtractPixel(src, dst, pre);
    var t := Invert(AddPixel(src, Invert(dst), pre));
    assert Chan(s, R) == Chan(t, R);
    assert Chan(s, G) == Chan(t, G);
    assert Chan(s, B) == Chan(t, B);
    ChannelsDetermine(s, t);
  }

  /** And the other way round: adding is subtracting from the negative of the
      destination and taking the negative of the result. */
  lemma AddIsInvertedSubtract(src: Pixel, dst: Pixel, pre: Byte)
    ensures AddPixel(src, dst, pre) == Invert(SubtractPixel(src, Invert(dst), pre))
  {
    SubtractIsInvertedAdd(src, Invert(dst), pre);
    InvertInvolution(dst);
    InvertInvolution(AddPixel(src, dst, pre));
  }

  // ---------------------------------------------------------------------
  // Multiplicative

  /** `s + (255 - s) * (255 - a) / 255`: the source channel pulled toward
      white as the effective alpha falls. */
  function MultiplyFactor(s: Byte, a: Byte): (f: Byte)
    ensures s <= f
    ensures a == 0 || s == 255 ==> f == 255
    ensures a == 255 ==> f == s
  {
    s + Scale(255 - s, 255 - a)
  }

  function MultiplyChannel(s: Byte, d: Byte, a: Byte): (r: Byte)
    ensures r <= d
  {
    Scale(d, MultiplyFactor(s, a))
  }

  /** MultiplicativeCompositeContext.composePixel. */
  function MultiplyPixel(src: Pixel, dst: Pixel, pre: Byte): (r: Pixel)
    ensures Alpha(r) == Alpha(dst)
    ensures forall c :: Chan(r, c) <= Chan(dst, c)
    ensures EffectiveAlpha(src, pre) == 0 ==> r == dst
  {
    var a := EffectiveAlpha(src, pre);
    var r := Pack(Alpha(dst), MultiplyChannel(Red(src), Red(dst), a),
                  MultiplyChannel(Green(src), Green(dst), a), MultiplyChannel(Blue(src), Blue(dst), a));
    if a == 0 then PackOfChannels(dst); r else r
  }

  /** An opaque white source at full pre-alpha leaves the destination as it is. */
  lemma MultiplyByOpaqueWhite(dst: Pixel)
    ensures MultiplyPixel(0xFFFF_FFFF, dst, 255) == dst
  {
    OpaqueWhiteChannels();
    ChannelsDetermine(MultiplyPixel(0xFFFF_FFFF, dst, 255), dst);
  }

  /** An opaque black source at full pre-alpha turns every colour channel to 0. */
  lemma MultiplyByOpaqueBlack(dst: Pixel)
    ensures var r := MultiplyPixel(0xFF00_0000, dst, 255);
      Red(r) == 0 && Green(r) == 0 && Blue(r) == 0 && Alpha(r) == Alpha(dst)
  {
    assert Alpha(0xFF00_0000) == 255 && Red(0xFF00_0000) == 0;
    assert Green(0xFF00_0000) == 0 && Blue(0xFF00_0000) == 0;
  }

  /** Between two opaque pixels at full pre-alpha, multiplication is symmetric. */
  lemma MultiplyOpaqueCommutes(p: Pixel, q: Pixel)
    requires Alpha(p) == 255 && Alpha(q) == 255
    ensures MultiplyPixel(p, q, 255) == MultiplyPixel(q, p, 255)
  {
    var x := MultiplyPixel(p, q, 255);
    var y := MultiplyPixel(q, p, 255);
    forall c ensures Chan(x, c) == Chan(y, c) {
      assert Chan(q, c) * Chan(p, c) == Chan(p, c) * Chan(q, c);
    }
    assert Chan(x, R) == Chan(y, R) && Chan(x, G) == Chan(y, G) && Chan(x, B) == Chan(y, B);
    ChannelsDetermine(x, y);
  }

  // ---------------------------------------------------------------------
  // Desaturation

  /** `((255 - t) * a + t * b) / 255`: a blend from `a` (at `t == 0`) to `b`
      (at `t == 255`). */
  function Mix(a: Byte, b: Byte, t: Byte): (r: Byte)
    ensures (if a <= b then a else b) <= r <= (if a <= b then b else a)
    ensures t == 0 ==> r == a
    ensures t == 255 ==> r == b
  {
    MixBounds(a, b, t);
    ((255 - t) * a + t * b) / 255
  }

  lemma MixBounds(a: Byte, b: Byte, t: Byte)
    ensures var m := if a <= b then a else b;
            var n := if a <= b then b else a;
            m * 255 <= (255 - t) * a + t * b <= n * 255
  {
    var m := if a <= b then a else b;
    var n := if a <= b then b else a;
    MulMonotone(255 - t, m, a);
    MulMonotone(255 - t, a, n);
    MulMonotone(t, m, b);
    MulMonotone(t, b, n);
    assert (255 - t) * m + t * m == m * 255;
    assert (255 - t) * n + t * n == n * 255;
  }

  /** `b * 19 / 255 + g * 182 / 255 + r * 54 / 255`; the weights add up to 255. */
  function Luma(p: Pixel): (l: Byte)
    ensures l <= MaxChannel(p)
  {
    LumaBound(p);
    Blue(p) * 19 / 255 + Green(p) * 182 / 255 + Red(p) * 54 / 255
  }

  function MaxChannel(p: Pixel): Byte {
    var m := if Red(p) <= Green(p) then Green(p) else Red(p);
    if m <= Blue(p) then Blue(p) else m
  }

  function MinChannel(p: Pixel): Byte {
    var m := if Red(p) <= Green(p) then Red(p) else Green(p);
    if m <= Blue(p) then m else Blue(p)
  }

  lemma LumaBound(p: Pixel)
    ensures Blue(p) * 19 / 255 + Green(p) * 182 / 255 + Red(p) * 54 / 255 <= MaxChannel(p)
  {
    var n: int := MaxChannel(p);
    var b: int, g: int, r: int := Blue(p) * 19 / 255, Green(p) * 182 / 255, Red(p) * 54 / 255;
    assert b * 255 <= Blue(p) * 19 <= n * 19;
    assert g * 255 <= Green(p) * 182 <= n * 182;
    assert r * 255 <= Red(p) * 54 <= n * 54;
  }

  /** Each truncated term loses less than one, so the luma is at most two
      below the darkest channel. */
  lemma LumaAboveMin(p: Pixel)
    ensures MinChannel(p) - 2 <= Luma(p)
  {
    var m: int := MinChannel(p);
    var b: int, g: int, r: int := Blue(p) * 19 / 255, Green(p) * 182 / 255, Red(p) * 54 / 255;
    assert m * 19 <= Blue(p) * 19 < (b + 1) * 255;
    assert m * 182 <= Green(p) * 182 < (g + 1) * 255;
    assert m * 54 <= Red(p) * 54 < (r + 1) * 255;
  }

  /** One destination channel mixed toward the luma `lum` by `t`. */
  function DesaturateChannel(d: Byte, lum: Byte, t: Byte, lo: int, hi: int): (r: Byte)
    requires lo <= d <= hi && lo <= lum <= hi
    ensures lo <= r <= hi
    ensures (if d <= lum then d else lum) <= r <= (if d <= lum then lum else d)
    ensures t == 0 ==> r == d
    ensures t == 255 ==> r == lum
  {
    Mix(d, lum, t)
  }

  /** DesaturationCompositeContext.composePixel. The mix amount is driven by
      the source's red channel only. */
  function DesaturatePixel(src: Pixel, dst: Pixel, pre: Byte): (r: Pixel)
    ensures Alpha(r) == Alpha(dst)
    ensures forall c :: MinChannel(dst) - 2 <= Chan(r, c) <= MaxChannel(dst)
    ensures Red(src) == 0 || EffectiveAlpha(src, pre) == 0 ==> r == dst
  {
    var lum := Luma(dst);
    var t := Scale(Red(src), EffectiveAlpha(src, pre));
    var lo, hi := MinChannel(dst) - 2, MaxChannel(dst);
    LumaAboveMin(dst);
    var red := DesaturateChannel(Red(dst), lum, t, lo, hi);
    var green := DesaturateChannel(Green(dst), lum, t, lo, hi);
    var blue := DesaturateChannel(Blue(dst), lum, t, lo, hi);
    var r := Pack(Alpha(dst), red, green, blue);
    assert Chan(r, R) == red && Chan(r, G) == green && Chan(r, B) == blue;
    if t == 0 then PackOfChannels(dst); r else r
  }

  /** Only the red and alpha channels of the source matter. */
  lemma DesaturateReadsSourceRedAndAlpha(s1: Pixel, s2: Pixel, dst: Pixel, pre: Byte)
    requires Red(s1) == Red(s2) && Alpha(s1) == Alpha(s2)
    ensures DesaturatePixel(s1, dst, pre) == DesaturatePixel(s2, dst, pre)
  {
  }

  /** At full strength the destination becomes grey: all three colour channels equal its luma. */
  lemma DesaturateFullIsGrey(src: Pixel, dst: Pixel)
    requires Red(src) == 255 && Alpha(src) == 255
    ensures var r := DesaturatePixel(src, dst, 255);
      Red(r) == Luma(dst) && Green(r) == Luma(dst) && Blue(r) == Luma(dst)
  {
  }

  // ---------------------------------------------------------------------
  // Dispatch

  /** `composePixel`, dispatched on the context's kernel. */
  function ComposePixel(k: Kernel, src: Pixel, dst: Pixel, pre: Byte): (r: Pixel)
    ensures Alpha(r) == Alpha(dst)
    ensures EffectiveAlpha(src, pre) == 0 ==> r == dst
  {
    match k
    case Additive => AddPixel(src, dst, pre)
    case Subtractive => SubtractPixel(src, dst, pre)
    case Multiplicative => MultiplyPixel(src, dst, pre)
    case Desaturation => DesaturatePixel(src, dst, pre)
  }
}
