/** Packed 32-bit ARGB colours.

    A Java `int` pixel is modelled by its unsigned bit pattern. The source
    unpacks a channel with a mask and an unsigned shift
    (`(argb & 0x00FF0000) >>> 16`); on the unsigned reading that is a
    division by a power of 256 followed by `% 256`. It packs the channels
    back with `|` of shifted bytes; since each field is a byte in its own
    position, that is the same as adding them, which `Pack` does. */
module Argb {

  type Byte = x: int | 0 <= x < 0x100
  type Pixel = x: int | 0 <= x < 0x1_0000_0000

  /** The three colour channels a blend kernel combines. */
  datatype Channel = R | G | B

  /** Bits 24-31: the byte above every other field. */
  function Alpha(p: Pixel): (r: Byte)
    ensures r * 0x100_0000 <= p < (r + 1) * 0x100_0000
  {
    p / 0x100_0000
  }

  /** Bits 16-23: what the top 16 bits hold below the alpha byte. */
  function Red(p: Pixel): (r: Byte)
    ensures p / 0x1_0000 == Alpha(p) * 0x100 + r
  {
    p / 0x1_0000 % 0x100
  }

  /** Bits 8-15: what the top 24 bits hold below alpha and red. */
  function Green(p: Pixel): (r: Byte)
    ensures p / 0x100 == (Alpha(p) * 0x100 + Red(p)) * 0x100 + r
  {
    p / 0x100 % 0x100
  }

  /** Bits 0-7: what remains of the pixel below alpha, red and green. */
  function Blue(p: Pixel): (r: Byte)
    ensures p == ((Alpha(p) * 0x100 + Red(p)) * 0x100 + Green(p)) * 0x100 + r
  {
    p % 0x100
  }

  function Chan(p: Pixel, c: Channel): Byte {
    match c
    case R => Red(p)
    case G => Green(p)
    case B => Blue(p)
  }

  /** `a << 24 | r << 16 | g << 8 | b`: every channel can be read back. */
  function Pack(a: Byte, r: Byte, g: Byte, b: Byte): (p: Pixel)
    ensures Alpha(p) == a && Red(p) == r && Green(p) == g && Blue(p) == b
  {
    ((a * 0x100 + r) * 0x100 + g) * 0x100 + b
  }

  /** Unpacking and re-packing a pixel gives the pixel back. */
  lemma PackOfChannels(p: Pixel)
    ensures Pack(Alpha(p), Red(p), Green(p), Blue(p)) == p
  {
    var q1 := p / 0x100;
    var q2 := q1 / 0x100;
    assert p == q1 * 0x100 + Blue(p);
    assert q1 == q2 * 0x100 + Green(p);
    assert q2 == Alpha(p) * 0x100 + Red(p);
  }

  /** Two pixels with the same four channels are the same pixel. */
  lemma ChannelsDetermine(p: Pixel, q: Pixel)
    requires Alpha(p) == Alpha(q) && Red(p) == Red(q)
    requires Green(p) == Green(q) && Blue(p) == Blue(q)
    ensures p == q
  {
    PackOfChannels(p);
    PackOfChannels(q);
  }
}
