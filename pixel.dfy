/** The per-pixel colour formula of the image compositor
    (BiblioPixelAnimations/matrix/ImageAnim.py, lines 69-81): alpha
    premultiplication by an integer shift, substitution of the background
    colour for fully transparent samples, the optional brightness scaling and
    the gamma lookup. */
module Pixel {
  import opened Types

  /** `(v * a) >> 8` for channel value `v` and alpha `a`: the product divided
      by 256 and rounded down, so never more than 254. */
  function Premultiply(v: int, a: int): (r: int)
    requires IsByte(v) && IsByte(a)
    ensures 0 <= r <= 254
    ensures r * 256 <= v * a < r * 256 + 256
  {
    PremultiplyBound(v, a);
    (v * a) / 256
  }

  lemma PremultiplyBound(v: int, a: int)
    requires IsByte(v) && IsByte(a)
    ensures 0 <= v * a <= 255 * 255
  {
    assert v * a <= 255 * a <= 255 * 255;
  }

  /** The channel value `c` that indexes the gamma table for sample `s`:
      the background channel when `s` is fully transparent, otherwise the
      premultiplied channel; then scaled by `color_scale` whenever the
      brightness is not 255 (the background colour included, although it
      has already been scaled once at construction). */
  function ChannelValue(s: Rgba, bg: Color, bright: int, scale: ColorScale, c: int): (v: int)
    requires ValidRgba(s) && ValidColor(bg) && ScaleInRange(scale) && IsByte(bright) && 0 <= c < 3
    ensures IsByte(v)
  {
    var base := if s.a == 0 then bg.At(c) else Premultiply(s.At(c), s.a);
    if bright != 255 then scale(base, bright) else base
  }

  /** The byte written for channel `c` of sample `s`. */
  function PixelByte(gamma: seq<int>, s: Rgba, bg: Color, bright: int, scale: ColorScale, c: int): int
    requires |gamma| == 256
    requires ValidRgba(s) && ValidColor(bg) && ScaleInRange(scale) && IsByte(bright) && 0 <= c < 3
  {
    gamma[ChannelValue(s, bg, bright, scale, c)]
  }

  /** A sample with alpha 0 shows the (already scaled) background colour,
      scaled a second time when the brightness is not 255; its own RGB
      values play no part. */
  lemma TransparentShowsBackground(gamma: seq<int>, s: Rgba, t: Rgba, bg: Color, bright: int,
                                   scale: ColorScale, c: int)
    requires |gamma| == 256
    requires ValidRgba(s) && ValidRgba(t) && ValidColor(bg) && ScaleInRange(scale) && IsByte(bright) && 0 <= c < 3
    requires s.a == 0 && t.a == 0
    ensures PixelByte(gamma, s, bg, bright, scale, c) == PixelByte(gamma, t, bg, bright, scale, c)
    ensures PixelByte(gamma, s, bg, bright, scale, c) ==
            if bright == 255 then gamma[bg.At(c)] else gamma[scale(bg.At(c), bright)]
  {
  }

  /** At brightness 255 a sample with non-zero alpha writes
      `gamma[(v * a) >> 8]`, and that index is at most 254. */
  lemma OpaqueAtFullBrightness(gamma: seq<int>, s: Rgba, bg: Color, scale: ColorScale, c: int)
    requires |gamma| == 256
    requires ValidRgba(s) && ValidColor(bg) && ScaleInRange(scale) && 0 <= c < 3
    requires s.a != 0
    ensures ChannelValue(s, bg, 255, scale, c) == Premultiply(s.At(c), s.a) <= 254
    ensures PixelByte(gamma, s, bg, 255, scale, c) == gamma[Premultiply(s.At(c), s.a)]
  {
  }

  /** The shift under-normalises: at full alpha, `(v * 255) >> 8` is `v - 1`
      for every non-zero channel value and 0 for 0. So at brightness 255 an
      opaque sample indexes the gamma table one below each of its non-zero
      channels (opaque white at 254, not 255), and only its zero channels
      are looked up unchanged. */
  lemma OpaqueChannelLoweredByOne(gamma: seq<int>, s: Rgba, bg: Color, scale: ColorScale, c: int)
    requires |gamma| == 256
    requires ValidRgba(s) && ValidColor(bg) && ScaleInRange(scale) && 0 <= c < 3
    requires s.a == 255
    ensures ChannelValue(s, bg, 255, scale, c) == if s.At(c) == 0 then 0 else s.At(c) - 1
    ensures PixelByte(gamma, s, bg, 255, scale, c) == gamma[if s.At(c) == 0 then 0 else s.At(c) - 1]
  {
  }
}
