/** Values that the image animation works on: colours, decoded RGBA frames,
    the LED matrix it draws to, and the pre-rendered frames it plays back. */
module Types {

  datatype Option<+T> = None | Some(value: T)

  datatype Result<+R, +E> = Success(value: R) | Failure(error: E)

  /** An 8-bit channel value. */
  predicate IsByte(v: int) { 0 <= v < 256 }

  /** An RGB triple, as the colour tuples of the colour library. */
  datatype Color = Color(r: int, g: int, b: int) {
    /** Channel 0, 1 or 2 (red, green, blue). */
    function At(c: int): int
      requires 0 <= c < 3
    {
      if c == 0 then r else if c == 1 then g else b
    }
  }

  const Off := Color(0, 0, 0)

  predicate ValidColor(c: Color) { IsByte(c.r) && IsByte(c.g) && IsByte(c.b) }

  /** One decoded sample of an RGBA frame. */
  datatype Rgba = Rgba(r: int, g: int, b: int, a: int) {
    function At(c: int): int
      requires 0 <= c < 3
    {
      if c == 0 then r else if c == 1 then g else b
    }
  }

  predicate ValidRgba(p: Rgba) { IsByte(p.r) && IsByte(p.g) && IsByte(p.b) && IsByte(p.a) }

  /** A decoded image frame: its size, its samples (row y, column x, as
      `getpixel((x, y))` reads them) and the `duration` entry of its info
      dictionary when it has one. */
  datatype Frame = Frame(width: int, height: int, pixels: seq<seq<Rgba>>, duration: Option<int>)

  predicate ValidFrame(f: Frame) {
    && 0 <= f.width && 0 <= f.height
    && |f.pixels| == f.height
    && (forall y :: 0 <= y < |f.pixels| ==> |f.pixels[y]| == f.width)
    && (forall y, x :: 0 <= y < |f.pixels| && 0 <= x < |f.pixels[y]| ==> ValidRgba(f.pixels[y][x]))
  }

  /** The LED matrix: its size, the number of physical LEDs, the map from a
      matrix coordinate (row y, column x) to a physical LED index, the
      driver's 256-entry gamma table and the master brightness. */
  datatype Led = Led(width: int, height: int, numLEDs: nat, matrixMap: seq<seq<int>>,
                     gamma: seq<int>, masterBrightness: int)
  {
    /** Three bytes per LED. */
    function BufByteCount(): nat { 3 * numLEDs }
  }

  predicate ValidLed(led: Led) {
    && 0 <= led.width && 0 <= led.height
    && |led.gamma| == 256
    && |led.matrixMap| == led.height
    && (forall y :: 0 <= y < |led.matrixMap| ==> |led.matrixMap[y]| == led.width)
    && (forall y, x :: 0 <= y < |led.matrixMap| && 0 <= x < |led.matrixMap[y]| ==>
          0 <= led.matrixMap[y][x] < led.numLEDs)
  }

  /** One pre-rendered frame: its duration and its LED buffer. */
  datatype RenderedFrame = RenderedFrame(duration: Option<int>, buffer: seq<int>)

  /** The colour library's `color_scale`, one channel at a time:
      `scale(v, level)` is channel value `v` scaled to brightness `level`. */
  type ColorScale = (int, int) -> int

  /** What the model assumes of `color_scale`: at a brightness level in
      0..255, a channel value maps to a channel value. */
  ghost predicate ScaleInRange(scale: ColorScale) {
    forall v, level :: IsByte(v) && IsByte(level) ==> IsByte(scale(v, level))
  }

  /** `color_scale` applied to a whole colour. */
  function ScaleColor(scale: ColorScale, c: Color, level: int): (r: Color)
    requires ScaleInRange(scale) && ValidColor(c) && IsByte(level)
    ensures ValidColor(r)
    ensures forall k :: 0 <= k < 3 ==> r.At(k) == scale(c.At(k), level)
  {
    Color(scale(c.r, level), scale(c.g, level), scale(c.b, level))
  }
}
