/** What `_getBufferFromImage` (BiblioPixelAnimations/matrix/ImageAnim.py,
    lines 37-83) produces, stated pointwise: which coordinates the nested
    loop paints, what every byte of the LED buffer holds once the loop is
    done, and the facts that follow (bounds, determinism, the effect of
    transparent samples and of duplicate layout cells). */
module Compositor {
  import opened Types
  import opened Pixel

  /** Everything one call of the compositor reads: the matrix, the
      background colour (already scaled at construction), the resolved
      brightness, `color_scale`, the decoded frame and the offset. */
  datatype Job = Job(led: Led, bg: Color, bright: int, scale: ColorScale, img: Frame, ox: int, oy: int)

  ghost predicate ValidJob(j: Job) {
    ValidLed(j.led) && ValidColor(j.bg) && IsByte(j.bright) && ScaleInRange(j.scale) && ValidFrame(j.img)
  }

  /** Lines 42-48: the matrix size less the offset, cut down to the image
      size when the image is smaller. May be zero or negative. */
  function Extent(ledSize: int, off: int, imgSize: int): (e: int)
    ensures e <= ledSize - off && e <= imgSize
    ensures e == ledSize - off || e == imgSize
  {
    if imgSize < ledSize - off then imgSize else ledSize - off
  }

  function Width(j: Job): int { Extent(j.led.width, j.ox, j.img.width) }

  function Height(j: Job): int { Extent(j.led.height, j.oy, j.img.height) }

  /** (x, y) is visited by the loops `x in [ox, ox + w)`, `y in [oy, oy + h)`
      (lines 64-65) and is not skipped for lying left of or above the
      origin (lines 66-67). */
  predicate Painted(j: Job, x: int, y: int) {
    j.ox <= x < j.ox + Width(j) && j.oy <= y < j.oy + Height(j) && 0 <= x && 0 <= y
  }

  /** (x, y) is visited before (x', y'): x is the outer loop, y the inner. */
  predicate Before(x: int, y: int, x': int, y': int) {
    x < x' || (x == x' && y < y')
  }

  /** (x, y) is painted and precedes the loop cursor (cx, cy). */
  predicate Done(j: Job, cx: int, cy: int, x: int, y: int) {
    Painted(j, x, y) && Before(x, y, cx, cy)
  }

  /** Every painted coordinate lies on the matrix, and its sample at
      (x - ox, y - oy) lies in the image. */
  lemma PaintedInBounds(j: Job, x: int, y: int)
    requires Painted(j, x, y)
    ensures 0 <= x < j.led.width && 0 <= y < j.led.height
    ensures 0 <= x - j.ox < j.img.width && 0 <= y - j.oy < j.img.height
  {
  }

  /** The image lies wholly off the matrix: its offset is at or past the
      right or bottom edge, or its far side is at or before the left or top
      edge. */
  predicate OffMatrix(j: Job) {
    j.ox >= j.led.width || j.oy >= j.led.height || j.ox + j.img.width <= 0 || j.oy + j.img.height <= 0
  }

  /** An image wholly off the matrix, on any side, paints nothing. */
  lemma OffsetPastEdgePaintsNothing(j: Job, x: int, y: int)
    requires OffMatrix(j)
    ensures !Painted(j, x, y)
  {
  }

  /** The LED that painted coordinate (x, y) writes: `matrix_map[y][x]`. */
  function MapAt(j: Job, x: int, y: int): (p: int)
    requires ValidJob(j) && Painted(j, x, y)
    ensures 0 <= p < j.led.numLEDs
  {
    j.led.matrixMap[y][x]
  }

  /** The sample that painted coordinate (x, y) reads: `getpixel((x - ox, y - oy))`. */
  function Sample(j: Job, x: int, y: int): (s: Rgba)
    requires ValidJob(j) && Painted(j, x, y)
    ensures ValidRgba(s)
  {
    j.img.pixels[y - j.oy][x - j.ox]
  }

  /** The byte that painted coordinate (x, y) writes for channel c. */
  function OutByte(j: Job, x: int, y: int, c: int): int
    requires ValidJob(j) && Painted(j, x, y) && 0 <= c < 3
  {
    PixelByte(j.led.gamma, Sample(j, x, y), j.bg, j.bright, j.scale, c)
  }

  /** Lines 53-59: the fill of the buffer before any pixel is painted: the
      literal 0 when the scaled background is (0, 0, 0), otherwise the gamma
      value of the background channel. */
  function BgByte(j: Job, c: int): int
    requires ValidJob(j) && 0 <= c < 3
  {
    if j.bg == Off then 0 else j.led.gamma[j.bg.At(c)]
  }

  /** Channel c of LED p in an LED buffer. */
  function ByteAt(buf: seq<int>, p: int, c: int): int
    requires 0 <= p && 0 <= c < 3 && 3 * p + c < |buf|
  {
    buf[3 * p + c]
  }

  /** No coordinate painted before cursor (cx, cy) maps to LED p. */
  ghost predicate Unwritten(j: Job, cx: int, cy: int, p: int)
    requires ValidJob(j)
  {
    forall x, y :: Done(j, cx, cy, x, y) ==> MapAt(j, x, y) != p
  }

  /** Among the coordinates painted before cursor (cx, cy), none after
      (x, y) maps to the LED that (x, y) maps to. */
  ghost predicate LastWriter(j: Job, cx: int, cy: int, x: int, y: int)
    requires ValidJob(j) && Painted(j, x, y)
  {
    forall x', y' :: Done(j, cx, cy, x', y') && Before(x, y, x', y') ==> MapAt(j, x', y') != MapAt(j, x, y)
  }

  /** The buffer as it stands when the loop cursor is at (cx, cy): LEDs not
      yet written hold the background fill, and every other LED holds the
      bytes of the last coordinate so far that mapped to it. */
  ghost predicate RenderedUpTo(buf: seq<int>, j: Job, cx: int, cy: int)
    requires ValidJob(j)
  {
    && |buf| == j.led.BufByteCount()
    && (forall p, c :: 0 <= p < j.led.numLEDs && 0 <= c < 3 && Unwritten(j, cx, cy, p) ==>
          ByteAt(buf, p, c) == BgByte(j, c))
    && (forall x, y, c :: Done(j, cx, cy, x, y) && 0 <= c < 3 && LastWriter(j, cx, cy, x, y) ==>
          ByteAt(buf, MapAt(j, x, y), c) == OutByte(j, x, y, c))
  }

  /** The cursor once both loops are finished: every painted coordinate
      precedes it. */
  function EndX(j: Job): int { j.ox + Width(j) }

  /** The buffer `_getBufferFromImage` returns for job j. */
  ghost predicate Composited(buf: seq<int>, j: Job)
    requires ValidJob(j)
  {
    RenderedUpTo(buf, j, EndX(j), j.oy)
  }

  /** Line 53 and lines 55-59: a buffer of `bufByteCount` entries, each the
      background fill, is the state before the loops. */
  lemma RenderStart(buf: seq<int>, j: Job)
    requires ValidJob(j)
    requires |buf| == j.led.BufByteCount()
    requires forall i :: 0 <= i < |buf| ==> buf[i] == BgByte(j, i % 3)
    ensures RenderedUpTo(buf, j, j.ox, j.oy)
  {
    forall p, c | 0 <= p < j.led.numLEDs && 0 <= c < 3
      ensures ByteAt(buf, p, c) == BgByte(j, c)
    {
      assert (3 * p + c) % 3 == c;
    }
  }

  /** The buffer after visiting (cx, cy): unchanged when the coordinate is
      skipped, otherwise its three bytes written at `3 * matrix_map[cy][cx]`
      (lines 79-81). */
  function Paint(buf: seq<int>, j: Job, cx: int, cy: int): (r: seq<int>)
    requires ValidJob(j) && |buf| == j.led.BufByteCount()
    ensures |r| == |buf|
  {
    if Painted(j, cx, cy) then
      var p := MapAt(j, cx, cy);
      buf[3 * p := OutByte(j, cx, cy, 0)][3 * p + 1 := OutByte(j, cx, cy, 1)][3 * p + 2 := OutByte(j, cx, cy, 2)]
    else buf
  }

  /** Visiting (cx, cy) moves the cursor one step along the inner loop. */
  lemma RenderStep(buf: seq<int>, j: Job, cx: int, cy: int)
    requires ValidJob(j) && RenderedUpTo(buf, j, cx, cy)
    ensures RenderedUpTo(Paint(buf, j, cx, cy), j, cx, cy + 1)
  {
    StepKeepsBackground(buf, j, cx, cy);
    StepKeepsLastWriters(buf, j, cx, cy);
  }

  /** After visiting (cx, cy), the LEDs still unwritten hold the fill. */
  lemma StepKeepsBackground(buf: seq<int>, j: Job, cx: int, cy: int)
    requires ValidJob(j) && RenderedUpTo(buf, j, cx, cy)
    ensures forall p, c :: 0 <= p < j.led.numLEDs && 0 <= c < 3 && Unwritten(j, cx, cy + 1, p) ==>
              ByteAt(Paint(buf, j, cx, cy), p, c) == BgByte(j, c)
  {
    var buf' := Paint(buf, j, cx, cy);
    forall p, c | 0 <= p < j.led.numLEDs && 0 <= c < 3 && Unwritten(j, cx, cy + 1, p)
      ensures ByteAt(buf', p, c) == BgByte(j, c)
    {
      assert Unwritten(j, cx, cy, p);
      if Painted(j, cx, cy) {
        assert Done(j, cx, cy + 1, cx, cy);
        assert p != MapAt(j, cx, cy);
      }
    }
  }

  /** After visiting (cx, cy), every LED holds the bytes of its last writer
      so far: (cx, cy) itself for its own LED, an earlier coordinate for the
      others. */
  lemma StepKeepsLastWriters(buf: seq<int>, j: Job, cx: int, cy: int)
    requires ValidJob(j) && RenderedUpTo(buf, j, cx, cy)
    ensures forall x, y, c :: Done(j, cx, cy + 1, x, y) && 0 <= c < 3 && LastWriter(j, cx, cy + 1, x, y) ==>
              ByteAt(Paint(buf, j, cx, cy), MapAt(j, x, y), c) == OutByte(j, x, y, c)
  {
    var buf' := Paint(buf, j, cx, cy);
    forall x, y, c | Done(j, cx, cy + 1, x, y) && 0 <= c < 3 && LastWriter(j, cx, cy + 1, x, y)
      ensures ByteAt(buf', MapAt(j, x, y), c) == OutByte(j, x, y, c)
    {
      if x != cx || y != cy {
        assert Done(j, cx, cy, x, y);
        assert LastWriter(j, cx, cy, x, y);
        if Painted(j, cx, cy) {
          assert Done(j, cx, cy + 1, cx, cy) && Before(x, y, cx, cy);
          assert MapAt(j, x, y) != MapAt(j, cx, cy);
        }
      }
    }
  }

  /** Two cursors with the same painted coordinates before them describe
      the same buffer state. */
  lemma RenderMove(buf: seq<int>, j: Job, cx: int, cy: int, dx: int, dy: int)
    requires ValidJob(j) && RenderedUpTo(buf, j, cx, cy)
    requires forall x, y :: Done(j, cx, cy, x, y) <==> Done(j, dx, dy, x, y)
    ensures RenderedUpTo(buf, j, dx, dy)
  {
    forall p | 0 <= p < j.led.numLEDs && Unwritten(j, dx, dy, p)
      ensures Unwritten(j, cx, cy, p)
    {
    }
    forall x, y | Done(j, dx, dy, x, y) && LastWriter(j, dx, dy, x, y)
      ensures LastWriter(j, cx, cy, x, y)
    {
    }
  }

  /** The end of the inner loop for column cx is the start of column cx + 1. */
  lemma RenderNextColumn(buf: seq<int>, j: Job, cx: int, cy: int)
    requires ValidJob(j) && RenderedUpTo(buf, j, cx, cy)
    requires cy >= j.oy + Height(j)
    ensures RenderedUpTo(buf, j, cx + 1, j.oy)
  {
    RenderMove(buf, j, cx, cy, cx + 1, j.oy);
  }

  /** The end of the outer loop: the buffer is the composite. */
  lemma RenderFinish(buf: seq<int>, j: Job, cx: int)
    requires ValidJob(j) && RenderedUpTo(buf, j, cx, j.oy)
    requires cx >= EndX(j)
    ensures Composited(buf, j)
  {
    RenderMove(buf, j, cx, j.oy, EndX(j), j.oy);
  }

  /** Among the painted coordinates that map to the same LED as (x, y),
      some one is the last in visiting order. */
  lemma LastWriterExists(j: Job, x: int, y: int) returns (lx: int, ly: int)
    requires ValidJob(j) && Painted(j, x, y)
    ensures Painted(j, lx, ly) && MapAt(j, lx, ly) == MapAt(j, x, y)
    ensures LastWriter(j, EndX(j), j.oy, lx, ly)
    decreases j.ox + Width(j) - x, j.oy + Height(j) - y
  {
    if LastWriter(j, EndX(j), j.oy, x, y) {
      lx, ly := x, y;
    } else {
      var x', y' :| Done(j, EndX(j), j.oy, x', y') && Before(x, y, x', y') && MapAt(j, x', y') == MapAt(j, x, y);
      lx, ly := LastWriterExists(j, x', y');
    }
  }

  /** Every byte of a composite is the background fill of an LED no painted
      coordinate maps to, or the byte of the last painted coordinate that
      maps to its LED. */
  lemma CompositeByte(buf: seq<int>, j: Job, p: int, c: int)
    requires ValidJob(j) && Composited(buf, j)
    requires 0 <= p < j.led.numLEDs && 0 <= c < 3
    ensures (forall x, y :: Painted(j, x, y) ==> MapAt(j, x, y) != p) ==> ByteAt(buf, p, c) == BgByte(j, c)
    ensures !(forall x, y :: Painted(j, x, y) ==> MapAt(j, x, y) != p) ==>
              exists x, y :: Painted(j, x, y) && MapAt(j, x, y) == p && LastWriter(j, EndX(j), j.oy, x, y) &&
                             ByteAt(buf, p, c) == OutByte(j, x, y, c)
  {
    if !Unwritten(j, EndX(j), j.oy, p) {
      var x, y :| Done(j, EndX(j), j.oy, x, y) && MapAt(j, x, y) == p;
      var lx, ly := LastWriterExists(j, x, y);
      assert Done(j, EndX(j), j.oy, lx, ly);
    }
  }

  /** The composite is a function of the job: two buffers that both meet
      the description are equal. */
  lemma CompositeDetermined(b1: seq<int>, b2: seq<int>, j: Job)
    requires ValidJob(j) && Composited(b1, j) && Composited(b2, j)
    ensures b1 == b2
  {
    forall i | 0 <= i < |b1|
      ensures b1[i] == b2[i]
    {
      var p, c := i / 3, i % 3;
      assert 3 * p + c == i;
      assert b1[i] == ByteAt(b1, p, c) && b2[i] == ByteAt(b2, p, c);
      if Unwritten(j, EndX(j), j.oy, p) {
        assert ByteAt(b1, p, c) == BgByte(j, c) == ByteAt(b2, p, c);
      } else {
        var x, y :| Done(j, EndX(j), j.oy, x, y) && MapAt(j, x, y) == p;
        var lx, ly := LastWriterExists(j, x, y);
        assert Done(j, EndX(j), j.oy, lx, ly);
        assert ByteAt(b1, p, c) == OutByte(j, lx, ly, c) == ByteAt(b2, p, c);
      }
    }
  }

  /** Line 53: the composite has `bufByteCount` entries whatever the image
      size and offset, and every entry is 0 or a value of the gamma table. */
  lemma CompositeBytes(buf: seq<int>, j: Job, i: int)
    requires ValidJob(j) && Composited(buf, j) && 0 <= i < |buf|
    ensures |buf| == 3 * j.led.numLEDs
    ensures buf[i] == 0 || buf[i] in j.led.gamma
  {
    var p, c := i / 3, i % 3;
    assert 3 * p + c == i;
    CompositeByte(buf, j, p, c);
  }

  /** When the layout sends no two painted coordinates to the same LED,
      every painted coordinate shows its own sample. */
  lemma DistinctCellsShowTheirSamples(buf: seq<int>, j: Job, x: int, y: int, c: int)
    requires ValidJob(j) && Composited(buf, j)
    requires forall x1, y1, x2, y2 :: Painted(j, x1, y1) && Painted(j, x2, y2) && (x1, y1) != (x2, y2) ==>
               MapAt(j, x1, y1) != MapAt(j, x2, y2)
    requires Painted(j, x, y) && 0 <= c < 3
    ensures ByteAt(buf, MapAt(j, x, y), c) == OutByte(j, x, y, c)
  {
    assert Done(j, EndX(j), j.oy, x, y);
    assert LastWriter(j, EndX(j), j.oy, x, y);
  }

  /** When the layout sends several painted coordinates to one LED, the LED
      shows the one visited last (x outer, y inner) and none before it. */
  lemma SharedCellShowsLastVisited(buf: seq<int>, j: Job, x1: int, y1: int, x2: int, y2: int, c: int)
    requires ValidJob(j) && Composited(buf, j)
    requires Painted(j, x1, y1) && Painted(j, x2, y2) && Before(x1, y1, x2, y2)
    requires MapAt(j, x1, y1) == MapAt(j, x2, y2) && 0 <= c < 3
    requires forall x, y :: Painted(j, x, y) && Before(x2, y2, x, y) ==> MapAt(j, x, y) != MapAt(j, x2, y2)
    ensures ByteAt(buf, MapAt(j, x1, y1), c) == OutByte(j, x2, y2, c)
  {
    assert Done(j, EndX(j), j.oy, x2, y2);
    assert LastWriter(j, EndX(j), j.oy, x2, y2);
  }

  /** A fully transparent sample that is the last to reach its LED leaves
      the background colour there, whatever its own RGB values, scaled a
      second time when the brightness is not 255. */
  lemma TransparentCellShowsBackground(buf: seq<int>, j: Job, x: int, y: int, c: int)
    requires ValidJob(j) && Composited(buf, j)
    requires Painted(j, x, y) && 0 <= c < 3 && Sample(j, x, y).a == 0
    requires LastWriter(j, EndX(j), j.oy, x, y)
    ensures ByteAt(buf, MapAt(j, x, y), c) ==
            if j.bright == 255 then j.led.gamma[j.bg.At(c)] else j.led.gamma[j.scale(j.bg.At(c), j.bright)]
  {
    assert Done(j, EndX(j), j.oy, x, y);
  }

  /** An image wholly off the matrix, on any side, leaves the whole buffer
      as the background fill. */
  lemma OffsetPastEdgeLeavesBackground(buf: seq<int>, j: Job, i: int)
    requires ValidJob(j) && Composited(buf, j)
    requires OffMatrix(j)
    requires 0 <= i < |buf|
    ensures buf[i] == BgByte(j, i % 3)
  {
    var p, c := i / 3, i % 3;
    assert 3 * p + c == i;
    assert Unwritten(j, EndX(j), j.oy, p);
  }
}
