/** The `ImageAnim` animation (BiblioPixelAnimations/matrix/ImageAnim.py):
    construction from the decoded frames of an animated GIF, which renders
    every frame into an LED buffer once, and the playback cursor that the
    animation host drives through `preRun` and `step`. */
module Anim {
  import opened Types
  import opened Pixel
  import opened Compositor
  import opened Construction
  import opened Playback

  class ImageAnim {
    /** The LED matrix (`self._led`). */
    const led: Led
    /** The colour library's `color_scale`. */
    const colorScale: ColorScale
    /** `_bright`: the resolved brightness. */
    const bright: int
    /** `_bgcolor`: the background colour, scaled once by `_bright`. */
    const bgcolor: Color
    /** `_offset`: where the top-left corner of every frame is placed. */
    const offset: (int, int)

    /** `_images`: one (duration, buffer) pair per frame, in frame order. */
    var images: seq<RenderedFrame>
    /** `_count`. */
    var count: nat
    /** `_curImage`: the frame the next step shows. */
    var curImage: nat
    /** `_internalDelay`: the duration of the frame last shown. */
    var internalDelay: Option<int>
    /** `animComplete`: one full pass over the frames has finished. */
    var animComplete: bool
    /** `_step`, the host's step counter, reset by every step. */
    var stepCounter: int

    ghost predicate Valid()
      reads this
    {
      && ValidLed(led) && ScaleInRange(colorScale) && ValidColor(bgcolor) && IsByte(bright)
      && count == |images| && 0 < count && curImage < count
      && (forall k :: 0 <= k < |images| ==> |images[k].buffer| == led.BufByteCount())
    }

    /** What rendering `img` at offset `off` reads of this animation. */
    function JobFor(img: Frame, off: (int, int)): Job
    {
      Job(led, bgcolor, bright, colorScale, img, off.0, off.1)
    }

    /** Lines 98-124 and 142, the GIF branch: resolve the brightness, scale
        the background once, fix the offset from the first frame when none
        is given, and render every frame with that one offset. */
    constructor (led: Led, frames: seq<Frame>, offset: (int, int), bgcolor: Color, brightness: int,
                 colorScale: ColorScale)
      requires ValidLed(led) && ScaleInRange(colorScale) && ValidColor(bgcolor)
      requires IsByte(brightness) && IsByte(led.masterBrightness)
      requires |frames| > 0 && forall k :: 0 <= k < |frames| ==> ValidFrame(frames[k])
      ensures Valid()
      ensures this.led == led && this.colorScale == colorScale
      ensures bright == ResolveBrightness(brightness, led.masterBrightness)
      ensures this.bgcolor == ScaleColor(colorScale, bgcolor, bright)
      ensures this.offset == ChooseOffset(offset, led.width, led.height, frames[0])
      ensures count == |frames|
      ensures forall k :: 0 <= k < |frames| ==>
                images[k].duration == frames[k].duration && Composited(images[k].buffer, JobFor(frames[k], this.offset))
      ensures curImage == 0 && !animComplete && internalDelay == None
    {
      this.led := led;
      this.colorScale := colorScale;
      var b := ResolveBrightness(brightness, led.masterBrightness);
      this.bright := b;
      this.bgcolor := ScaleColor(colorScale, bgcolor, b);
      this.offset := ChooseOffset(offset, led.width, led.height, frames[0]);
      images := [];
      count := 0;
      curImage := 0;
      internalDelay := None;
      animComplete := false;
      stepCounter := 0;
      new;
      for k := 0 to |frames|
        invariant count == k == |images|
        invariant curImage == 0 && !animComplete && internalDelay == None
        invariant forall i :: 0 <= i < k ==>
                    images[i].duration == frames[i].duration && Composited(images[i].buffer, JobFor(frames[i], this.offset))
      {
        var duration, buffer := GetBufferFromImage(frames[k], this.offset);
        images := images + [RenderedFrame(duration, buffer)];
        count := count + 1;
      }
    }

    /** Lines 37-83: render one frame into a fresh LED buffer. */
    method GetBufferFromImage(img: Frame, off: (int, int)) returns (duration: Option<int>, buffer: seq<int>)
      requires ValidJob(JobFor(img, off))
      ensures duration == img.duration
      ensures Composited(buffer, JobFor(img, off))
    {
      duration := img.duration;

      var w := led.width - off.0;
      if img.width < w {
        w := img.width;
      }
      var h := led.height - off.1;
      if img.height < h {
        h := img.height;
      }
      var ox, oy := off.0, off.1;

      var buf := NewBackgroundBuffer();
      ghost var j := JobFor(img, off);
      assert w == Width(j) && h == Height(j);
      RenderStart(buf[..], j);
      var x := ox;
      while x < w + ox
        invariant ox <= x
        invariant RenderedUpTo(buf[..], j, x, oy)
      {
        PaintColumn(buf, img, off, x);
        x := x + 1;
      }
      RenderFinish(buf[..], j, x);
      buffer := buf[..];
    }

    /** Lines 53-59: a buffer of `bufByteCount` zeros, and, unless the
        scaled background is (0, 0, 0), the gamma-corrected background in
        the three bytes of every LED. */
    method NewBackgroundBuffer() returns (buf: array<int>)
      requires ValidLed(led) && ValidColor(bgcolor)
      ensures fresh(buf) && buf.Length == led.BufByteCount()
      ensures forall k :: 0 <= k < buf.Length ==> buf[k] == if bgcolor == Off then 0 else led.gamma[bgcolor.At(k % 3)]
    {
      buf := new int[led.BufByteCount()](_ => 0);
      var gamma := led.gamma;
      if bgcolor != Off {
        for i := 0 to led.numLEDs
          invariant forall k :: 0 <= k < 3 * i ==> buf[k] == gamma[bgcolor.At(k % 3)]
          invariant forall k :: 3 * i <= k < buf.Length ==> buf[k] == 0
        {
          buf[i * 3 + 0] := gamma[bgcolor.r];
          buf[i * 3 + 1] := gamma[bgcolor.g];
          buf[i * 3 + 2] := gamma[bgcolor.b];
        }
      }
    }

    /** Lines 65-81, the inner loop: visit column x from top to bottom. */
    method PaintColumn(buf: array<int>, img: Frame, off: (int, int), x: int)
      requires ValidJob(JobFor(img, off)) && RenderedUpTo(buf[..], JobFor(img, off), x, off.1)
      requires off.0 <= x < off.0 + Width(JobFor(img, off))
      modifies buf
      ensures RenderedUpTo(buf[..], JobFor(img, off), x + 1, off.1)
    {
      ghost var j := JobFor(img, off);
      var h := led.height - off.1;
      if img.height < h {
        h := img.height;
      }
      var oy := off.1;
      var y := oy;
      while y < h + oy
        invariant oy <= y
        invariant RenderedUpTo(buf[..], j, x, y)
      {
        ghost var before := buf[..];
        PaintAt(buf, img, off, x, y);
        RenderStep(before, j, x, y);
        y := y + 1;
      }
      RenderNextColumn(buf[..], j, x, y);
    }

    /** Lines 66-81, one iteration of the inner loop: skip a coordinate
        left of or above the origin, otherwise write the three bytes of its
        sample at `3 * matrix_map[y][x]`. */
    method PaintAt(buf: array<int>, img: Frame, off: (int, int), x: int, y: int)
      requires ValidJob(JobFor(img, off)) && buf.Length == led.BufByteCount()
      requires off.0 <= x < off.0 + Width(JobFor(img, off)) && off.1 <= y < off.1 + Height(JobFor(img, off))
      modifies buf
      ensures buf[..] == Paint(old(buf[..]), JobFor(img, off), x, y)
    {
      if x < 0 || y < 0 {
        return;
      }
      var pixel := led.matrixMap[y][x];
      var s := img.pixels[y - off.1][x - off.0];
      var r, g, b := s.r, s.g, s.b;
      if s.a == 0 {
        r, g, b := bgcolor.r, bgcolor.g, bgcolor.b;
      } else {
        r, g, b := Premultiply(r, s.a), Premultiply(g, s.a), Premultiply(b, s.a);
      }
      if bright != 255 {
        r, g, b := colorScale(r, bright), colorScale(g, bright), colorScale(b, bright);
      }
      var gamma := led.gamma;
      buf[pixel * 3 + 0] := gamma[r];
      buf[pixel * 3 + 1] := gamma[g];
      buf[pixel * 3 + 2] := gamma[b];
    }

    /** Lines 144-145: rewind to the first frame. */
    method PreRun()
      requires Valid()
      modifies this`curImage
      ensures Valid() && curImage == 0
    {
      curImage := 0;
    }

    /** Lines 147-158: show the current frame (its buffer is returned in
        place of being handed to the display) with its duration as the
        delay, and advance the cursor. */
    method Step() returns (shown: seq<int>)
      requires Valid()
      modifies this`curImage, this`internalDelay, this`animComplete, this`stepCounter
      ensures Valid()
      ensures shown == images[old(curImage)].buffer && |shown| == led.BufByteCount()
      ensures internalDelay == images[old(curImage)].duration
      ensures Cursor(curImage, animComplete) == Advance(Cursor(old(curImage), old(animComplete)), count)
      ensures stepCounter == 0
    {
      shown := images[curImage].buffer;
      internalDelay := images[curImage].duration;

      curImage := curImage + 1;
      if curImage >= count {
        curImage := 0;
        animComplete := true;
      }

      stepCounter := 0;
    }
  }
}
