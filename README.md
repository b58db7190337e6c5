# ImageAnim: image frames to LED buffers, in Dafny

This project models the image animation of BiblioPixelAnimations
(`BiblioPixelAnimations/matrix/ImageAnim.py`). The animation turns the
decoded frames of an animated GIF into LED buffers, once, when it is built.
It then plays those buffers back, one per step. The model has three parts:

- **The frame compositor** `_getBufferFromImage`. It clamps the overlap of
  the image and the matrix, using an offset that may be negative. It fills
  the buffer with the gamma-corrected background colour, or leaves it at
  literal 0 when the scaled background is (0, 0, 0). It skips coordinates
  left of or above the origin. Each sample is premultiplied by its alpha with
  `>> 8`. A fully transparent sample takes the background colour instead.
  When the brightness is not 255, the result goes through `color_scale`. Each
  channel is then looked up in the gamma table, and the three bytes are
  written at `3 * matrix_map[y][x]`. The loop runs x outer, y inner.
- **Construction** (`__init__`, GIF branch). A brightness of 255 falls back
  to the master brightness. The background colour is scaled once. An offset
  of (0, 0) is replaced by a centring offset, computed with floor division
  from the first frame. Every frame is rendered with that same offset, and
  one (duration, buffer) pair is kept per frame.
- **Playback** (`preRun`, `step`). A cursor runs over the pre-rendered
  frames. It wraps to 0 on reaching the frame count, and the completion flag
  is raised on exactly that step.

Modules, one file each:

- `Types` (`types.dfy`): colours, RGBA samples, frames, the LED matrix, and
  the abstract `color_scale`.
- `Pixel` (`pixel.dfy`): the per-pixel colour formula.
- `Compositor` (`compositor.dfy`): a pointwise description of the buffer the
  compositor returns, and the facts proved about it.
- `Construction` (`construction.dfy`): brightness fallback, centring offset,
  and the empty-folder error.
- `Playback` (`playback.dfy`): the cursor as a state machine.
- `Anim` (`image_anim.dfy`): the class `ImageAnim`, with the compositor
  loops over an `array<int>`, the constructor, `PreRun` and `Step`.
- `Scenarios` (`scenarios.dfy`): two concrete compositions.

What the composite is. `Compositor.Composited(buf, job)` says three things:

- `buf` has `3 * numLEDs` entries.
- Every LED that no painted coordinate maps to holds the background fill.
- Every painted coordinate that is the last one in x-outer, y-inner order to
  map to its LED has its three bytes there.

`CompositeDetermined` proves that this fixes the buffer uniquely.
`GetBufferFromImage` is proved to return such a buffer, through loop
invariants that describe the buffer after each visited coordinate.

The external collaborators are parameters:

- The gamma table is a `seq<int>` of 256 entries.
- `matrix_map` is rows of LED indices below `numLEDs`.
- `bufByteCount` is `3 * numLEDs`.
- `color_scale` is a per-channel function that is assumed to map a channel
  value in 0..255 into 0..255 at every brightness level in 0..255. The
  brightness and the master brightness are taken to lie in 0..255.
- Decoded frames are given as a width, a height, rows of RGBA samples, and
  an optional duration.

The model follows the code as written, including where it may surprise:

- The outer loop runs over x and the inner one over y, so the columns are
  visited one after another.
- A transparent sample inside the overlap takes the already-scaled
  background colour. When the brightness is not 255, it is scaled a second
  time.
- A zero-width or zero-height frame raises no error. It paints nothing.
- At full alpha, `(v * 255) >> 8` is `v - 1` for every non-zero `v`. So at
  brightness 255 every non-zero channel of an opaque sample is lowered by
  one before the gamma lookup (`Pixel.OpaqueChannelLoweredByOne`).
- `preRun` only rewinds the cursor. It does not lower the completion flag,
  and `step` never lowers it either.

## Model

| member | source | states |
|---|---|---|
| `Types.ScaleColor` | BiblioPixelAnimations/matrix/ImageAnim.py:104 | scaling a colour applies `color_scale` to each channel and yields a colour |
| `Pixel.Premultiply` | BiblioPixelAnimations/matrix/ImageAnim.py:72-75 | `(v * a) >> 8` is the product divided by 256 and rounded down (the result times 256 is the product rounded down to a multiple of 256), and is at most 254 |
| `Pixel.ChannelValue` | BiblioPixelAnimations/matrix/ImageAnim.py:69-77 | the value that indexes the gamma table is always in 0..255, so the lookups at lines 79-81 are in bounds |
| `Pixel.TransparentShowsBackground` | BiblioPixelAnimations/matrix/ImageAnim.py:70-81 | a sample with alpha 0 writes `gamma[bg]` at brightness 255 and `gamma[color_scale(bg, bright)]` otherwise, and two such samples write the same byte whatever their RGB |
| `Pixel.OpaqueAtFullBrightness` | BiblioPixelAnimations/matrix/ImageAnim.py:72-81 | at brightness 255 a sample with alpha other than 0 writes `gamma[(v * a) >> 8]`, and the index is at most 254 |
| `Pixel.PixelByte` | BiblioPixelAnimations/matrix/ImageAnim.py:69-81 | defines the byte written for one channel of a sample: the gamma-table entry at the channel value |
| `Pixel.OpaqueChannelLoweredByOne` | BiblioPixelAnimations/matrix/ImageAnim.py:72-81 | at brightness 255 an opaque sample indexes the gamma table at `v - 1` for each non-zero channel `v` and at 0 for a zero channel, so every non-zero channel is lowered by one |
| `Compositor.Extent` | BiblioPixelAnimations/matrix/ImageAnim.py:42-48 | the loop extent is at most both the room left on the matrix and the image size, and equals one of them |
| `Compositor.Painted` | BiblioPixelAnimations/matrix/ImageAnim.py:64-67 | defines the painted set: the coordinates the two loops visit that are not left of or above the origin |
| `Compositor.PaintedInBounds` | BiblioPixelAnimations/matrix/ImageAnim.py:42-69 | every painted coordinate is on the matrix, and its sample `(x - ox, y - oy)` is in the image |
| `Compositor.OffsetPastEdgePaintsNothing` | BiblioPixelAnimations/matrix/ImageAnim.py:42-67 | an image wholly off the matrix paints no coordinate: its offset at or beyond the right or bottom edge, or its far side at or before the left or top edge |
| `Compositor.MapAt` | BiblioPixelAnimations/matrix/ImageAnim.py:68 | the LED index of a painted coordinate is below `numLEDs`, so its three bytes lie in the buffer |
| `Compositor.Sample` | BiblioPixelAnimations/matrix/ImageAnim.py:69 | the sample read for a painted coordinate exists and has 8-bit channels |
| `Compositor.OutByte` | BiblioPixelAnimations/matrix/ImageAnim.py:68-81 | defines the byte a painted coordinate writes for a channel: the pixel byte of its sample, with the job's background, brightness and scale |
| `Compositor.BgByte` | BiblioPixelAnimations/matrix/ImageAnim.py:53-59 | defines the fill byte of a channel: literal 0 when the scaled background is (0, 0, 0), otherwise the gamma value of the background channel |
| `Compositor.Paint` | BiblioPixelAnimations/matrix/ImageAnim.py:79-81 | visiting one coordinate keeps the buffer length |
| `Compositor.Composited` | BiblioPixelAnimations/matrix/ImageAnim.py:37-83 | defines the composite: `3 * numLEDs` bytes, every LED that no painted coordinate reaches holds the fill, and every other LED holds the bytes of the last painted coordinate, in x-outer, y-inner order, that reaches it |
| `Compositor.RenderStart` | BiblioPixelAnimations/matrix/ImageAnim.py:53-59 | a buffer of `bufByteCount` background-fill bytes is the state before any coordinate is visited |
| `Compositor.RenderStep` | BiblioPixelAnimations/matrix/ImageAnim.py:64-81 | visiting one coordinate keeps the loop invariant: unwritten LEDs hold the fill, written LEDs hold their last writer's bytes |
| `Compositor.RenderFinish` | BiblioPixelAnimations/matrix/ImageAnim.py:64-83 | when the outer loop ends, the buffer is the composite |
| `Compositor.LastWriterExists` | BiblioPixelAnimations/matrix/ImageAnim.py:64-68 | among the painted coordinates that share an LED, one is visited last |
| `Compositor.CompositeByte` | BiblioPixelAnimations/matrix/ImageAnim.py:53-81 | each byte of the composite is either the fill of an LED no painted coordinate reaches, or the byte of the last painted coordinate that reaches it |
| `Compositor.CompositeDetermined` | BiblioPixelAnimations/matrix/ImageAnim.py:37-83 | the composite is unique: any two buffers meeting its description are equal |
| `Compositor.CompositeBytes` | BiblioPixelAnimations/matrix/ImageAnim.py:53-81 | the composite has `3 * numLEDs` entries, whatever the image size and offset, and every entry is 0 or a gamma-table value |
| `Compositor.DistinctCellsShowTheirSamples` | BiblioPixelAnimations/matrix/ImageAnim.py:64-81 | when no two painted coordinates share an LED, every painted coordinate shows its own sample |
| `Compositor.SharedCellShowsLastVisited` | BiblioPixelAnimations/matrix/ImageAnim.py:64-81 | when coordinates share an LED, the last one in x-outer, y-inner order decides its three bytes |
| `Compositor.TransparentCellShowsBackground` | BiblioPixelAnimations/matrix/ImageAnim.py:70-81 | a transparent sample that is the last to reach its LED leaves the background there, scaled a second time when the brightness is not 255 |
| `Compositor.OffsetPastEdgeLeavesBackground` | BiblioPixelAnimations/matrix/ImageAnim.py:42-67 | with the image wholly off the matrix on any side, every byte is the background fill (0 when the scaled background is (0, 0, 0)) |
| `Construction.ResolveBrightness` | BiblioPixelAnimations/matrix/ImageAnim.py:100-102 | a brightness other than 255 is kept; 255 becomes the master brightness |
| `Construction.CenterAxis` | BiblioPixelAnimations/matrix/ImageAnim.py:113-118 | the centring offset is not negative; for an image smaller than the matrix the right margin is never smaller than the left one and exceeds it by at most one (they are equal when the spare room is even); otherwise it is 0 |
| `Construction.CenterOffset` | BiblioPixelAnimations/matrix/ImageAnim.py:112-119 | defines the centring pair: the centring offset of each axis, width first |
| `Construction.ChooseOffset` | BiblioPixelAnimations/matrix/ImageAnim.py:112-119 | an offset other than (0, 0) is kept; (0, 0) becomes the centring offset of the first frame on both axes |
| `Construction.CenteredFrameIsPaintedInFull` | BiblioPixelAnimations/matrix/ImageAnim.py:112-119 | a frame smaller than the matrix, at the centring offset, is painted exactly over its own footprint, all of it on the matrix |
| `Construction.CheckImageList` | BiblioPixelAnimations/matrix/ImageAnim.py:129-131 | an empty image list is an error, and a non-empty one yields its length as the frame count |
| `Playback.Advance` | BiblioPixelAnimations/matrix/ImageAnim.py:153-156 | a step keeps the cursor below the frame count, wraps it to 0 exactly when it reaches the count, and raises the flag exactly then without ever lowering it |
| `Playback.AdvanceModulo` | BiblioPixelAnimations/matrix/ImageAnim.py:153-156 | a step moves the cursor to the next index modulo the frame count |
| `Playback.Run` | BiblioPixelAnimations/matrix/ImageAnim.py:147-158 | any number of steps keeps the cursor below the frame count |
| `Playback.RunFromStart` | BiblioPixelAnimations/matrix/ImageAnim.py:144-156 | counting from 0, the k-th step after a rewind shows frame k mod count, and after k steps the flag is raised exactly when it already was or k has reached the count |
| `Playback.StepWrapsAtCycleEnd` | BiblioPixelAnimations/matrix/ImageAnim.py:153-156 | the k-th step wraps exactly when k + 1 is a multiple of the frame count |
| `Playback.FirstCompletion` | BiblioPixelAnimations/matrix/ImageAnim.py:153-156 | from a lowered flag, the flag is first raised by step count - 1, the step that wraps |
| `Anim.ImageAnim.constructor` | BiblioPixelAnimations/matrix/ImageAnim.py:98-124 | the brightness is resolved, the background is scaled once, the offset is chosen from the first frame, and one composite and duration are kept per frame, all with that one offset; the frame count equals the number of frames |
| `Anim.ImageAnim.GetBufferFromImage` | BiblioPixelAnimations/matrix/ImageAnim.py:37-83 | returns the frame's duration (None when it has none) and the composite of the frame at the given offset |
| `Anim.ImageAnim.NewBackgroundBuffer` | BiblioPixelAnimations/matrix/ImageAnim.py:53-59 | a fresh buffer of `bufByteCount` bytes: literal 0 when the scaled background is (0, 0, 0), otherwise the gamma-corrected background channel in every LED |
| `Anim.ImageAnim.PaintColumn` | BiblioPixelAnimations/matrix/ImageAnim.py:65-81 | the inner loop over one column moves the loop invariant from that column to the next |
| `Anim.ImageAnim.PaintAt` | BiblioPixelAnimations/matrix/ImageAnim.py:66-81 | one inner iteration skips a coordinate left of or above the origin, and otherwise writes the three bytes of its sample at `3 * matrix_map[y][x]` |
| `Anim.ImageAnim.PreRun` | BiblioPixelAnimations/matrix/ImageAnim.py:144-145 | the cursor returns to the first frame; nothing else changes |
| `Anim.ImageAnim.Step` | BiblioPixelAnimations/matrix/ImageAnim.py:147-158 | shows the current frame's buffer, sets the delay to that frame's duration, advances the cursor and flag as `Playback.Advance` says, and resets the step counter |
| `Scenarios.TransparentPixelOnGrid` | BiblioPixelAnimations/matrix/ImageAnim.py:53-81 | a transparent 1x1 frame on a 2x2 matrix, scaled background (10, 20, 30), brightness 255, leaves all four LEDs at `gamma` of the background |
| `Scenarios.WhitePixelAtHalfBrightness` | BiblioPixelAnimations/matrix/ImageAnim.py:69-81 | an opaque white pixel on a 1x1 matrix at brightness 128 shows `gamma[color_scale(254, 128)]` in all three bytes |

## Left out

- Image decoding with PIL (`Image.open`, `ImageSequence.Iterator`, the conversion to RGBA with `Image.new` and `paste`) is external I/O. Frames are given already decoded, and the GIF's size is taken to be that of its first frame.
- `glob` discovery, sorting of the bitmap list, and logging are filesystem and I/O.
- The per-image code of the bitmap-folder branch (lines 133-140) and `_getBufferFromPath` are left out; only the empty-list error is modelled (`CheckImageList`). That branch fails only with the default tuple offset `(0, 0)`, where line 135 reads `.size` of a path string. With any other offset, including the list `[0, 0]` (which does not compare equal to the tuple `(0, 0)`), lines 134-138 are skipped and line 140 renders each bitmap through `_getBufferFromPath`; that per-image rendering, with the offset it uses, is not modelled.
- `led.all_off` and `led.setBuffer` are hardware actions. `Step` returns the chosen buffer instead. Its unused `amt` parameter is dropped.
- `ImageAnimFolder` is left out. It is a thin wrapper over the external `AnimationQueue` scheduler.
- The `MANIFEST` is static data and is left out.
- The internals of `colors.color_scale` are not visible and are left out. It is an abstract per-channel function assumed to map 0..255 into 0..255 at brightness levels in 0..255. So nothing is said about how brightness scaling rounds, or whether it is monotonic.
- Anim.ImageAnim.constructor: a brightness or master brightness outside 0..255 is not modelled. The constructor requires both in 0..255, and `ValidJob` requires the resolved brightness there. The code does not check them (lines 100-104); with a brightness above 255 the background scaled at line 104 can exceed 255, so the fill's gamma lookups at lines 57-59 can fail, and so can a scaled channel at lines 79-81; and a negative one can give a negative index that reads the gamma table from its end.
- Construction.ChooseOffset: takes the offset as a pair, standing for a Python tuple. An offset given as a list, such as the `[0, 0]` default of the `MANIFEST` (line 207), never equals the tuple `(0, 0)` at line 112, so the GIF branch keeps it and draws the first frame's corner at the matrix origin without centring; the model does not represent list offsets.
- The base animation class is not visible. The constructor assumes it starts with the completion flag lowered, no delay, and a step counter of 0.
- `setup.py` is packaging metadata with a network call, and is left out.
- `matrix_map` is assumed to hold, for every coordinate of the matrix, an LED index below `numLEDs`. A layout with gaps, such as entries that are not indices, would make the Python code fail. That case is not modelled.
- Python integers are unbounded, and so are the model's. `>> 8` is written as division by 256 on non-negative values.
