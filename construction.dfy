/** The parameter logic of `ImageAnim.__init__`
    (BiblioPixelAnimations/matrix/ImageAnim.py, lines 100-131): the
    brightness fallback, the auto-centring offset and the empty-folder error. */
module Construction {
  import opened Types
  import opened Compositor

  /** Lines 100-102: a brightness of 255 gives way to the master
      brightness. */
  function ResolveBrightness(brightness: int, master: int): (r: int)
    ensures brightness != 255 ==> r == brightness
    ensures brightness == 255 ==> r == master
  {
    if brightness == 255 && master != 255 then master else brightness
  }

  /** Lines 115-118, for one axis: half the spare room, rounded down
      (Python 2 integer `/` on non-negative operands), or 0 when the image
      is at least as large as the matrix. */
  function CenterAxis(ledSize: int, imgSize: int): (o: int)
    ensures 0 <= o
    ensures imgSize < ledSize ==> o + imgSize + o <= ledSize <= o + imgSize + o + 1
    ensures imgSize >= ledSize ==> o == 0
  {
    if imgSize < ledSize then (ledSize - imgSize) / 2 else 0
  }

  /** Lines 112-119: the offset used when the caller passes (0, 0), taken
      from the size of the first image. */
  function CenterOffset(ledWidth: int, ledHeight: int, imgWidth: int, imgHeight: int): (int, int)
  {
    (CenterAxis(ledWidth, imgWidth), CenterAxis(ledHeight, imgHeight))
  }

  /** Lines 105 and 112-119: the offset the animation keeps, for an offset
      given as a tuple. An explicit tuple (0, 0) cannot be told from the
      default, so it is centred too. */
  function ChooseOffset(offset: (int, int), ledWidth: int, ledHeight: int, first: Frame): (r: (int, int))
    ensures offset != (0, 0) ==> r == offset
    ensures offset == (0, 0) ==> 0 <= r.0 && 0 <= r.1
    ensures offset == (0, 0) && first.width < ledWidth ==> r.0 + first.width + r.0 <= ledWidth <= r.0 + first.width + r.0 + 1
    ensures offset == (0, 0) && first.width >= ledWidth ==> r.0 == 0
    ensures offset == (0, 0) && first.height < ledHeight ==> r.1 + first.height + r.1 <= ledHeight <= r.1 + first.height + r.1 + 1
    ensures offset == (0, 0) && first.height >= ledHeight ==> r.1 == 0
  {
    if offset == (0, 0) then CenterOffset(ledWidth, ledHeight, first.width, first.height) else offset
  }

  /** A frame smaller than the matrix on both axes, placed at the centring
      offset, is painted in full: exactly the coordinates of its own
      footprint are painted, and all of them lie on the matrix. */
  lemma CenteredFrameIsPaintedInFull(j: Job, x: int, y: int)
    requires j.img.width < j.led.width && j.img.height < j.led.height
    requires 0 <= j.img.width && 0 <= j.img.height
    requires (j.ox, j.oy) == CenterOffset(j.led.width, j.led.height, j.img.width, j.img.height)
    ensures Painted(j, x, y) <==> j.ox <= x < j.ox + j.img.width && j.oy <= y < j.oy + j.img.height
    ensures Width(j) == j.img.width && Height(j) == j.img.height
    ensures Painted(j, x, y) ==> x < j.led.width && y < j.led.height
  {
    var cx := CenterAxis(j.led.width, j.img.width);
    var cy := CenterAxis(j.led.height, j.img.height);
    assert j.ox == cx && j.oy == cy;
  }

  /** Lines 126-131, the folder branch: an empty image list is an error,
      otherwise the count is the number of images. */
  function CheckImageList(imageList: seq<string>): (r: Result<nat, string>)
    ensures r.Failure? <==> |imageList| == 0
    ensures r.Success? ==> r.value == |imageList| && r.value > 0
  {
    if |imageList| == 0 then Failure("No images found!") else Success(|imageList|)
  }
}
