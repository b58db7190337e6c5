/** Concrete compositions worked out from the general description of the
    composite. */
module Scenarios {
  import opened Types
  import opened Pixel
  import opened Compositor

  /** A 2x2 matrix wired row by row. */
  function Grid2x2(gamma: seq<int>, master: int): Led
  {
    Led(2, 2, 4, [[0, 1], [2, 3]], gamma, master)
  }

  /** One fully transparent pixel at the origin of a 2x2 matrix, scaled
      background (10, 20, 30), brightness 255: all four LEDs show the gamma-corrected
      background, the covered one and the three uncovered ones alike. */
  lemma TransparentPixelOnGrid(buf: seq<int>, gamma: seq<int>, scale: ColorScale)
    requires |gamma| == 256 && ScaleInRange(scale)
    requires Composited(buf, Job(Grid2x2(gamma, 255), Color(10, 20, 30), 255, scale,
                                 Frame(1, 1, [[Rgba(0, 0, 0, 0)]], None), 0, 0))
    ensures buf == [gamma[10], gamma[20], gamma[30], gamma[10], gamma[20], gamma[30],
                    gamma[10], gamma[20], gamma[30], gamma[10], gamma[20], gamma[30]]
  {
    var j := Job(Grid2x2(gamma, 255), Color(10, 20, 30), 255, scale, Frame(1, 1, [[Rgba(0, 0, 0, 0)]], None), 0, 0);
    assert ValidJob(j);
    assert Painted(j, 0, 0);
    forall x, y | Painted(j, x, y) ensures x == 0 && y == 0 { }
    assert LastWriter(j, EndX(j), j.oy, 0, 0);
    forall i | 0 <= i < |buf| ensures buf[i] == gamma[j.bg.At(i % 3)] {
      var p, c := i / 3, i % 3;
      assert 3 * p + c == i;
      if p == 0 {
        assert Done(j, EndX(j), j.oy, 0, 0);
      } else {
        assert Unwritten(j, EndX(j), j.oy, p);
      }
      assert buf[i] == ByteAt(buf, p, c);
    }
  }

  /** One opaque white pixel on a 1x1 matrix at brightness 128: the shift
      leaves 254 per channel, so the LED shows `gamma[color_scale(254, 128)]`
      in all three bytes, whatever the background. */
  lemma WhitePixelAtHalfBrightness(buf: seq<int>, gamma: seq<int>, scale: ColorScale, bg: Color)
    requires |gamma| == 256 && ScaleInRange(scale) && ValidColor(bg)
    requires Composited(buf, Job(Led(1, 1, 1, [[0]], gamma, 255), bg, 128, scale,
                                 Frame(1, 1, [[Rgba(255, 255, 255, 255)]], None), 0, 0))
    ensures buf == [gamma[scale(254, 128)], gamma[scale(254, 128)], gamma[scale(254, 128)]]
  {
    var j := Job(Led(1, 1, 1, [[0]], gamma, 255), bg, 128, scale, Frame(1, 1, [[Rgba(255, 255, 255, 255)]], None), 0, 0);
    assert ValidJob(j);
    assert Painted(j, 0, 0);
    forall x, y | Painted(j, x, y) ensures x == 0 && y == 0 { }
    assert LastWriter(j, EndX(j), j.oy, 0, 0);
    assert Done(j, EndX(j), j.oy, 0, 0);
    forall c | 0 <= c < 3 ensures buf[c] == gamma[scale(254, 128)] {
      assert ByteAt(buf, 0, c) == OutByte(j, 0, 0, c);
      assert ChannelValue(Rgba(255, 255, 255, 255), bg, 128, scale, c) == scale(254, 128);
    }
  }
}
