/** ScreenshotHelper.GetColorAt: one screen read per requested point, each
    Win32 COLORREF (0x00BBGGRR) unpacked into an opaque colour.  The screen
    itself (GetDesktopWindow/GetWindowDC/GetPixel/ReleaseDC) is an oracle
    from a point to the 32-bit value GetPixel returns. */
module Pixels {
  import opened Colors

  /** System.Drawing.Point. */
  datatype Point = Point(x: int, y: int)

  /** The unsigned 32-bit value GetPixel returns. */
  type ColorRef = x: int | 0 <= x < 0x1_0000_0000

  /** The value GetPixel returns for a failed read (CLR_INVALID). */
  const ClrInvalid: ColorRef := 0xFFFF_FFFF

  /** Byte k (0 = least significant) of a COLORREF: (pixel >> 8k) & 0xFF.
      The source first casts the value to a signed int; an arithmetic shift
      by at most 16 followed by the 0xFF mask reads the same bits, so the
      cast makes no difference to the three bytes used. */
  function ByteOf(pixel: ColorRef, k: nat): (v: Byte)
    requires k < 4
  {
    var shifted := if k == 0 then pixel else if k == 1 then pixel / 0x100
                   else if k == 2 then pixel / 0x1_0000 else pixel / 0x100_0000;
    shifted % 0x100
  }

  /** The unpacking done for each point: red from bits 0-7, green from bits
      8-15, blue from bits 16-23, alpha fixed at 255; the top byte is dropped. */
  function DecodeColorRef(pixel: ColorRef): (c: Color)
    ensures c.a == 255
  {
    FromArgb(255, ByteOf(pixel, 0), ByteOf(pixel, 1), ByteOf(pixel, 2))
  }

  /** The COLORREF a pixel of colour c carries (the RGB macro), with an
      arbitrary top byte. */
  function EncodeColorRef(c: Color, top: Byte): (pixel: ColorRef)
  {
    top * 0x100_0000 + c.b * 0x1_0000 + c.g * 0x100 + c.r
  }

  /** Decoding inverts encoding on the colour channels, whatever the top byte;
      the alpha channel always comes back as 255. */
  lemma DecodeEncode(c: Color, top: Byte)
    ensures DecodeColorRef(EncodeColorRef(c, top)) == c.(a := 255)
  {
    var p := EncodeColorRef(c, top);
    assert p / 0x100 == top * 0x1_0000 + c.b * 0x100 + c.g;
    assert p / 0x1_0000 == top * 0x100 + c.b;
  }

  /** Decoding loses exactly the top byte: re-encoding the decoded colour
      with the original top byte gives back the original value. */
  lemma EncodeDecode(pixel: ColorRef)
    ensures EncodeColorRef(DecodeColorRef(pixel), ByteOf(pixel, 3)) == pixel
  {
    var q1, q2, q3 := pixel / 0x100, pixel / 0x1_0000, pixel / 0x100_0000;
    assert q2 == q1 / 0x100;
    assert q3 == q2 / 0x100;
    assert pixel == q1 * 0x100 + pixel % 0x100;
    assert q1 == q2 * 0x100 + q1 % 0x100;
    assert q2 == q3 * 0x100 + q2 % 0x100;
  }

  /** A failed read is not an error: it decodes to opaque white. */
  lemma InvalidReadIsWhite()
    ensures DecodeColorRef(ClrInvalid) == FromArgb(255, 255, 255, 255)
  {
  }

  /** The colours a call returns, in point order. */
  function Sampled(points: seq<Point>, screen: Point -> ColorRef): (colors: seq<Color>)
  {
    if points == [] then []
    else Sampled(points[..|points| - 1], screen) + [DecodeColorRef(screen(points[|points| - 1]))]
  }

  /** One colour per point. */
  lemma {:induction false} SampledLength(points: seq<Point>, screen: Point -> ColorRef)
    ensures |Sampled(points, screen)| == |points|
  {
    if points != [] {
      SampledLength(points[..|points| - 1], screen);
    }
  }

  /** The i-th colour is the decoded read of the i-th point. */
  lemma {:induction false} SampledAt(points: seq<Point>, screen: Point -> ColorRef, i: nat)
    requires i < |points|
    ensures |Sampled(points, screen)| == |points|
    ensures Sampled(points, screen)[i] == DecodeColorRef(screen(points[i]))
  {
    var n := |points| - 1;
    SampledLength(points, screen);
    SampledLength(points[..n], screen);
    if i < n {
      SampledAt(points[..n], screen, i);
    }
  }

  /** The static colour buffer of ScreenshotHelper. */
  class ScreenshotHelper {
    var colors: seq<Color>

    constructor ()
      ensures colors == []
    {
      colors := [];
    }

    /** GetColorAt: clear the shared buffer, append one decoded read per
        point, return a copy.  Nothing left in the buffer by an earlier call
        reaches the result. */
    method GetColorAt(points: seq<Point>, screen: Point -> ColorRef) returns (result: seq<Color>)
      modifies this
      ensures result == Sampled(points, screen)
      ensures colors == result
    {
      colors := [];
      var i := 0;
      while i < |points|
        invariant 0 <= i <= |points|
        invariant colors == Sampled(points[..i], screen)
      {
        assert points[..i + 1][..i] == points[..i];
        colors := colors + [DecodeColorRef(screen(points[i]))];
        i := i + 1;
      }
      assert points[..i] == points;
      result := colors;
    }
  }
}
