/** Transformation (Algorithms/Transformation.cs): the fixed-point colour
    transform between RGB and Y/Cb/Cr, every result clamped to a byte. */
module Transformation {
  import opened Common
  import opened Vectors

  /** The forward formulas before clamping, with C#'s arithmetic `>> 8`. */
  function LumaOf(c0: int, c1: int, c2: int): int
  {
    ShiftRight(77 * c0 + 150 * c1 + 29 * c2, 8)
  }

  function BlueDifferenceOf(c0: int, c1: int, c2: int): int
  {
    ShiftRight(-43 * c0 - 85 * c1 + 128 * c2, 8) + 128
  }

  function RedDifferenceOf(c0: int, c1: int, c2: int): int
  {
    ShiftRight(128 * c0 - 107 * c1 - 21 * c2, 8) + 128
  }

  /** The inverse formulas before clamping, with C#'s truncating `/`. */
  function RedOf(y: int, cb: int, cr: int): int
  {
    y + TruncDiv((cr - 128) * 256, 183)
  }

  function GreenOf(y: int, cb: int, cr: int): int
  {
    y - TruncDiv(5329 * (cb - 128) + 11103 * (cr - 128), 15481)
  }

  function BlueOf(y: int, cb: int, cr: int): int
  {
    y + TruncDiv((cb - 128) * 256, 144)
  }

  /** `VectorRGBToYCbCr`. */
  function VectorRGBToYCbCr(c: Color): (r: Color)
    ensures r.At(0) == Clamp(LumaOf(c.At(0), c.At(1), c.At(2)), 0, 255)
    ensures r.At(1) == Clamp(BlueDifferenceOf(c.At(0), c.At(1), c.At(2)), 0, 255)
    ensures r.At(2) == Clamp(RedDifferenceOf(c.At(0), c.At(1), c.At(2)), 0, 255)
  {
    var c0, c1, c2 := c.At(0), c.At(1), c.At(2);
    Rgb(Clamp(LumaOf(c0, c1, c2), 0, 255),
        Clamp(BlueDifferenceOf(c0, c1, c2), 0, 255),
        Clamp(RedDifferenceOf(c0, c1, c2), 0, 255))
  }

  /** `VectorYCbCrToRGB`. */
  function VectorYCbCrToRGB(c: Color): (r: Color)
    ensures r.At(0) == Clamp(RedOf(c.At(0), c.At(1), c.At(2)), 0, 255)
    ensures r.At(1) == Clamp(GreenOf(c.At(0), c.At(1), c.At(2)), 0, 255)
    ensures r.At(2) == Clamp(BlueOf(c.At(0), c.At(1), c.At(2)), 0, 255)
  {
    var y, cb, cr := c.At(0), c.At(1), c.At(2);
    Rgb(Clamp(RedOf(y, cb, cr), 0, 255),
        Clamp(GreenOf(y, cb, cr), 0, 255),
        Clamp(BlueOf(y, cb, cr), 0, 255))
  }

  /** For byte inputs every forward formula already lies in [0, 255], so the
      forward clamps never bind. */
  lemma ForwardWithinBytes(c0: byte, c1: byte, c2: byte)
    ensures 0 <= LumaOf(c0, c1, c2) <= 255
    ensures 0 <= BlueDifferenceOf(c0, c1, c2) <= 255
    ensures 0 <= RedDifferenceOf(c0, c1, c2) <= 255
  {
    DivBounds(77 * c0 + 150 * c1 + 29 * c2, 0, 65280);
    DivBounds(-43 * c0 - 85 * c1 + 128 * c2, -32640, 32640);
    DivBounds(128 * c0 - 107 * c1 - 21 * c2, -32640, 32640);
  }

  lemma DivBounds(s: int, lo: int, hi: int)
    requires lo <= s <= hi
    ensures lo / 256 <= ShiftRight(s, 8) <= hi / 256
  {
    assert Pow2(8) == 256;
  }

  /** The forward transform therefore equals the unclamped formulas. */
  lemma ForwardUnclamped(c: Color)
    ensures VectorRGBToYCbCr(c).At(0) == LumaOf(c.At(0), c.At(1), c.At(2))
    ensures VectorRGBToYCbCr(c).At(1) == BlueDifferenceOf(c.At(0), c.At(1), c.At(2))
    ensures VectorRGBToYCbCr(c).At(2) == RedDifferenceOf(c.At(0), c.At(1), c.At(2))
  {
    ForwardWithinBytes(c.At(0), c.At(1), c.At(2));
  }

  /** A gray pixel (v, v, v) maps to (v, 128, 128), and (y, 128, 128) maps back
      to (y, y, y): gray pixels round-trip exactly. */
  lemma GrayRoundTrip(v: byte)
    ensures VectorRGBToYCbCr(Rgb(v, v, v)) == Rgb(v, 128, 128)
    ensures VectorYCbCrToRGB(Rgb(v, 128, 128)) == Rgb(v, v, v)
    ensures VectorYCbCrToRGB(VectorRGBToYCbCr(Rgb(v, v, v))) == Rgb(v, v, v)
  {
    assert Pow2(8) == 256;
    assert LumaOf(v, v, v) == v;
    assert BlueDifferenceOf(v, v, v) == 128;
    assert RedDifferenceOf(v, v, v) == 128;
  }

  /** `RGBToYCbCr(colors)`: the forward transform of every colour, in order. */
  function RGBToYCbCr(colors: seq<Color>): (r: seq<Color>)
    ensures |r| == |colors|
    ensures forall i :: 0 <= i < |colors| ==> r[i] == VectorRGBToYCbCr(colors[i])
  {
    seq(|colors|, i requires 0 <= i < |colors| => VectorRGBToYCbCr(colors[i]))
  }

  /** `YCbCrToRGB(colors)`: the inverse transform of every colour, in order. */
  function YCbCrToRGB(colors: seq<Color>): (r: seq<Color>)
    ensures |r| == |colors|
    ensures forall i :: 0 <= i < |colors| ==> r[i] == VectorYCbCrToRGB(colors[i])
  {
    seq(|colors|, i requires 0 <= i < |colors| => VectorYCbCrToRGB(colors[i]))
  }

  /** The array versions round-trip gray images exactly. */
  lemma {:induction false} GrayImagesRoundTrip(colors: seq<Color>)
    requires forall i :: 0 <= i < |colors| ==> colors[i].At(0) == colors[i].At(1) == colors[i].At(2)
    ensures YCbCrToRGB(RGBToYCbCr(colors)) == colors
  {
    forall i | 0 <= i < |colors|
      ensures YCbCrToRGB(RGBToYCbCr(colors))[i] == colors[i]
    {
      var v := colors[i].At(0);
      assert colors[i] == Rgb(v, v, v) by {
        assert colors[i].elements == [v, v, v];
      }
      GrayRoundTrip(v);
    }
  }
}
