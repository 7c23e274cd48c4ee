/** Effects (Effects.cs): per-pixel effects over a bitmap's colours, the
    non-clamping colour transform they use, and which effects may be applied
    to which pixel formats. A bitmap's colours are a sequence of three-byte
    vectors, read and written in pixel order. */
module Effects {
  import opened Common
  import opened Vectors
  import T = Transformation
  import Q = Quantization

  /** The effect kinds named by Effects.cs and MainWindow.xaml.cs. */
  datatype EffectType =
    | GrayscaleBad | GrayscaleGood | Y | Cb | Cr | ToYCbCrAndBack
    | MedianCut | QuantizationRgb | QuantizationYCrCb
    | MonochromeBad | MonochromeGood

  /** A WPF pixel format; only Bgr32 matters to the effects. */
  datatype PixelFormat = Bgr32 | OtherFormat(bitsPerPixel: nat)

  /** A colour whose three components are equal. */
  predicate IsGray(c: Color)
  {
    c.At(0) == c.At(1) == c.At(2)
  }

  /** The per-pixel "good" grayscale: `(byte)((77 v0 + 150 v1 + 29 v2) >> 8)`
      in every channel. */
  function GoodGray(c: Color): (r: Color)
    ensures IsGray(r)
    ensures r.At(0) == T.LumaOf(c.At(0), c.At(1), c.At(2))
  {
    T.ForwardWithinBytes(c.At(0), c.At(1), c.At(2));
    var g := WrapByte(T.LumaOf(c.At(0), c.At(1), c.At(2)));
    Rgb(g, g, g)
  }

  /** The per-pixel "bad" grayscale: `(byte)((v0 + v1 + v2) / 3)` in every channel. */
  function BadGray(c: Color): (r: Color)
    ensures IsGray(r)
    ensures 3 * r.At(0) <= c.At(0) + c.At(1) + c.At(2) < 3 * r.At(0) + 3
  {
    var g := WrapByte((c.At(0) + c.At(1) + c.At(2)) / 3);
    Rgb(g, g, g)
  }

  /** `ApplyMonochromeGood` on the bitmap's colours. */
  function ApplyMonochromeGood(colors: seq<Color>): (r: seq<Color>)
    ensures |r| == |colors|
    ensures forall i :: 0 <= i < |colors| ==> r[i] == GoodGray(colors[i])
  {
    seq(|colors|, i requires 0 <= i < |colors| => GoodGray(colors[i]))
  }

  /** `ApplyMonochromeBad` on the bitmap's colours. */
  function ApplyMonochromeBad(colors: seq<Color>): (r: seq<Color>)
    ensures |r| == |colors|
    ensures forall i :: 0 <= i < |colors| ==> r[i] == BadGray(colors[i])
  {
    seq(|colors|, i requires 0 <= i < |colors| => BadGray(colors[i]))
  }

  /** Three equal components keep their value under the weighted sum, since
      77 + 150 + 29 = 256. */
  lemma LumaOfEqual(x: int)
    ensures T.LumaOf(x, x, x) == x
  {
    assert Pow2(8) == 256;
    assert 77 * x + 150 * x + 29 * x == 256 * x;
  }

  /** Three equal components keep their value under the truncated average. */
  lemma AverageOfEqual(x: int)
    ensures (x + x + x) / 3 == x
  {
    assert x + x + x == 3 * x;
  }

  /** A gray pixel is unchanged by both grayscale formulas. */
  lemma GrayPixelFixed(c: Color)
    requires IsGray(c)
    ensures GoodGray(c) == c && BadGray(c) == c
  {
    var v := c.At(0);
    assert c == Rgb(v, v, v);
    LumaOfEqual(v);
    AverageOfEqual(v);
    var good, bad := GoodGray(c), BadGray(c);
    assert good.At(0) == v;
    assert good == Rgb(v, v, v);
    assert bad.At(0) == v by {
      var sum: int := c.At(0) + c.At(1) + c.At(2);
      assert sum / 3 == v;
    }
    assert bad == Rgb(v, v, v);
  }

  /** Both grayscale effects make every image gray and leave a gray image unchanged. */
  lemma {:induction false} GrayscaleFixesGray(colors: seq<Color>)
    ensures forall i :: 0 <= i < |colors| ==> IsGray(ApplyMonochromeGood(colors)[i]) && IsGray(ApplyMonochromeBad(colors)[i])
    ensures (forall i :: 0 <= i < |colors| ==> IsGray(colors[i])) ==>
      ApplyMonochromeGood(colors) == colors && ApplyMonochromeBad(colors) == colors
  {
    if forall i :: 0 <= i < |colors| ==> IsGray(colors[i]) {
      forall i | 0 <= i < |colors|
        ensures ApplyMonochromeGood(colors)[i] == colors[i] && ApplyMonochromeBad(colors)[i] == colors[i]
      {
        GrayPixelFixed(colors[i]);
      }
    }
  }

  /** The forward transform as `TransformRGBToYCbCr` writes it: the
      Transformation.cs formulas with an unchecked cast and no clamp. */
  function WrappingForward(c: Color): (r: Color)
    ensures r == T.VectorRGBToYCbCr(c)
  {
    var c0, c1, c2 := c.At(0), c.At(1), c.At(2);
    T.ForwardUnclamped(c);
    T.ForwardWithinBytes(c0, c1, c2);
    Rgb(WrapByte(T.LumaOf(c0, c1, c2)), WrapByte(T.BlueDifferenceOf(c0, c1, c2)),
        WrapByte(T.RedDifferenceOf(c0, c1, c2)))
  }

  /** `(byte)Math.Max(0, v)`: negative values become 0, values above 255 wrap. */
  function ToByteFloorZero(v: int): (r: byte)
    ensures v <= 0 ==> r == 0
    ensures 0 <= v <= 255 ==> r == v
    ensures v > 255 ==> r == v % 256
  {
    WrapByte(if v < 0 then 0 else v)
  }

  /** The inverse transform as `TransformYCbCrToRGB` writes it. */
  function WrappingInverse(c: Color): (r: Color)
  {
    var y, cb, cr := c.At(0), c.At(1), c.At(2);
    Rgb(ToByteFloorZero(T.RedOf(y, cb, cr)), ToByteFloorZero(T.GreenOf(y, cb, cr)),
        ToByteFloorZero(T.BlueOf(y, cb, cr)))
  }

  /** Where no inverse formula exceeds 255 the wrapping inverse agrees with the
      clamping one of Transformation.cs. */
  lemma WrappingInverseAgreesBelow256(c: Color)
    requires T.RedOf(c.At(0), c.At(1), c.At(2)) <= 255
    requires T.GreenOf(c.At(0), c.At(1), c.At(2)) <= 255
    requires T.BlueOf(c.At(0), c.At(1), c.At(2)) <= 255
    ensures WrappingInverse(c) == T.VectorYCbCrToRGB(c)
  {
  }

  /** Above 255 the two differ: (255, 128, 255) gives red 432, which wraps to
      176 here and is clamped to 255 by Transformation.cs. */
  lemma WrappingInverseWraps()
    ensures WrappingInverse(Rgb(255, 128, 255)).At(0) == 176
    ensures T.VectorYCbCrToRGB(Rgb(255, 128, 255)).At(0) == 255
  {
    assert T.RedOf(255, 128, 255) == 432;
  }

  /** (y, 128, 128) inverts to the gray pixel (y, y, y). */
  lemma WrappingInverseOfGray(v: byte)
    ensures WrappingInverse(Rgb(v, 128, 128)) == Rgb(v, v, v)
  {
    assert T.RedOf(v, 128, 128) == v;
    assert T.GreenOf(v, 128, 128) == v;
    assert T.BlueOf(v, 128, 128) == v;
  }

  /** `TransformRGBToYCbCr(colors)`: a loop writing the forward transform of
      each colour into a new array of the same length. */
  method TransformRGBToYCbCr(colors: seq<Color>) returns (result: seq<Color>)
    ensures result == T.RGBToYCbCr(colors)
  {
    var a := new Color[|colors|];
    for i := 0 to |colors|
      invariant forall k :: 0 <= k < i ==> a[k] == T.VectorRGBToYCbCr(colors[k])
    {
      a[i] := WrappingForward(colors[i]);
    }
    result := a[..];
  }

  /** `TransformYCbCrToRGB(colors)`: a loop writing the wrapping inverse of
      each colour into a new array of the same length. */
  method TransformYCbCrToRGB(colors: seq<Color>) returns (result: seq<Color>)
    ensures |result| == |colors|
    ensures forall i :: 0 <= i < |colors| ==> result[i] == WrappingInverse(colors[i])
  {
    var a := new Color[|colors|];
    for i := 0 to |colors|
      invariant forall k :: 0 <= k < i ==> a[k] == WrappingInverse(colors[k])
    {
      var y, cb, cr := colors[i].At(0), colors[i].At(1), colors[i].At(2);
      var r := ToByteFloorZero(T.RedOf(y, cb, cr));
      var g := ToByteFloorZero(T.GreenOf(y, cb, cr));
      var b := ToByteFloorZero(T.BlueOf(y, cb, cr));
      a[i] := Rgb(r, g, b);
    }
    result := a[..];
  }

  /** `ApplyToYCbCrAndBack`: forward then wrapping inverse; every gray pixel
      comes back unchanged. */
  method ApplyToYCbCrAndBack(colors: seq<Color>) returns (back: seq<Color>)
    ensures |back| == |colors|
    ensures forall i :: 0 <= i < |colors| ==> back[i] == WrappingInverse(T.VectorRGBToYCbCr(colors[i]))
    ensures forall i :: 0 <= i < |colors| && IsGray(colors[i]) ==> back[i] == colors[i]
  {
    var transformed := TransformRGBToYCbCr(colors);
    back := TransformYCbCrToRGB(transformed);
    forall i | 0 <= i < |colors| && IsGray(colors[i])
      ensures back[i] == colors[i]
    {
      var v := colors[i].At(0);
      assert colors[i] == Rgb(v, v, v) by { assert colors[i].elements == [v, v, v]; }
      T.GrayRoundTrip(v);
      WrappingInverseOfGray(v);
    }
  }

  /** One component of the forward transform, replicated into all three channels. */
  function ChannelView(colors: seq<Color>, k: nat): (r: seq<Color>)
    requires k < 3
    ensures |r| == |colors|
    ensures forall i :: 0 <= i < |colors| ==> IsGray(r[i]) && r[i].At(0) == T.VectorRGBToYCbCr(colors[i]).At(k)
  {
    var t := T.RGBToYCbCr(colors);
    seq(|colors|, i requires 0 <= i < |colors| => Rgb(t[i].At(k), t[i].At(k), t[i].At(k)))
  }

  /** `ApplyMonochromeY`, `ApplyMonochromeCb`, `ApplyMonochromeCr`. */
  function ApplyMonochromeY(colors: seq<Color>): seq<Color> { ChannelView(colors, 0) }
  function ApplyMonochromeCb(colors: seq<Color>): seq<Color> { ChannelView(colors, 1) }
  function ApplyMonochromeCr(colors: seq<Color>): seq<Color> { ChannelView(colors, 2) }

  /** The Y view is the "good" grayscale: both are the luma of each pixel. */
  lemma {:induction false} LumaViewIsGoodGrayscale(colors: seq<Color>)
    ensures ApplyMonochromeY(colors) == ApplyMonochromeGood(colors)
  {
    forall i | 0 <= i < |colors|
      ensures ApplyMonochromeY(colors)[i] == ApplyMonochromeGood(colors)[i]
    {
      var c := colors[i];
      T.ForwardWithinBytes(c.At(0), c.At(1), c.At(2));
      var l := T.LumaOf(c.At(0), c.At(1), c.At(2));
      assert ApplyMonochromeY(colors)[i].elements == [l, l, l];
      assert ApplyMonochromeGood(colors)[i].elements == [l, l, l];
    }
  }

  /** `QuantizeInRgb(bitmap, quantizationVector)`: every colour quantized in RGB. */
  function QuantizeInRgb(colors: seq<Color>, bits: Color): (r: seq<Color>)
    ensures |r| == |colors|
    ensures forall i :: 0 <= i < |colors| ==> r[i] == Q.QuantizedColor(colors[i], bits)
  {
    seq(|colors|, i requires 0 <= i < |colors| => Q.QuantizedColor(colors[i], bits))
  }

  /** Quantizing twice with the same bit counts is quantizing once; with eight
      bits per channel nothing changes. */
  lemma {:induction false} QuantizeInRgbIdempotent(colors: seq<Color>, bits: Color)
    requires forall k :: 0 <= k < 3 ==> bits.At(k) <= 8
    ensures QuantizeInRgb(QuantizeInRgb(colors, bits), bits) == QuantizeInRgb(colors, bits)
    ensures bits == Rgb(8, 8, 8) ==> QuantizeInRgb(colors, bits) == colors
  {
    forall i | 0 <= i < |colors|
      ensures QuantizeInRgb(QuantizeInRgb(colors, bits), bits)[i] == QuantizeInRgb(colors, bits)[i]
    {
      var c := colors[i];
      var qc := Q.QuantizedColor(c, bits);
      Q.QuantizeIdempotent(c.At(0), bits.At(0));
      Q.QuantizeIdempotent(c.At(1), bits.At(1));
      Q.QuantizeIdempotent(c.At(2), bits.At(2));
      assert Q.QuantizedColor(qc, bits).elements == qc.elements;
    }
    if bits == Rgb(8, 8, 8) {
      forall i | 0 <= i < |colors|
        ensures QuantizeInRgb(colors, bits)[i] == colors[i]
      {
        var c := colors[i];
        Q.QuantizeExtremes(c.At(0));
        Q.QuantizeExtremes(c.At(1));
        Q.QuantizeExtremes(c.At(2));
        assert Q.QuantizedColor(c, bits).elements == c.elements;
      }
    }
  }

  /** `QuantizeInYCbCr`: forward transform, quantize, wrapping inverse. */
  function QuantizeInYCbCr(colors: seq<Color>, bits: Color): (r: seq<Color>)
    ensures |r| == |colors|
    ensures forall i :: 0 <= i < |colors| ==>
      r[i] == WrappingInverse(Q.QuantizedColor(T.VectorRGBToYCbCr(colors[i]), bits))
  {
    var q := QuantizeInRgb(T.RGBToYCbCr(colors), bits);
    seq(|colors|, i requires 0 <= i < |colors| => WrappingInverse(q[i]))
  }

  /** Keeping all bits of Y and none of Cb and Cr turns a pixel into the inverse
      of (Y, 128, 128), i.e. a gray pixel of its luma. */
  lemma QuantizeInYCbCrLumaOnly(colors: seq<Color>)
    ensures forall i :: 0 <= i < |colors| ==>
      QuantizeInYCbCr(colors, Rgb(8, 0, 0))[i] == GoodGray(colors[i])
  {
    forall i | 0 <= i < |colors|
      ensures QuantizeInYCbCr(colors, Rgb(8, 0, 0))[i] == GoodGray(colors[i])
    {
      var t := T.VectorRGBToYCbCr(colors[i]);
      Q.QuantizeExtremes(t.At(0));
      Q.QuantizeExtremes(t.At(1));
      Q.QuantizeExtremes(t.At(2));
      var l := t.At(0);
      assert Q.QuantizedColor(t, Rgb(8, 0, 0)) == Rgb(l, 128, 128);
      WrappingInverseOfGray(l);
      T.ForwardWithinBytes(colors[i].At(0), colors[i].At(1), colors[i].At(2));
      assert GoodGray(colors[i]).elements == [l, l, l];
    }
  }

  /** The effects with an implementation (`EffectByType`'s keys). */
  const Implemented: set<EffectType> :=
    {GrayscaleBad, GrayscaleGood, Y, Cb, Cr, ToYCbCrAndBack, MedianCut, QuantizationRgb, QuantizationYCrCb}

  /** `SupportedFormats`: every implemented effect accepts Bgr32 only. */
  const SupportedFormats: map<EffectType, seq<PixelFormat>> :=
    map e | e in Implemented :: [Bgr32]

  /** `CanApply(bitmap, effectType)`. */
  function CanApply(format: PixelFormat, effect: EffectType): (r: bool)
  {
    effect in SupportedFormats && format in SupportedFormats[effect] && effect in Implemented
  }

  /** An effect applies exactly to Bgr32 bitmaps, and only when implemented. */
  lemma CanApplyExactly(format: PixelFormat, effect: EffectType)
    ensures CanApply(format, effect) <==> effect in Implemented && format == Bgr32
    ensures CanApply(format, effect) ==> effect != MonochromeBad && effect != MonochromeGood
  {
  }
}
