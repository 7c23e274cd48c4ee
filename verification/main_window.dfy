/** MainWindow (MainWindow.xaml.cs): the two "monochrome" effects that work
    directly on a Bgr32 pixel buffer, four bytes per pixel, and the format
    guard in front of them. The buffer is an array the loops overwrite in
    place; `Monochromed` is what they leave in it. */
module MainWindow {
  import opened Common
  import opened Vectors
  import T = Transformation
  import E = Effects

  /** The value written over bytes i, i + 1 and i + 2 of a pixel: the
      weighted sum `(77 b0 + 150 b1 + 29 b2) >> 8` for the good effect, the
      truncated average `(b0 + b1 + b2) / 3` for the bad one, cast to byte. */
  function Middle(good: bool, b0: byte, b1: byte, b2: byte): byte
  {
    if good then WrapByte(T.LumaOf(b0, b1, b2)) else WrapByte((b0 + b1 + b2) / 3)
  }

  /** Neither cast to byte ever wraps: both sums stay within [0, 255]. */
  lemma MiddleNeverWraps(b0: byte, b1: byte, b2: byte)
    ensures Middle(true, b0, b1, b2) == T.LumaOf(b0, b1, b2)
    ensures Middle(false, b0, b1, b2) == (b0 + b1 + b2) / 3
    ensures 3 * Middle(false, b0, b1, b2) <= b0 + b1 + b2 < 3 * Middle(false, b0, b1, b2) + 3
  {
    T.ForwardWithinBytes(b0, b1, b2);
  }

  /** Three equal bytes are their own middle under both effects, since
      77 + 150 + 29 = 256. */
  lemma MiddleOfGray(good: bool, v: byte)
    ensures Middle(good, v, v, v) == v
  {
    assert Pow2(8) == 256;
    assert T.LumaOf(v, v, v) == (256 * v) / 256;
  }

  /** The good effect gives a pixel the grey level of the Effects.cs
      "good" grayscale of the same three bytes. */
  lemma MiddleIsGoodGray(b0: byte, b1: byte, b2: byte)
    ensures Rgb(Middle(true, b0, b1, b2), Middle(true, b0, b1, b2), Middle(true, b0, b1, b2)) == E.GoodGray(Rgb(b0, b1, b2))
  {
    MiddleNeverWraps(b0, b1, b2);
    var g := E.GoodGray(Rgb(b0, b1, b2));
    assert g.elements == [g.At(0), g.At(1), g.At(2)];
  }

  /** The start of the four-byte pixel holding byte k. */
  function PixelStart(k: nat): (i: nat)
    ensures i <= k < i + 4 && i % 4 == 0
  {
    k - k % 4
  }

  /** Byte j of the pixel that starts at i. */
  lemma PixelOffset(i: nat, j: nat)
    requires i % 4 == 0 && j < 4
    ensures (i + j) % 4 == j && PixelStart(i + j) == i
  {
    var q := i / 4;
    assert i == 4 * q;
    assert i + j == 4 * q + j;
  }

  /** Byte k after the loop has passed its pixel: the fourth byte of a pixel
      is never written, and a pixel whose third byte lies past the end of the
      buffer is the one whose read throws, so it keeps its bytes. */
  function MonochromedAt(s: seq<byte>, good: bool, k: nat): byte
    requires k < |s|
  {
    var i := PixelStart(k);
    if k % 4 == 3 || i + 2 >= |s| then s[k] else Middle(good, s[i], s[i + 1], s[i + 2])
  }

  /** The buffer after `ApplyMonochromeGood` (good) or `ApplyMonochromeBad`
      (not good), including after the throw of a buffer whose length is 1 or
      2 modulo 4. */
  function Monochromed(s: seq<byte>, good: bool): (r: seq<byte>)
    ensures |r| == |s|
  {
    seq(|s|, k requires 0 <= k < |s| => MonochromedAt(s, good, k))
  }

  /** Pixel by pixel: bytes i, i + 1, i + 2 of every complete pixel become
      one common value computed from the old three, and byte i + 3 keeps its
      value. */
  lemma MonochromedPixels(s: seq<byte>, good: bool, i: nat)
    requires i % 4 == 0 && i + 2 < |s|
    ensures Monochromed(s, good)[i] == Middle(good, s[i], s[i + 1], s[i + 2])
    ensures Monochromed(s, good)[i + 1] == Middle(good, s[i], s[i + 1], s[i + 2])
    ensures Monochromed(s, good)[i + 2] == Middle(good, s[i], s[i + 1], s[i + 2])
    ensures i + 3 < |s| ==> Monochromed(s, good)[i + 3] == s[i + 3]
  {
    var r := Monochromed(s, good);
    PixelOffset(i, 0);
    PixelOffset(i, 1);
    PixelOffset(i, 2);
    assert r[i] == MonochromedAt(s, good, i);
    assert r[i + 1] == MonochromedAt(s, good, i + 1);
    assert r[i + 2] == MonochromedAt(s, good, i + 2);
    if i + 3 < |s| {
      PixelOffset(i, 3);
      assert r[i + 3] == MonochromedAt(s, good, i + 3);
    }
  }

  /** A buffer whose every complete pixel is gray is left as it is. */
  lemma MonochromedFixesGray(s: seq<byte>, good: bool)
    requires forall i :: 0 <= i && i % 4 == 0 && i + 2 < |s| ==> s[i] == s[i + 1] == s[i + 2]
    ensures Monochromed(s, good) == s
  {
    forall k | 0 <= k < |s|
      ensures Monochromed(s, good)[k] == s[k]
    {
      var i := PixelStart(k);
      if k % 4 != 3 && i + 2 < |s| {
        MiddleOfGray(good, s[i]);
      }
    }
  }

  /** Applying either effect twice changes nothing more than applying it once. */
  lemma MonochromedIdempotent(s: seq<byte>, good: bool)
    ensures Monochromed(Monochromed(s, good), good) == Monochromed(s, good)
  {
    var r := Monochromed(s, good);
    forall i | 0 <= i && i % 4 == 0 && i + 2 < |r|
      ensures r[i] == r[i + 1] == r[i + 2]
    {
      MonochromedPixels(s, good, i);
    }
    MonochromedFixesGray(r, good);
  }

  /** The buffer once the loop has reached byte i: the pixels before i done,
      the rest as they were. */
  ghost function MonochromedBelow(s: seq<byte>, good: bool, i: nat): (r: seq<byte>)
    ensures |r| == |s|
  {
    seq(|s|, k requires 0 <= k < |s| => if k < i then MonochromedAt(s, good, k) else s[k])
  }

  /** One round of the loop: writing the middle over bytes i, i + 1, i + 2
      moves the boundary one pixel on. */
  lemma MonochromedBelowStep(s: seq<byte>, good: bool, i: nat)
    requires i % 4 == 0 && i + 2 < |s|
    ensures var m := Middle(good, s[i], s[i + 1], s[i + 2]);
      MonochromedBelow(s, good, i)[i := m][i + 1 := m][i + 2 := m] == MonochromedBelow(s, good, i + 4)
  {
    MonochromedPixels(s, good, i);
  }

  /** Once the next pixel is incomplete, every byte has its final value. */
  lemma MonochromedBelowDone(s: seq<byte>, good: bool, i: nat)
    requires i % 4 == 0 && i + 2 >= |s|
    ensures MonochromedBelow(s, good, i) == Monochromed(s, good)
  {
  }

  /** The loop of `ApplyMonochromeGood` / `ApplyMonochromeBad` over the copied
      buffer, stepping four bytes at a time. It throws (IndexOutOfRange) when
      the last pixel has only one or two bytes, after the complete pixels
      before it were written. */
  method Monochrome(bytes: array<byte>, good: bool) returns (o: Outcome)
    modifies bytes
    ensures bytes[..] == Monochromed(old(bytes[..]), good)
    ensures o.Fail? <==> bytes.Length % 4 == 1 || bytes.Length % 4 == 2
    ensures o.Fail? ==> o.error == IndexOutOfRange
  {
    ghost var s := bytes[..];
    var i := 0;
    while i < bytes.Length
      invariant i % 4 == 0 && i <= bytes.Length + 1
      invariant bytes[..] == MonochromedBelow(s, good, i)
    {
      if i + 2 >= bytes.Length {
        MonochromedBelowDone(s, good, i);
        return Fail(IndexOutOfRange);
      }
      var middle := Middle(good, bytes[i], bytes[i + 1], bytes[i + 2]);
      MonochromedBelowStep(s, good, i);
      bytes[i] := middle;
      bytes[i + 1] := middle;
      bytes[i + 2] := middle;
      i := i + 4;
    }
    MonochromedBelowDone(s, good, i);
    return Pass;
  }

  /** `supportedFormats`: only the two monochrome effects have an entry, and
      both accept Bgr32 alone. */
  const SupportedFormats: map<E.EffectType, seq<E.PixelFormat>> :=
    map[E.MonochromeBad := [E.Bgr32], E.MonochromeGood := [E.Bgr32]]

  /** `ApplyEffect(bitmap, effectType, out result)` on the bitmap's format and
      pixel bytes: an effect without a `supportedFormats` entry throws
      KeyNotFound; an unsupported format gives false with no result (the
      message box is left out); otherwise the bytes are copied and the chosen
      loop runs over the copy, whose throw propagates. The `default` branch
      of the switch cannot be reached, since only the two monochrome effects
      pass the lookup. */
  method ApplyEffect(format: E.PixelFormat, effect: E.EffectType, pixels: seq<byte>) returns (r: Result<Option<seq<byte>>>)
    ensures effect != E.MonochromeBad && effect != E.MonochromeGood ==> r == Err(KeyNotFound)
    ensures (effect == E.MonochromeBad || effect == E.MonochromeGood) && format != E.Bgr32 ==> r == Ok(None)
    ensures (effect == E.MonochromeBad || effect == E.MonochromeGood) && format == E.Bgr32 ==>
      (r.Ok? <==> |pixels| % 4 == 0 || |pixels| % 4 == 3) &&
      (r.Ok? ==> r.value == Some(Monochromed(pixels, effect == E.MonochromeGood))) &&
      (r.Err? ==> r.error == IndexOutOfRange)
  {
    if effect !in SupportedFormats {
      return Err(KeyNotFound);
    }
    if format !in SupportedFormats[effect] {
      return Ok(None);
    }
    var bytes := new byte[|pixels|](k requires 0 <= k < |pixels| => pixels[k]);
    assert bytes[..] == pixels;
    var good: bool;
    if effect == E.MonochromeBad {
      good := false;
    } else {
      assert effect == E.MonochromeGood;
      good := true;
    }
    var o := Monochrome(bytes, good);
    if o.Fail? {
      return Err(o.error);
    }
    return Ok(Some(bytes[..]));
  }
}
