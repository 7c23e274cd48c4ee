/** The colour stages of the DCT codec (DctAlgorithm.ToYCbCr, ToRgbBytes):
    the pixel grid enters the codec as YCbCr and leaves it as a Bgr32 byte
    buffer of RGB colours. */
module DctColors {
  import opened Common
  import opened Vectors
  import opened Grids
  import opened Transformation
  import opened BitmapSources

  /** A grid with the forward colour transform applied to every pixel. */
  function YCbCrGrid(g: seq<seq<Color>>, h: nat, w: nat): (r: seq<seq<Color>>)
    requires IsRect(g, h, w)
    ensures IsRect(r, h, w)
    ensures forall i, j :: 0 <= i < h && 0 <= j < w ==> r[i][j] == VectorRGBToYCbCr(g[i][j])
  {
    seq(h, i requires 0 <= i < h => seq(w, j requires 0 <= j < w => VectorRGBToYCbCr(g[i][j])))
  }

  /** A grid with the inverse colour transform applied to every pixel. */
  function RgbGrid(g: seq<seq<Color>>, h: nat, w: nat): (r: seq<seq<Color>>)
    requires IsRect(g, h, w)
    ensures IsRect(r, h, w)
    ensures forall i, j :: 0 <= i < h && 0 <= j < w ==> r[i][j] == VectorYCbCrToRGB(g[i][j])
  {
    seq(h, i requires 0 <= i < h => seq(w, j requires 0 <= j < w => VectorYCbCrToRGB(g[i][j])))
  }

  /** Every pixel of the grid is gray. */
  ghost predicate IsGray(g: seq<seq<Color>>, h: nat, w: nat)
    requires IsRect(g, h, w)
  {
    forall i, j :: 0 <= i < h && 0 <= j < w ==> g[i][j].At(0) == g[i][j].At(1) == g[i][j].At(2)
  }

  /** A gray image survives the two colour stages unchanged. */
  lemma GrayGridRoundTrip(g: seq<seq<Color>>, h: nat, w: nat)
    requires IsRect(g, h, w) && IsGray(g, h, w)
    ensures RgbGrid(YCbCrGrid(g, h, w), h, w) == g
  {
    var r := RgbGrid(YCbCrGrid(g, h, w), h, w);
    forall i, j | 0 <= i < h && 0 <= j < w
      ensures r[i][j] == g[i][j]
    {
      var v := g[i][j].At(0);
      assert g[i][j] == Rgb(v, v, v) by {
        assert g[i][j].elements == [v, v, v];
      }
      GrayRoundTrip(v);
    }
    RectExtensional(r, g, h, w);
  }

  /** `ToYCbCr(map)`: a fresh grid of the same size holding the forward
      transform of every pixel. */
  method ToYCbCr(src: array2<Color>) returns (result: array2<Color>)
    ensures fresh(result) && result.Length0 == src.Length0 && result.Length1 == src.Length1
    ensures Cells(result) == YCbCrGrid(Cells(src), src.Length0, src.Length1)
  {
    result := new Color[src.Length0, src.Length1]((_, _) => Rgb(0, 0, 0));
    for i := 0 to src.Length0
      invariant forall a, b :: 0 <= a < i && 0 <= b < src.Length1 ==> result[a, b] == VectorRGBToYCbCr(src[a, b])
    {
      for j := 0 to src.Length1
        invariant forall a, b :: 0 <= b < src.Length1 && (0 <= a < i || (a == i && b < j)) ==>
          result[a, b] == VectorRGBToYCbCr(src[a, b])
      {
        result[i, j] := VectorRGBToYCbCr(src[i, j]);
      }
    }
    RectExtensional(Cells(result), YCbCrGrid(Cells(src), src.Length0, src.Length1), src.Length0, src.Length1);
  }

  /** The windows of every pixel before (i, j) in row-major order hold
      that pixel's bytes. */
  ghost predicate WindowsBefore(bytes: seq<byte>, g: seq<seq<Color>>, h: nat, w: nat, i: nat, j: nat)
    requires IsRect(g, h, w)
  {
    forall a, b :: 0 <= a < h && 0 <= b < w && (a < i || (a == i && b < j)) ==>
      Offset(w, a, b) + 4 <= |bytes| && bytes[Offset(w, a, b)..Offset(w, a, b) + 4] == PixelBytes(g[a][b])
  }

  /** Appending the bytes of pixel (i, j) extends the filled prefix by one pixel. */
  lemma AppendPixel(bytes: seq<byte>, g: seq<seq<Color>>, h: nat, w: nat, i: nat, j: nat)
    requires IsRect(g, h, w) && i < h && j < w
    requires |bytes| == Offset(w, i, j) && WindowsBefore(bytes, g, h, w, i, j)
    ensures |bytes + PixelBytes(g[i][j])| == Offset(w, i, j + 1)
    ensures WindowsBefore(bytes + PixelBytes(g[i][j]), g, h, w, i, j + 1)
  {
    var bytes' := bytes + PixelBytes(g[i][j]);
    forall a, b | 0 <= a < h && 0 <= b < w && (a < i || (a == i && b < j + 1))
      ensures Offset(w, a, b) + 4 <= |bytes'| && bytes'[Offset(w, a, b)..Offset(w, a, b) + 4] == PixelBytes(g[a][b])
    {
      if a == i && b == j {
        assert bytes'[|bytes|..] == PixelBytes(g[i][j]);
      } else {
        OffsetOrder(w, a, b, i, j);
        assert bytes'[Offset(w, a, b)..Offset(w, a, b) + 4] == bytes[Offset(w, a, b)..Offset(w, a, b) + 4];
      }
    }
  }

  /** `ToRgbBytes(map)`: the inverse colour transform of every pixel,
      written row by row as four bytes per pixel (three components, then
      255): exactly the Bgr32 buffer of the converted grid. */
  method ToRgbBytes(src: array2<Color>) returns (result: seq<byte>)
    ensures |result| == 4 * src.Length0 * src.Length1
    ensures result == Packed(RgbGrid(Cells(src), src.Length0, src.Length1), src.Length0, src.Length1)
  {
    var h, w := src.Length0, src.Length1;
    ghost var g := RgbGrid(Cells(src), h, w);
    result := [];
    for i := 0 to h
      invariant |result| == Offset(w, i, 0)
      invariant WindowsBefore(result, g, h, w, i, 0)
    {
      for j := 0 to w
        invariant |result| == Offset(w, i, j)
        invariant WindowsBefore(result, g, h, w, i, j)
      {
        var transformed := VectorYCbCrToRGB(src[i, j]);
        AppendPixel(result, g, h, w, i, j);
        result := result + [transformed.At(0), transformed.At(1), transformed.At(2), 255];
      }
      assert Offset(w, i, w) == Offset(w, i + 1, 0);
    }
    assert |result| == 4 * h * w;
    PackedUnique(result, g, h, w);
  }
}
