/** BitmapSourceExtensions.GetMap: unpacking a Bgr32 pixel buffer into a grid
    of three-component colours, together with the packing the DCT decoder
    uses to build its output buffer, which GetMap reads back. */
module BitmapSources {
  import opened Common
  import opened Vectors
  import opened Grids

  /** The pixel formats GetMap distinguishes. */
  datatype PixelFormat = Bgr32 | OtherFormat

  /** What GetMap reads of a bitmap: its format, its size, and the bytes
      CopyPixels yields with a stride of four bytes per pixel. */
  datatype Bitmap = Bitmap(format: PixelFormat, height: nat, width: nat, pixels: seq<byte>)

  /** The buffer holds height·stride bytes with stride = 4·width. */
  predicate WellFormed(b: Bitmap)
  {
    b.format == Bgr32 ==> |b.pixels| == 4 * b.height * b.width
  }

  /** The offset of pixel (i, j) in a buffer of rows of w pixels. */
  function Offset(w: nat, i: nat, j: nat): nat
  {
    4 * (i * w + j)
  }

  /** The four bytes a colour occupies: its three components, then an
      opaque alpha byte. */
  function PixelBytes(c: Color): (r: seq<byte>)
    ensures |r| == 4 && r[3] == 255
    ensures forall k :: 0 <= k < 3 ==> r[k] == c.At(k)
  {
    [c.At(0), c.At(1), c.At(2), 255]
  }

  /** The window of pixel (i, j) lies inside the buffer. */
  lemma OffsetInside(h: nat, w: nat, i: nat, j: nat)
    requires i < h && j < w
    ensures Offset(w, i, j) + 4 <= 4 * h * w
  {
    MulLeft(i + 1, h, w);
  }

  /** Pixels earlier in row-major order lie wholly before later ones, so
      distinct pixels occupy disjoint windows. */
  lemma OffsetOrder(w: nat, a: nat, b: nat, i: nat, j: nat)
    requires b < w && j < w && (a < i || (a == i && b < j))
    ensures Offset(w, a, b) + 4 <= Offset(w, i, j)
  {
    if a < i {
      MulLeft(a + 1, i, w);
    }
  }

  /** Byte t of pixel (i, j)'s window lies at position t of that window. */
  lemma WindowByte(w: nat, i: nat, j: nat, t: nat)
    requires j < w && t < 4
    ensures (Offset(w, i, j) + t) / 4 == i * w + j && (Offset(w, i, j) + t) % 4 == t
  {
  }

  /** Every byte of a 4·h·w buffer belongs to one pixel window. */
  lemma Decompose(h: nat, w: nat, k: nat) returns (i: nat, j: nat)
    requires k < 4 * h * w
    ensures i < h && j < w
    ensures Offset(w, i, j) <= k < Offset(w, i, j) + 4
  {
    var p := k / 4;
    assert p < h * w;
    MultipleSize(h, w);
    i, j := p / w, p % w;
    assert p == i * w + j;
    if i >= h {
      MulLeft(h, i, w);
    }
  }

  /** The buffer a grid is written to: row-major, four bytes per pixel. */
  function Packed(g: seq<seq<Color>>, h: nat, w: nat): (b: seq<byte>)
    requires IsRect(g, h, w)
    ensures |b| == 4 * h * w
  {
    seq(4 * h * w, k requires 0 <= k < 4 * h * w =>
      var p := k / 4;
      if w == 0 || p / w >= h then 0 else PixelBytes(g[p / w][p % w])[k % 4])
  }

  /** Pixel (i, j) of the grid occupies its window of the packed buffer:
      its three components, then 255. */
  lemma PackedWindow(g: seq<seq<Color>>, h: nat, w: nat, i: nat, j: nat)
    requires IsRect(g, h, w) && i < h && j < w
    ensures Offset(w, i, j) + 4 <= |Packed(g, h, w)|
    ensures Packed(g, h, w)[Offset(w, i, j)..Offset(w, i, j) + 4] == PixelBytes(g[i][j])
  {
    OffsetInside(h, w, i, j);
    var b := Packed(g, h, w);
    var o := Offset(w, i, j);
    DivUnique(i * w + j, w, i, j);
    forall t | 0 <= t < 4
      ensures b[o + t] == PixelBytes(g[i][j])[t]
    {
      WindowByte(w, i, j, t);
    }
  }

  /** A buffer is determined by its pixel windows. */
  lemma PackedUnique(b: seq<byte>, g: seq<seq<Color>>, h: nat, w: nat)
    requires IsRect(g, h, w) && |b| == 4 * h * w
    requires forall i, j :: 0 <= i < h && 0 <= j < w ==>
      Offset(w, i, j) + 4 <= |b| && b[Offset(w, i, j)..Offset(w, i, j) + 4] == PixelBytes(g[i][j])
    ensures b == Packed(g, h, w)
  {
    var q := Packed(g, h, w);
    forall k | 0 <= k < |b|
      ensures b[k] == q[k]
    {
      var i, j := Decompose(h, w, k);
      var o := Offset(w, i, j);
      PackedWindow(g, h, w, i, j);
      assert b[k] == b[o..o + 4][k - o];
      assert q[k] == q[o..o + 4][k - o];
    }
  }

  /** The colour GetMap reads at pixel (i, j): the first three bytes of its window. */
  function ReadPixel(bytes: seq<byte>, h: nat, w: nat, i: nat, j: nat): Color
    requires |bytes| == 4 * h * w && i < h && j < w
  {
    OffsetInside(h, w, i, j);
    var o := Offset(w, i, j);
    Rgb(bytes[o], bytes[o + 1], bytes[o + 2])
  }

  /** The grid GetMap produces from a well-formed buffer. */
  function Unpacked(bytes: seq<byte>, h: nat, w: nat): (g: seq<seq<Color>>)
    requires |bytes| == 4 * h * w
    ensures IsRect(g, h, w)
    ensures forall i, j :: 0 <= i < h && 0 <= j < w ==> g[i][j] == ReadPixel(bytes, h, w, i, j)
  {
    seq(h, i requires 0 <= i < h => seq(w, j requires 0 <= j < w => ReadPixel(bytes, h, w, i, j)))
  }

  /** Unpacking a packed grid gives the grid back: the alpha byte is
      written and never read. */
  lemma UnpackPacked(g: seq<seq<Color>>, h: nat, w: nat)
    requires IsRect(g, h, w)
    ensures Unpacked(Packed(g, h, w), h, w) == g
  {
    var b := Packed(g, h, w);
    var u := Unpacked(b, h, w);
    forall i, j | 0 <= i < h && 0 <= j < w
      ensures u[i][j] == g[i][j]
    {
      var o := Offset(w, i, j);
      PackedWindow(g, h, w, i, j);
      assert b[o..o + 4] == PixelBytes(g[i][j]);
      assert b[o] == g[i][j].At(0) && b[o + 1] == g[i][j].At(1) && b[o + 2] == g[i][j].At(2);
      EqualityIsElementwise(u[i][j], g[i][j]);
    }
    RectExtensional(u, g, h, w);
  }

  /** The alpha byte is the only thing unpacking loses: two buffers with the
      same colour bytes unpack to the same grid. */
  lemma UnpackIgnoresAlpha(b: seq<byte>, b': seq<byte>, h: nat, w: nat)
    requires |b| == |b'| == 4 * h * w
    requires forall k :: 0 <= k < |b| && k % 4 != 3 ==> b[k] == b'[k]
    ensures Unpacked(b, h, w) == Unpacked(b', h, w)
  {
    var u, u' := Unpacked(b, h, w), Unpacked(b', h, w);
    forall i, j | 0 <= i < h && 0 <= j < w
      ensures u[i][j] == u'[i][j]
    {
      OffsetInside(h, w, i, j);
      WindowByte(w, i, j, 0);
      WindowByte(w, i, j, 1);
      WindowByte(w, i, j, 2);
    }
    RectExtensional(u, u', h, w);
  }

  /** `GetMap(bitmap)`: any format but Bgr32 throws before reading a byte;
      otherwise a fresh H×W grid whose cell (i, j) is the first three bytes
      of the pixel's window. */
  method GetMap(bitmap: Bitmap) returns (r: Result<array2<Color>>)
    requires WellFormed(bitmap)
    ensures r.Err? <==> bitmap.format != Bgr32
    ensures r.Err? ==> r.error == NotSupported
    ensures r.Ok? ==> fresh(r.value) && r.value.Length0 == bitmap.height && r.value.Length1 == bitmap.width
    ensures r.Ok? ==> Cells(r.value) == Unpacked(bitmap.pixels, bitmap.height, bitmap.width)
  {
    if bitmap.format != Bgr32 {
      return Err(NotSupported);
    }
    var h, w, bytes := bitmap.height, bitmap.width, bitmap.pixels;
    var result := new Color[h, w]((_, _) => Rgb(0, 0, 0));
    for i := 0 to h
      invariant forall a, b :: 0 <= a < i && 0 <= b < w ==> result[a, b] == Unpacked(bytes, h, w)[a][b]
    {
      for j := 0 to w
        invariant forall a, b :: 0 <= b < w && (0 <= a < i || (a == i && b < j)) ==>
          result[a, b] == Unpacked(bytes, h, w)[a][b]
      {
        OffsetInside(h, w, i, j);
        var offset := Offset(w, i, j);
        result[i, j] := Rgb(bytes[offset], bytes[offset + 1], bytes[offset + 2]);
        assert result[i, j] == ReadPixel(bytes, h, w, i, j);
      }
    }
    RectExtensional(Cells(result), Unpacked(bytes, h, w), h, w);
    return Ok(result);
  }
}
