/** Splitting a pixel grid into 8×8 blocks of three channel matrices, and
    flattening blocks back into a pixel grid (DctAlgorithm.SplitToBlocks,
    SplitToBlocksInt, Project, Flatten, FlattenByte, PlaceMatrix,
    PlaceMatrixByte, ConvertToByte). A block `Vector<Matrix>` is held as a
    Vector of matrix values: the blocks are only ever read or replaced. */
module DctBlocks {
  import opened Common
  import opened Vectors
  import opened Grids
  import opened Matrices

  /** The block size every caller passes. */
  const BlockSize: nat := 8

  /** Three channel matrices, each 8×8. */
  ghost predicate IsBlock(b: Vector<Mat>)
  {
    b.Length() == 3 && forall k :: 0 <= k < 3 ==> IsRect(b.At(k), BlockSize, BlockSize)
  }

  /** An h×w grid of three-component pixels (colours or int triples). */
  ghost predicate IsImage(g: seq<seq<Vector<int>>>, h: nat, w: nat)
  {
    IsRect(g, h, w) && forall i, j :: 0 <= i < h && 0 <= j < w ==> g[i][j].Length() == 3
  }

  /** A grid of blocks, each of them well formed. */
  ghost predicate IsBlockGrid(bs: seq<seq<Vector<Mat>>>, n: nat, m: nat)
  {
    IsRect(bs, n, m) && forall a, b :: 0 <= a < n && 0 <= b < m ==> IsBlock(bs[a][b])
  }

  /** Channel k of the 8×8 window whose top-left pixel is (i, j). */
  function Channel(g: seq<seq<Vector<int>>>, h: nat, w: nat, i: nat, j: nat, k: nat): (c: Mat)
    requires IsImage(g, h, w) && i + BlockSize <= h && j + BlockSize <= w && k < 3
    ensures IsRect(c, BlockSize, BlockSize)
    ensures forall x, y :: 0 <= x < BlockSize && 0 <= y < BlockSize ==> c[x][y] == g[i + x][j + y].At(k) as real
  {
    seq(BlockSize, x requires 0 <= x < BlockSize =>
      seq(BlockSize, y requires 0 <= y < BlockSize => g[i + x][j + y].At(k) as real))
  }

  /** The block read from the window at (i, j): cell (x, y) of channel k is
      component k of pixel (i + x, j + y). */
  function BlockAt(g: seq<seq<Vector<int>>>, h: nat, w: nat, i: nat, j: nat): (b: Vector<Mat>)
    requires IsImage(g, h, w) && i + BlockSize <= h && j + BlockSize <= w
    ensures IsBlock(b)
    ensures forall k :: 0 <= k < 3 ==> b.At(k) == Channel(g, h, w, i, j, k)
  {
    Vector([Channel(g, h, w, i, j, 0), Channel(g, h, w, i, j, 1), Channel(g, h, w, i, j, 2)])
  }

  /** The (h/8)×(w/8) grid of blocks: block (a, b) is the window at (8a, 8b). */
  function Blocks(g: seq<seq<Vector<int>>>, h: nat, w: nat): (bs: seq<seq<Vector<Mat>>>)
    requires IsImage(g, h, w)
    ensures IsBlockGrid(bs, h / BlockSize, w / BlockSize)
    ensures forall a, b :: 0 <= a < h / BlockSize && 0 <= b < w / BlockSize ==>
      bs[a][b] == BlockAt(g, h, w, BlockSize * a, BlockSize * b)
  {
    seq(h / BlockSize, a requires 0 <= a < h / BlockSize =>
      seq(w / BlockSize, b requires 0 <= b < w / BlockSize => BlockAt(g, h, w, BlockSize * a, BlockSize * b)))
  }

  /** The split reads past the grid exactly when some loop start lies less
      than a block from the far edge, which needs a non-empty grid. */
  predicate SplitFails(h: nat, w: nat)
  {
    h > 0 && w > 0 && (h % BlockSize != 0 || w % BlockSize != 0)
  }

  /** The coefficient at pixel (p, q) of the flattened grid, channel k. */
  function Coefficient(bs: seq<seq<Vector<Mat>>>, n: nat, m: nat, p: nat, q: nat, k: nat): real
    requires IsBlockGrid(bs, n, m) && p < BlockSize * n && q < BlockSize * m && k < 3
  {
    bs[p / BlockSize][q / BlockSize].At(k)[p % BlockSize][q % BlockSize]
  }

  /** Every channel's coefficient at cell (x, y) of the block rounds to an int32. */
  ghost predicate CellFits(b: Vector<Mat>, x: nat, y: nat)
    requires IsBlock(b) && x < BlockSize && y < BlockSize
  {
    forall k :: 0 <= k < 3 ==> INT32_MIN <= RoundHalfEven(b.At(k)[x][y]) <= INT32_MAX
  }

  /** Every coefficient of the block rounds to an int32. */
  ghost predicate BlockFits(b: Vector<Mat>)
    requires IsBlock(b)
  {
    forall x, y :: 0 <= x < BlockSize && 0 <= y < BlockSize ==> CellFits(b, x, y)
  }

  /** Every coefficient of every block rounds to an int32. */
  ghost predicate Fits(bs: seq<seq<Vector<Mat>>>, n: nat, m: nat)
    requires IsBlockGrid(bs, n, m)
  {
    forall a, b :: 0 <= a < n && 0 <= b < m ==> BlockFits(bs[a][b])
  }

  /** `Convert.ToInt32` of each component of the cell (x, y) of a block. */
  function Rounded(v: Vector<Mat>, x: nat, y: nat): (r: Vector<int>)
    requires IsBlock(v) && x < BlockSize && y < BlockSize
    ensures r.Length() == 3
    ensures forall k :: 0 <= k < 3 ==> r.At(k) == RoundHalfEven(v.At(k)[x][y])
  {
    Vector(seq(3, k requires 0 <= k < 3 => RoundHalfEven(v.At(k)[x][y])))
  }

  /** The (8n)×(8m) grid Flatten produces: pixel (p, q) holds the rounded
      coefficients at (p mod 8, q mod 8) of block (p / 8, q / 8). */
  function Flattened(bs: seq<seq<Vector<Mat>>>, n: nat, m: nat): (g: seq<seq<Vector<int>>>)
    requires IsBlockGrid(bs, n, m)
    ensures IsImage(g, BlockSize * n, BlockSize * m)
    ensures forall p, q :: 0 <= p < BlockSize * n && 0 <= q < BlockSize * m ==>
      g[p][q] == Rounded(bs[p / BlockSize][q / BlockSize], p % BlockSize, q % BlockSize)
  {
    seq(BlockSize * n, p requires 0 <= p < BlockSize * n =>
      seq(BlockSize * m, q requires 0 <= q < BlockSize * m =>
        Rounded(bs[p / BlockSize][q / BlockSize], p % BlockSize, q % BlockSize)))
  }

  /** `ConvertToByte`: Math.Round, then Convert.ToInt32 (which throws
      outside the int range), then clamp to [0, 255]. */
  function ConvertToByte(value: real): (r: Result<byte>)
    ensures r.Ok? <==> INT32_MIN <= RoundHalfEven(value) <= INT32_MAX
    ensures r.Err? ==> r.error == Overflow
    ensures r.Ok? ==> r.value == Clamp(RoundHalfEven(value), 0, 255)
    ensures r.Ok? && 0.0 <= value <= 255.0 ==> r.value == RoundHalfEven(value)
  {
    RoundOfInteger(RoundHalfEven(value));
    var n :- ToInt32(RoundHalfEven(value) as real);
    Ok(Clamp(n, 0, 255))
  }

  /** ConvertToByte of each component of the cell (x, y) of a block, when
      they all fit. */
  function RoundedByte(v: Vector<Mat>, x: nat, y: nat): (r: Color)
    requires IsBlock(v) && x < BlockSize && y < BlockSize
    ensures forall k :: 0 <= k < 3 ==> r.At(k) == Clamp(RoundHalfEven(v.At(k)[x][y]), 0, 255)
  {
    Vector(seq(3, k requires 0 <= k < 3 => Clamp(RoundHalfEven(v.At(k)[x][y]), 0, 255) as byte))
  }

  /** The (8n)×(8m) grid FlattenByte produces. */
  function FlattenedBytes(bs: seq<seq<Vector<Mat>>>, n: nat, m: nat): (g: seq<seq<Color>>)
    requires IsBlockGrid(bs, n, m)
    ensures IsRect(g, BlockSize * n, BlockSize * m)
    ensures forall p, q :: 0 <= p < BlockSize * n && 0 <= q < BlockSize * m ==>
      g[p][q] == RoundedByte(bs[p / BlockSize][q / BlockSize], p % BlockSize, q % BlockSize)
  {
    seq(BlockSize * n, p requires 0 <= p < BlockSize * n =>
      seq(BlockSize * m, q requires 0 <= q < BlockSize * m =>
        RoundedByte(bs[p / BlockSize][q / BlockSize], p % BlockSize, q % BlockSize)))
  }

  /** Cell (p mod 8, q mod 8) of channel k of block (p / 8, q / 8) of the
      split is component k of pixel (p, q). */
  lemma BlocksCell(g: seq<seq<Vector<int>>>, h: nat, w: nat, p: nat, q: nat, k: nat)
    requires IsImage(g, h, w) && p < BlockSize * (h / BlockSize) && q < BlockSize * (w / BlockSize) && k < 3
    ensures p / BlockSize < h / BlockSize && q / BlockSize < w / BlockSize
    ensures Blocks(g, h, w)[p / BlockSize][q / BlockSize].At(k)[p % BlockSize][q % BlockSize] == g[p][q].At(k) as real
  {
    var a, x, b, y := p / BlockSize, p % BlockSize, q / BlockSize, q % BlockSize;
    assert BlockSize * a + x == p && BlockSize * b + y == q;
    var c := Channel(g, h, w, BlockSize * a, BlockSize * b, k);
    assert c[x][y] == g[p][q].At(k) as real;
  }

  /** Flattening the split of an integer grid gives the grid back: every
      integer rounds to itself and every pixel is read back from the block
      cell it was written to. */
  lemma FlattenSplit(g: seq<seq<Vector<int>>>, h: nat, w: nat)
    requires IsImage(g, h, w) && h % BlockSize == 0 && w % BlockSize == 0
    ensures Flattened(Blocks(g, h, w), h / BlockSize, w / BlockSize) == g
  {
    var bs := Blocks(g, h, w);
    var f := Flattened(bs, h / BlockSize, w / BlockSize);
    forall p, q | 0 <= p < h && 0 <= q < w
      ensures f[p][q] == g[p][q]
    {
      forall k | 0 <= k < 3
        ensures f[p][q].elements[k] == g[p][q].elements[k]
      {
        BlocksCell(g, h, w, p, q, k);
        RoundOfInteger(g[p][q].At(k));
      }
    }
    RectExtensional(f, g, h, w);
  }

  /** Every block of the split of an int32 grid fits, so Flatten succeeds. */
  lemma SplitFits(g: seq<seq<Vector<int>>>, h: nat, w: nat)
    requires IsImage(g, h, w)
    requires forall i, j, k :: 0 <= i < h && 0 <= j < w && 0 <= k < 3 ==> INT32_MIN <= g[i][j].At(k) <= INT32_MAX
    ensures Fits(Blocks(g, h, w), h / BlockSize, w / BlockSize)
  {
    var bs: seq<seq<Vector<Mat>>> := Blocks(g, h, w);
    forall a: nat, b: nat, k: nat, x: nat, y: nat | 0 <= a < h / BlockSize && 0 <= b < w / BlockSize && 0 <= k < 3 && 0 <= x < BlockSize && 0 <= y < BlockSize
      ensures INT32_MIN <= RoundHalfEven(bs[a][b].At(k)[x][y]) <= INT32_MAX
    {
      RoundOfInteger(g[BlockSize * a + x][BlockSize * b + y].At(k));
    }
  }

  /** The same for a colour grid and FlattenByte. */
  lemma FlattenBytesSplit(g: seq<seq<Color>>, h: nat, w: nat)
    requires IsRect(g, h, w) && h % BlockSize == 0 && w % BlockSize == 0
    ensures IsImage(g, h, w)
    ensures FlattenedBytes(Blocks(g, h, w), h / BlockSize, w / BlockSize) == g
  {
    ColorGridIsImage(g, h, w);
    var n, m := h / BlockSize, w / BlockSize;
    assert BlockSize * n == h && BlockSize * m == w;
    var f := FlattenedBytes(Blocks(g, h, w), n, m);
    assert IsRect(f, h, w);
    forall p, q | 0 <= p < h && 0 <= q < w
      ensures f[p][q] == g[p][q]
    {
      FlattenBytesCell(g, h, w, p, q);
    }
    RectExtensional(f, g, h, w);
  }

  /** Every colour has three components, so a rectangle of colours is an image. */
  lemma ColorGridIsImage(g: seq<seq<Color>>, h: nat, w: nat)
    requires IsRect(g, h, w)
    ensures IsImage(g, h, w)
  {
  }

  /** One pixel of `FlattenBytesSplit`. */
  lemma FlattenBytesCell(g: seq<seq<Color>>, h: nat, w: nat, x: nat, y: nat)
    requires IsRect(g, h, w) && IsImage(g, h, w) && h % BlockSize == 0 && w % BlockSize == 0
    requires x < h && y < w
    ensures FlattenedBytes(Blocks(g, h, w), h / BlockSize, w / BlockSize)[x][y] == g[x][y]
  {
    var bs: seq<seq<Vector<Mat>>> := Blocks(g, h, w);
    var f: seq<seq<Color>> := FlattenedBytes(bs, h / BlockSize, w / BlockSize);
    forall k: nat | k < 3
      ensures f[x][y].elements[k] == g[x][y].elements[k]
    {
      BlocksCell(g, h, w, x, y, k);
      RoundOfInteger(g[x][y].At(k));
      var v := g[x][y].At(k);
      assert f[x][y].At(k) == Clamp(RoundHalfEven(v as real), 0, 255) == v;
    }
    assert f[x][y].elements == g[x][y].elements;
  }

  /** `Project(array, index)`: component `index` of every cell, into a fresh
      n×m array. Its loops run i over [0, m) instead of [0, n): a window with
      fewer rows than columns is read past its last row, and rows m..n-1 of
      a taller one are left at zero. Every caller passes an 8×8 window. */
  method Project(window: array2<Vector<real>>, index: nat) returns (r: Result<array2<real>>)
    requires forall x, y :: 0 <= x < window.Length0 && 0 <= y < window.Length1 ==> index < window[x, y].Length()
    ensures r.Err? <==> window.Length0 < window.Length1
    ensures r.Err? ==> r.error == IndexOutOfRange
    ensures r.Ok? ==> fresh(r.value) && r.value.Length0 == window.Length0 && r.value.Length1 == window.Length1
    ensures r.Ok? ==> forall x, y :: 0 <= x < window.Length0 && 0 <= y < window.Length1 ==>
      r.value[x, y] == if x < window.Length1 then window[x, y].At(index) else 0.0
  {
    var n, m := window.Length0, window.Length1;
    var result := new real[n, m]((_, _) => 0.0);
    for i := 0 to m
      invariant i > 0 ==> i <= n
      invariant forall x, y :: 0 <= x < n && 0 <= y < m ==> result[x, y] == if x < i then window[x, y].At(index) else 0.0
    {
      for j := 0 to m
        invariant j > 0 ==> i < n
        invariant forall x, y :: 0 <= x < n && 0 <= y < m ==>
          result[x, y] == if x < i || (x == i && y < j) then window[x, y].At(index) else 0.0
      {
        if i >= n {
          return Err(IndexOutOfRange);
        }
        result[i, j] := window[i, j].At(index);
      }
    }
    return Ok(result);
  }

  /** The three Project calls on an 8×8 window, as the channel matrices of a block. */
  method ProjectAll(window: array2<Vector<real>>) returns (b: Vector<Mat>)
    requires window.Length0 == BlockSize && window.Length1 == BlockSize
    requires forall x, y :: 0 <= x < BlockSize && 0 <= y < BlockSize ==> window[x, y].Length() == 3
    ensures IsBlock(b)
    ensures forall k, x, y :: 0 <= k < 3 && 0 <= x < BlockSize && 0 <= y < BlockSize ==> b.At(k)[x][y] == window[x, y].At(k)
  {
    var matrices: seq<Mat> := [];
    for k := 0 to 3
      invariant |matrices| == k
      invariant forall c :: 0 <= c < k ==> IsRect(matrices[c], BlockSize, BlockSize)
      invariant forall c, x, y :: 0 <= c < k && 0 <= x < BlockSize && 0 <= y < BlockSize ==> matrices[c][x][y] == window[x, y].At(c)
    {
      var p := Project(window, k);
      var projected := p.value;
      matrices := matrices + [Cells(projected)];
    }
    b := Vector(matrices);
  }

  /** `Convert.ToDouble` of each component. */
  function ToReals(v: Vector<int>): (r: Vector<real>)
    ensures r.Length() == v.Length()
    ensures forall k :: 0 <= k < v.Length() ==> r.At(k) == v.At(k) as real
  {
    v.Convert((n: int) => n as real)
  }

  /** The inner loops of SplitToBlocks: the 8×8 window at (i, j) of a
      colour grid, converted to doubles. */
  method ReadWindow(src: array2<Color>, i: nat, j: nat) returns (window: array2<Vector<real>>)
    requires i + BlockSize <= src.Length0 && j + BlockSize <= src.Length1
    ensures fresh(window) && window.Length0 == BlockSize && window.Length1 == BlockSize
    ensures forall x, y :: 0 <= x < BlockSize && 0 <= y < BlockSize ==> window[x, y] == ToReals(src[i + x, j + y])
  {
    window := new Vector<real>[BlockSize, BlockSize]((_, _) => Vector([0.0, 0.0, 0.0]));
    for x := 0 to BlockSize
      invariant forall x', y :: 0 <= x' < x && 0 <= y < BlockSize ==> window[x', y] == ToReals(src[i + x', j + y])
    {
      for y := 0 to BlockSize
        invariant forall x', y' :: 0 <= y' < BlockSize && (0 <= x' < x || (x' == x && y' < y)) ==>
          window[x', y'] == ToReals(src[i + x', j + y'])
      {
        window[x, y] := ToReals(src[i + x, j + y]);
      }
    }
  }

  /** The inner loops of SplitToBlocksInt: the same over an int grid. */
  method ReadWindowInt(src: array2<Triple>, i: nat, j: nat) returns (window: array2<Vector<real>>)
    requires i + BlockSize <= src.Length0 && j + BlockSize <= src.Length1
    ensures fresh(window) && window.Length0 == BlockSize && window.Length1 == BlockSize
    ensures forall x, y :: 0 <= x < BlockSize && 0 <= y < BlockSize ==> window[x, y] == ToReals(src[i + x, j + y])
  {
    window := new Vector<real>[BlockSize, BlockSize]((_, _) => Vector([0.0, 0.0, 0.0]));
    for x := 0 to BlockSize
      invariant forall x', y :: 0 <= x' < x && 0 <= y < BlockSize ==> window[x', y] == ToReals(src[i + x', j + y])
    {
      for y := 0 to BlockSize
        invariant forall x', y' :: 0 <= y' < BlockSize && (0 <= x' < x || (x' == x && y' < y)) ==>
          window[x', y'] == ToReals(src[i + x', j + y'])
      {
        window[x, y] := ToReals(src[i + x, j + y]);
      }
    }
  }

  /** A block whose cells are the window's components is the block BlockAt reads. */
  lemma WindowBlock(g: seq<seq<Vector<int>>>, h: nat, w: nat, i: nat, j: nat, b: Vector<Mat>)
    requires IsImage(g, h, w) && i + BlockSize <= h && j + BlockSize <= w && IsBlock(b)
    requires forall k, x, y :: 0 <= k < 3 && 0 <= x < BlockSize && 0 <= y < BlockSize ==>
      b.At(k)[x][y] == g[i + x][j + y].At(k) as real
    ensures b == BlockAt(g, h, w, i, j)
  {
    BlockExtensional(b, BlockAt(g, h, w, i, j));
  }

  /** One block of SplitToBlocks. */
  method ReadBlock(src: array2<Color>, i: nat, j: nat) returns (b: Vector<Mat>)
    requires i + BlockSize <= src.Length0 && j + BlockSize <= src.Length1
    ensures IsImage(Cells(src), src.Length0, src.Length1)
    ensures b == BlockAt(Cells(src), src.Length0, src.Length1, i, j)
  {
    ghost var g := Cells(src);
    assert IsImage(g, src.Length0, src.Length1);
    var window := ReadWindow(src, i, j);
    b := ProjectAll(window);
    forall k, x, y | 0 <= k < 3 && 0 <= x < BlockSize && 0 <= y < BlockSize
      ensures b.At(k)[x][y] == g[i + x][j + y].At(k) as real
    {
      assert window[x, y] == ToReals(src[i + x, j + y]);
    }
    WindowBlock(g, src.Length0, src.Length1, i, j, b);
  }

  /** One block of SplitToBlocksInt. */
  method ReadBlockInt(src: array2<Triple>, i: nat, j: nat) returns (b: Vector<Mat>)
    requires i + BlockSize <= src.Length0 && j + BlockSize <= src.Length1
    ensures IsImage(Cells(src), src.Length0, src.Length1)
    ensures b == BlockAt(Cells(src), src.Length0, src.Length1, i, j)
  {
    ghost var g := Cells(src);
    assert IsImage(g, src.Length0, src.Length1);
    var window := ReadWindowInt(src, i, j);
    b := ProjectAll(window);
    forall k, x, y | 0 <= k < 3 && 0 <= x < BlockSize && 0 <= y < BlockSize
      ensures b.At(k)[x][y] == g[i + x][j + y].At(k) as real
    {
      assert window[x, y] == ToReals(src[i + x, j + y]);
    }
    WindowBlock(g, src.Length0, src.Length1, i, j, b);
  }

  /** Two blocks with equal cells are the same value. */
  lemma BlockExtensional(b: Vector<Mat>, c: Vector<Mat>)
    requires IsBlock(b) && IsBlock(c)
    requires forall k, x, y :: 0 <= k < 3 && 0 <= x < BlockSize && 0 <= y < BlockSize ==> b.At(k)[x][y] == c.At(k)[x][y]
    ensures b == c
  {
    forall k | 0 <= k < 3
      ensures b.elements[k] == c.elements[k]
    {
      RectExtensional(b.At(k), c.At(k), BlockSize, BlockSize);
    }
  }
  /** The blocks before block (a, b), in row-major order, are in place. */
  ghost predicate FilledBefore(result: array2<Vector<Mat>>, g: seq<seq<Vector<int>>>, h: nat, w: nat, a: nat, b: nat)
    requires IsImage(g, h, w)
    reads result
  {
    result.Length0 == h / BlockSize && result.Length1 == w / BlockSize &&
    forall a', b' :: 0 <= a' < h / BlockSize && 0 <= b' < w / BlockSize && (a' < a || (a' == a && b' < b)) ==>
      result[a', b'] == BlockAt(g, h, w, BlockSize * a', BlockSize * b')
  }

  /** Every block in place is the block grid. */
  lemma FilledAll(result: array2<Vector<Mat>>, g: seq<seq<Vector<int>>>, h: nat, w: nat, a: nat)
    requires IsImage(g, h, w) && FilledBefore(result, g, h, w, a, 0) && h / BlockSize <= a
    ensures Cells(result) == Blocks(g, h, w)
  {
    RectExtensional(Cells(result), Blocks(g, h, w), h / BlockSize, w / BlockSize);
  }

  /** The inner loop of SplitToBlocks: the blocks of the row of windows at
      height i, left to right. It fails at the first window that reaches
      past the grid. */
  method ReadBlockRow(src: array2<Color>, result: array2<Vector<Mat>>, i: nat, ghost g: seq<seq<Vector<int>>>)
    returns (ok: bool)
    requires g == Cells(src) && IsImage(g, src.Length0, src.Length1)
    requires i % BlockSize == 0 && i < src.Length0
    requires FilledBefore(result, g, src.Length0, src.Length1, i / BlockSize, 0)
    modifies result
    ensures ok <==> src.Length1 == 0 || (i + BlockSize <= src.Length0 && src.Length1 % BlockSize == 0)
    ensures ok ==> FilledBefore(result, g, src.Length0, src.Length1, i / BlockSize + 1, 0)
  {
    var h, w := src.Length0, src.Length1;
    var j := 0;
    while j < w
      invariant j % BlockSize == 0 && 0 <= j <= w
      invariant j > 0 ==> i + BlockSize <= h
      invariant FilledBefore(result, g, h, w, i / BlockSize, j / BlockSize)
    {
      if i + BlockSize > h || j + BlockSize > w {
        return false;
      }
      var block := ReadBlock(src, i, j);
      result[i / BlockSize, j / BlockSize] := block;
      j := j + BlockSize;
    }
    return true;
  }

  /** The inner loop of SplitToBlocksInt, as ReadBlockRow. */
  method ReadBlockRowInt(src: array2<Triple>, result: array2<Vector<Mat>>, i: nat, ghost g: seq<seq<Vector<int>>>)
    returns (ok: bool)
    requires g == Cells(src) && IsImage(g, src.Length0, src.Length1)
    requires i % BlockSize == 0 && i < src.Length0
    requires FilledBefore(result, g, src.Length0, src.Length1, i / BlockSize, 0)
    modifies result
    ensures ok <==> src.Length1 == 0 || (i + BlockSize <= src.Length0 && src.Length1 % BlockSize == 0)
    ensures ok ==> FilledBefore(result, g, src.Length0, src.Length1, i / BlockSize + 1, 0)
  {
    var h, w := src.Length0, src.Length1;
    var j := 0;
    while j < w
      invariant j % BlockSize == 0 && 0 <= j <= w
      invariant j > 0 ==> i + BlockSize <= h
      invariant FilledBefore(result, g, h, w, i / BlockSize, j / BlockSize)
    {
      if i + BlockSize > h || j + BlockSize > w {
        return false;
      }
      var block := ReadBlockInt(src, i, j);
      result[i / BlockSize, j / BlockSize] := block;
      j := j + BlockSize;
    }
    return true;
  }

  /** `SplitToBlocks(map, 8)`: one block per 8×8 window, in row-major order.
      A dimension that is not a multiple of 8 makes the last window read
      past the grid. */
  method SplitToBlocks(src: array2<Color>) returns (r: Result<array2<Vector<Mat>>>)
    ensures IsImage(Cells(src), src.Length0, src.Length1)
    ensures r.Err? <==> SplitFails(src.Length0, src.Length1)
    ensures r.Err? ==> r.error == IndexOutOfRange
    ensures r.Ok? ==> fresh(r.value) && Cells(r.value) == Blocks(Cells(src), src.Length0, src.Length1)
  {
    var h, w := src.Length0, src.Length1;
    ghost var g := Cells(src);
    assert IsImage(g, h, w);
    var result := new Vector<Mat>[h / BlockSize, w / BlockSize]((_, _) => Vector([]));
    var i := 0;
    while i < h
      invariant i % BlockSize == 0 && 0 <= i
      invariant w > 0 ==> i <= h
      invariant i > 0 && w > 0 ==> w % BlockSize == 0
      invariant g == Cells(src)
      invariant FilledBefore(result, g, h, w, i / BlockSize, 0)
    {
      var ok := ReadBlockRow(src, result, i, g);
      if !ok {
        return Err(IndexOutOfRange);
      }
      i := i + BlockSize;
    }
    FilledAll(result, g, h, w, i / BlockSize);
    return Ok(result);
  }

  /** `SplitToBlocksInt(map, 8)`: one block per 8×8 window, in row-major order.
      A dimension that is not a multiple of 8 makes the last window read
      past the grid. */
  method SplitToBlocksInt(src: array2<Triple>) returns (r: Result<array2<Vector<Mat>>>)
    ensures IsImage(Cells(src), src.Length0, src.Length1)
    ensures r.Err? <==> SplitFails(src.Length0, src.Length1)
    ensures r.Err? ==> r.error == IndexOutOfRange
    ensures r.Ok? ==> fresh(r.value) && Cells(r.value) == Blocks(Cells(src), src.Length0, src.Length1)
  {
    var h, w := src.Length0, src.Length1;
    ghost var g := Cells(src);
    assert IsImage(g, h, w);
    var result := new Vector<Mat>[h / BlockSize, w / BlockSize]((_, _) => Vector([]));
    var i := 0;
    while i < h
      invariant i % BlockSize == 0 && 0 <= i
      invariant w > 0 ==> i <= h
      invariant i > 0 && w > 0 ==> w % BlockSize == 0
      invariant g == Cells(src)
      invariant FilledBefore(result, g, h, w, i / BlockSize, 0)
    {
      var ok := ReadBlockRowInt(src, result, i, g);
      if !ok {
        return Err(IndexOutOfRange);
      }
      i := i + BlockSize;
    }
    FilledAll(result, g, h, w, i / BlockSize);
    return Ok(result);
  }

  /** `vector.Convert(v => Convert.ToInt32(v[i, j]))`: the first channel
      whose coefficient overflows throws. */
  function ToInt32Cell(v: Vector<Mat>, x: nat, y: nat): (r: Result<Triple>)
    requires IsBlock(v) && x < BlockSize && y < BlockSize
    ensures r.Ok? <==> CellFits(v, x, y)
    ensures r.Err? ==> r.error == Overflow
    ensures r.Ok? ==> r.value == Rounded(v, x, y)
  {
    var c0 :- ToInt32(v.At(0)[x][y]);
    var c1 :- ToInt32(v.At(1)[x][y]);
    var c2 :- ToInt32(v.At(2)[x][y]);
    assert Vector([c0, c1, c2]).elements == Rounded(v, x, y).elements;
    Ok(Vector([c0, c1, c2]))
  }

  /** `vector.Convert(v => ConvertToByte(v[i, j]))`. */
  function ToByteCell(v: Vector<Mat>, x: nat, y: nat): (r: Result<Color>)
    requires IsBlock(v) && x < BlockSize && y < BlockSize
    ensures r.Ok? <==> CellFits(v, x, y)
    ensures r.Err? ==> r.error == Overflow
    ensures r.Ok? ==> r.value == RoundedByte(v, x, y)
  {
    var c0 :- ConvertToByte(v.At(0)[x][y]);
    var c1 :- ConvertToByte(v.At(1)[x][y]);
    var c2 :- ConvertToByte(v.At(2)[x][y]);
    assert Rgb(c0, c1, c2).elements == RoundedByte(v, x, y).elements;
    Ok(Rgb(c0, c1, c2))
  }

  /** Cell (x + i, y + j) of the window: `ToInt32Cell` of the block's cell
      (i, j), or the overflow it throws, in which case nothing is written. */
  method PlaceCell(result: array2<Triple>, x: nat, y: nat, v: Vector<Mat>, i: nat, j: nat) returns (o: Outcome)
    requires IsBlock(v) && i < BlockSize && j < BlockSize && x + BlockSize <= result.Length0 && y + BlockSize <= result.Length1
    modifies result
    ensures o.Pass? <==> CellFits(v, i, j)
    ensures o.Fail? ==> o.error == Overflow
    ensures o.Pass? ==> result[x + i, y + j] == Rounded(v, i, j)
    ensures forall p, q :: (0 <= p < result.Length0 && 0 <= q < result.Length1 &&
                            (p != x + i || q != y + j || o.Fail?)) ==> result[p, q] == old(result[p, q])
  {
    var c := ToInt32Cell(v, i, j);
    if c.Err? {
      return Fail(Overflow);
    }
    result[x + i, y + j] := c.value;
    return Pass;
  }

  /** Row i of the window of `PlaceMatrix`: the cells (x + i, y + j) for j
      from 0 to 7, in order; a conversion that overflows throws. Nothing
      outside those cells changes. */
  method PlaceMatrixRow(result: array2<Triple>, x: nat, y: nat, v: Vector<Mat>, i: nat) returns (o: Outcome)
    requires IsBlock(v) && i < BlockSize && x + BlockSize <= result.Length0 && y + BlockSize <= result.Length1
    modifies result
    ensures o.Pass? <==> forall j :: 0 <= j < BlockSize ==> CellFits(v, i, j)
    ensures o.Fail? ==> o.error == Overflow
    ensures o.Pass? ==> forall k :: 0 <= k < BlockSize ==> result[x + i, y + k] == Rounded(v, i, k)
    ensures forall p, q :: (0 <= p < result.Length0 && 0 <= q < result.Length1 &&
                            (p != x + i || q < y || q >= y + BlockSize)) ==> result[p, q] == old(result[p, q])
  {
    for j := 0 to BlockSize
      invariant forall j' :: 0 <= j' < j ==> CellFits(v, i, j')
      invariant forall k :: 0 <= k < j ==> result[x + i, y + k] == Rounded(v, i, k)
      invariant forall p, q :: (0 <= p < result.Length0 && 0 <= q < result.Length1 &&
                                (p != x + i || q < y || q >= y + j)) ==> result[p, q] == old(result[p, q])
    {
      o := PlaceCell(result, x, y, v, i, j);
      if o.Fail? {
        return;
      }
    }
    return Pass;
  }

  /** `PlaceMatrix(result, x, y, vector)`: write the converted cells of one
      block into the 8×8 window at (x, y), row by row; a conversion that
      overflows throws, leaving the cells before it written. Nothing outside
      the window changes. */
  method PlaceMatrix(result: array2<Triple>, x: nat, y: nat, v: Vector<Mat>) returns (o: Outcome)
    requires IsBlock(v) && x + BlockSize <= result.Length0 && y + BlockSize <= result.Length1
    modifies result
    ensures o.Pass? <==> BlockFits(v)
    ensures o.Fail? ==> o.error == Overflow
    ensures o.Pass? ==> forall p, q :: x <= p < x + BlockSize && y <= q < y + BlockSize ==>
      result[p, q] == Rounded(v, p - x, q - y)
    ensures forall p, q :: (0 <= p < result.Length0 && 0 <= q < result.Length1 &&
                            (p < x || p >= x + BlockSize || q < y || q >= y + BlockSize)) ==> result[p, q] == old(result[p, q])
  {
    for i := 0 to BlockSize
      invariant forall i', j' :: 0 <= i' < i && 0 <= j' < BlockSize ==> CellFits(v, i', j')
      invariant forall p, q :: x <= p < x + i && y <= q < y + BlockSize ==> result[p, q] == Rounded(v, p - x, q - y)
      invariant forall p, q :: (0 <= p < result.Length0 && 0 <= q < result.Length1 &&
                                (p < x || p >= x + i || q < y || q >= y + BlockSize)) ==> result[p, q] == old(result[p, q])
    {
      o := PlaceMatrixRow(result, x, y, v, i);
      if o.Fail? {
        return;
      }
    }
    return Pass;
  }

  /** Cell (x + i, y + j) of the window: `ToByteCell` of the block's cell
      (i, j), or the overflow it throws, in which case nothing is written. */
  method PlaceByteCell(result: array2<Color>, x: nat, y: nat, v: Vector<Mat>, i: nat, j: nat) returns (o: Outcome)
    requires IsBlock(v) && i < BlockSize && j < BlockSize && x + BlockSize <= result.Length0 && y + BlockSize <= result.Length1
    modifies result
    ensures o.Pass? <==> CellFits(v, i, j)
    ensures o.Fail? ==> o.error == Overflow
    ensures o.Pass? ==> result[x + i, y + j] == RoundedByte(v, i, j)
    ensures forall p, q :: (0 <= p < result.Length0 && 0 <= q < result.Length1 &&
                            (p != x + i || q != y + j || o.Fail?)) ==> result[p, q] == old(result[p, q])
  {
    var c := ToByteCell(v, i, j);
    if c.Err? {
      return Fail(Overflow);
    }
    result[x + i, y + j] := c.value;
    return Pass;
  }

  /** Row i of the window of `PlaceMatrixByte`: the cells (x + i, y + j) for j
      from 0 to 7, in order; a conversion that overflows throws. Nothing
      outside those cells changes. */
  method PlaceMatrixByteRow(result: array2<Color>, x: nat, y: nat, v: Vector<Mat>, i: nat) returns (o: Outcome)
    requires IsBlock(v) && i < BlockSize && x + BlockSize <= result.Length0 && y + BlockSize <= result.Length1
    modifies result
    ensures o.Pass? <==> forall j :: 0 <= j < BlockSize ==> CellFits(v, i, j)
    ensures o.Fail? ==> o.error == Overflow
    ensures o.Pass? ==> forall k :: 0 <= k < BlockSize ==> result[x + i, y + k] == RoundedByte(v, i, k)
    ensures forall p, q :: (0 <= p < result.Length0 && 0 <= q < result.Length1 &&
                            (p != x + i || q < y || q >= y + BlockSize)) ==> result[p, q] == old(result[p, q])
  {
    for j := 0 to BlockSize
      invariant forall j' :: 0 <= j' < j ==> CellFits(v, i, j')
      invariant forall k :: 0 <= k < j ==> result[x + i, y + k] == RoundedByte(v, i, k)
      invariant forall p, q :: (0 <= p < result.Length0 && 0 <= q < result.Length1 &&
                                (p != x + i || q < y || q >= y + j)) ==> result[p, q] == old(result[p, q])
    {
      o := PlaceByteCell(result, x, y, v, i, j);
      if o.Fail? {
        return;
      }
    }
    return Pass;
  }

  /** `PlaceMatrixByte(result, x, y, vector)`: write the converted cells of one
      block into the 8×8 window at (x, y), row by row; a conversion that
      overflows throws, leaving the cells before it written. Nothing outside
      the window changes. */
  method PlaceMatrixByte(result: array2<Color>, x: nat, y: nat, v: Vector<Mat>) returns (o: Outcome)
    requires IsBlock(v) && x + BlockSize <= result.Length0 && y + BlockSize <= result.Length1
    modifies result
    ensures o.Pass? <==> BlockFits(v)
    ensures o.Fail? ==> o.error == Overflow
    ensures o.Pass? ==> forall p, q :: x <= p < x + BlockSize && y <= q < y + BlockSize ==>
      result[p, q] == RoundedByte(v, p - x, q - y)
    ensures forall p, q :: (0 <= p < result.Length0 && 0 <= q < result.Length1 &&
                            (p < x || p >= x + BlockSize || q < y || q >= y + BlockSize)) ==> result[p, q] == old(result[p, q])
  {
    for i := 0 to BlockSize
      invariant forall i', j' :: 0 <= i' < i && 0 <= j' < BlockSize ==> CellFits(v, i', j')
      invariant forall p, q :: x <= p < x + i && y <= q < y + BlockSize ==> result[p, q] == RoundedByte(v, p - x, q - y)
      invariant forall p, q :: (0 <= p < result.Length0 && 0 <= q < result.Length1 &&
                                (p < x || p >= x + i || q < y || q >= y + BlockSize)) ==> result[p, q] == old(result[p, q])
    {
      o := PlaceMatrixByteRow(result, x, y, v, i);
      if o.Fail? {
        return;
      }
    }
    return Pass;
  }

  /** A coordinate in the window of block i, and its offset in the window. */
  lemma WindowCell(p: int, i: nat)
    requires i * BlockSize <= p < i * BlockSize + BlockSize
    ensures p / BlockSize == i && p % BlockSize == p - i * BlockSize
  {
    DivUnique(p, BlockSize, i, p - i * BlockSize);
  }

  /** `Flatten(matrices)`: an (8n)×(8m) grid with each block's converted
      cells in its window; it throws when any coefficient overflows. */
  method Flatten(matrices: array2<Vector<Mat>>) returns (r: Result<array2<Triple>>)
    requires IsBlockGrid(Cells(matrices), matrices.Length0, matrices.Length1)
    ensures r.Err? <==> !Fits(Cells(matrices), matrices.Length0, matrices.Length1)
    ensures r.Err? ==> r.error == Overflow
    ensures r.Ok? ==> fresh(r.value) && Cells(r.value) == Flattened(Cells(matrices), matrices.Length0, matrices.Length1)
  {
    var n, m := matrices.Length0, matrices.Length1;
    ghost var bs := Cells(matrices);
    var result := new Triple[n * BlockSize, m * BlockSize]((_, _) => Vector([0, 0, 0]));
    for i := 0 to n
      invariant forall a, b :: 0 <= a < i && 0 <= b < m ==> BlockFits(bs[a][b])
      invariant forall p, q :: 0 <= p < BlockSize * i && 0 <= q < BlockSize * m ==>
        result[p, q] == Rounded(bs[p / BlockSize][q / BlockSize], p % BlockSize, q % BlockSize)
    {
      var o := FlattenBand(matrices, result, i);
      assert Cells(matrices) == bs;
      if o.Fail? {
        return Err(Overflow);
      }
    }
    RectExtensional(Cells(result), Flattened(bs, n, m), n * BlockSize, m * BlockSize);
    return Ok(result);
  }

  /** Band i of blocks of `Flatten`: blocks (i, 0) … (i, m − 1), left to right,
      into the band of pixel rows 8i … 8i + 7; a block that overflows throws.
      Nothing outside the band changes. */
  method FlattenBand(matrices: array2<Vector<Mat>>, result: array2<Triple>, i: nat) returns (o: Outcome)
    requires IsBlockGrid(Cells(matrices), matrices.Length0, matrices.Length1) && i < matrices.Length0
    requires result.Length0 == matrices.Length0 * BlockSize && result.Length1 == matrices.Length1 * BlockSize
    modifies result
    ensures o.Pass? <==> forall b :: 0 <= b < matrices.Length1 ==> BlockFits(Cells(matrices)[i][b])
    ensures o.Pass? ==> forall p, q :: BlockSize * i <= p < BlockSize * i + BlockSize && 0 <= q < BlockSize * matrices.Length1 ==>
      p / BlockSize == i && result[p, q] == Rounded(Cells(matrices)[i][q / BlockSize], p % BlockSize, q % BlockSize)
    ensures forall p, q :: 0 <= p < result.Length0 && 0 <= q < result.Length1 && (p < BlockSize * i || p >= BlockSize * i + BlockSize) ==>
      result[p, q] == old(result[p, q])
  {
    var m := matrices.Length1;
    ghost var bs := Cells(matrices);
    for j := 0 to m
      invariant forall b :: 0 <= b < j ==> BlockFits(bs[i][b])
      invariant forall p, q :: BlockSize * i <= p < BlockSize * i + BlockSize && 0 <= q < BlockSize * j ==>
        p / BlockSize == i && result[p, q] == Rounded(bs[i][q / BlockSize], p % BlockSize, q % BlockSize)
      invariant forall p, q :: 0 <= p < result.Length0 && 0 <= q < result.Length1 && (p < BlockSize * i || p >= BlockSize * i + BlockSize) ==>
        result[p, q] == old(result[p, q])
    {
      assert matrices[i, j] == bs[i][j];
      var o := PlaceMatrix(result, i * BlockSize, j * BlockSize, matrices[i, j]);
      assert Cells(matrices) == bs;
      if o.Fail? {
        assert !BlockFits(Cells(matrices)[i][j]);
        return Fail(Overflow);
      }
      forall p, q | i * BlockSize <= p < i * BlockSize + BlockSize && j * BlockSize <= q < j * BlockSize + BlockSize
        ensures p / BlockSize == i && q / BlockSize == j
        ensures result[p, q] == Rounded(bs[i][q / BlockSize], p % BlockSize, q % BlockSize)
      {
        WindowCell(p, i);
        WindowCell(q, j);
      }
    }
    return Pass;
  }

  /** `FlattenByte(matrices)`: an (8n)×(8m) grid with each block's converted
      cells in its window; it throws when any coefficient overflows. */
  method FlattenByte(matrices: array2<Vector<Mat>>) returns (r: Result<array2<Color>>)
    requires IsBlockGrid(Cells(matrices), matrices.Length0, matrices.Length1)
    ensures r.Err? <==> !Fits(Cells(matrices), matrices.Length0, matrices.Length1)
    ensures r.Err? ==> r.error == Overflow
    ensures r.Ok? ==> fresh(r.value) && Cells(r.value) == FlattenedBytes(Cells(matrices), matrices.Length0, matrices.Length1)
  {
    var n, m := matrices.Length0, matrices.Length1;
    ghost var bs := Cells(matrices);
    var result := new Color[n * BlockSize, m * BlockSize]((_, _) => Rgb(0, 0, 0));
    for i := 0 to n
      invariant forall a, b :: 0 <= a < i && 0 <= b < m ==> BlockFits(bs[a][b])
      invariant forall p, q :: 0 <= p < BlockSize * i && 0 <= q < BlockSize * m ==>
        result[p, q] == RoundedByte(bs[p / BlockSize][q / BlockSize], p % BlockSize, q % BlockSize)
    {
      var o := FlattenByteBand(matrices, result, i);
      assert Cells(matrices) == bs;
      if o.Fail? {
        return Err(Overflow);
      }
    }
    RectExtensional(Cells(result), FlattenedBytes(bs, n, m), n * BlockSize, m * BlockSize);
    return Ok(result);
  }

  /** Band i of blocks of `FlattenByte`: blocks (i, 0) … (i, m − 1), left to right,
      into the band of pixel rows 8i … 8i + 7; a block that overflows throws.
      Nothing outside the band changes. */
  method FlattenByteBand(matrices: array2<Vector<Mat>>, result: array2<Color>, i: nat) returns (o: Outcome)
    requires IsBlockGrid(Cells(matrices), matrices.Length0, matrices.Length1) && i < matrices.Length0
    requires result.Length0 == matrices.Length0 * BlockSize && result.Length1 == matrices.Length1 * BlockSize
    modifies result
    ensures o.Pass? <==> forall b :: 0 <= b < matrices.Length1 ==> BlockFits(Cells(matrices)[i][b])
    ensures o.Pass? ==> forall p, q :: BlockSize * i <= p < BlockSize * i + BlockSize && 0 <= q < BlockSize * matrices.Length1 ==>
      p / BlockSize == i && result[p, q] == RoundedByte(Cells(matrices)[i][q / BlockSize], p % BlockSize, q % BlockSize)
    ensures forall p, q :: 0 <= p < result.Length0 && 0 <= q < result.Length1 && (p < BlockSize * i || p >= BlockSize * i + BlockSize) ==>
      result[p, q] == old(result[p, q])
  {
    var m := matrices.Length1;
    ghost var bs := Cells(matrices);
    for j := 0 to m
      invariant forall b :: 0 <= b < j ==> BlockFits(bs[i][b])
      invariant forall p, q :: BlockSize * i <= p < BlockSize * i + BlockSize && 0 <= q < BlockSize * j ==>
        p / BlockSize == i && result[p, q] == RoundedByte(bs[i][q / BlockSize], p % BlockSize, q % BlockSize)
      invariant forall p, q :: 0 <= p < result.Length0 && 0 <= q < result.Length1 && (p < BlockSize * i || p >= BlockSize * i + BlockSize) ==>
        result[p, q] == old(result[p, q])
    {
      assert matrices[i, j] == bs[i][j];
      var o := PlaceMatrixByte(result, i * BlockSize, j * BlockSize, matrices[i, j]);
      assert Cells(matrices) == bs;
      if o.Fail? {
        assert !BlockFits(Cells(matrices)[i][j]);
        return Fail(Overflow);
      }
      forall p, q | i * BlockSize <= p < i * BlockSize + BlockSize && j * BlockSize <= q < j * BlockSize + BlockSize
        ensures p / BlockSize == i && q / BlockSize == j
        ensures result[p, q] == RoundedByte(bs[i][q / BlockSize], p % BlockSize, q % BlockSize)
      {
        WindowCell(p, i);
        WindowCell(q, j);
      }
    }
    return Pass;
  }
}
