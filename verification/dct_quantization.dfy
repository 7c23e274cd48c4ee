/** Coefficient quantization of the DCT codec (DctAlgorithm.QuantizeMatrices,
    DequantizeMatrices, QuantizeByMatrices, DequantizeByMatrices,
    GetQuantizationMatrix, QuantizeLargest, DefaultMatrixY/C). Blocks are
    quantized in place in their grid `Vector<Matrix>[,]`. */
module DctQuantization {
  import opened Common
  import opened Vectors
  import opened Grids
  import opened Matrices
  import opened DctParams
  import opened DctBlocks

  /** The number of coefficients in one channel of a block. */
  const BlockCells: nat := 64

  // ---------------------------------------------------------------------
  // Quantization tables

  /** Entry (i, j) of a generated table: α·(1 + γ·(i + j + 2)) in unchecked
      int arithmetic, then widened to a double. */
  function QuantizationEntry(g: MatrixGenerators, i: nat, j: nat): real
  {
    Wrap32(g.alpha * (1 + g.gamma * (i + j + 2))) as real
  }

  /** The 8×8 table GetQuantizationMatrix fills: each entry depends only on
      i + j, so the table is symmetric. */
  function QuantizationTable(g: MatrixGenerators): (q: Mat)
    ensures IsRect(q, BlockSize, BlockSize)
    ensures forall i, j :: 0 <= i < BlockSize && 0 <= j < BlockSize ==> q[i][j] == QuantizationEntry(g, i, j)
    ensures forall i, j, i', j' :: (0 <= i < BlockSize && 0 <= j < BlockSize && 0 <= i' < BlockSize && 0 <= j' < BlockSize &&
                                    i + j == i' + j') ==> q[i][j] == q[i'][j']
    ensures forall i, j :: 0 <= i < BlockSize && 0 <= j < BlockSize ==> q[i][j] == q[j][i]
  {
    seq(BlockSize, i requires 0 <= i < BlockSize =>
      seq(BlockSize, j requires 0 <= j < BlockSize => QuantizationEntry(g, i, j)))
  }

  /** For α > 0 and γ ≥ 0, α·(1 + γ·s) grows with s and stays below its value at 16. */
  lemma GeneratedGrowth(alpha: int, gamma: int, s: nat, t: nat)
    requires alpha > 0 && gamma >= 0 && s <= t <= 16
    ensures alpha <= alpha * (1 + gamma * s) <= alpha * (1 + gamma * t) <= alpha * (1 + gamma * 16)
  {
    MulLeft(s, t, gamma);
    MulLeft(t, 16, gamma);
    MulLeft(1 + gamma * s, 1 + gamma * t, alpha);
    MulLeft(1 + gamma * t, 1 + gamma * 16, alpha);
    MulLeft(1, 1 + gamma * s, alpha);
  }

  /** With α > 0, γ ≥ 0 and no overflow at the far corner, the generated
      divisors are at least α and grow towards the high frequencies. */
  lemma QuantizationTableGrows(g: MatrixGenerators)
    requires g.alpha > 0 && g.gamma >= 0 && g.alpha * (1 + g.gamma * 16) <= INT32_MAX
    ensures var q := QuantizationTable(g);
      (forall i, j :: 0 <= i < BlockSize && 0 <= j < BlockSize ==> q[i][j] >= g.alpha as real) &&
      (forall i, j, i', j' :: (0 <= i < BlockSize && 0 <= j < BlockSize && 0 <= i' < BlockSize && 0 <= j' < BlockSize &&
                               i + j <= i' + j') ==> q[i][j] <= q[i'][j'])
  {
    var q := QuantizationTable(g);
    forall i, j | 0 <= i < BlockSize && 0 <= j < BlockSize
      ensures q[i][j] >= g.alpha as real
    {
      EntryGrows(g, i, j, i, j);
    }
    forall i, j, i', j' | (0 <= i < BlockSize && 0 <= j < BlockSize && 0 <= i' < BlockSize && 0 <= j' < BlockSize &&
                           i + j <= i' + j')
      ensures q[i][j] <= q[i'][j']
    {
      EntryGrows(g, i, j, i', j');
    }
  }

  /** Two entries of a generated table without overflow, the second at least
      as far from the corner (0, 0) as the first. */
  lemma EntryGrows(g: MatrixGenerators, i: nat, j: nat, i': nat, j': nat)
    requires g.alpha > 0 && g.gamma >= 0 && g.alpha * (1 + g.gamma * 16) <= INT32_MAX
    requires i < BlockSize && j < BlockSize && i' < BlockSize && j' < BlockSize && i + j <= i' + j'
    ensures g.alpha as real <= QuantizationEntry(g, i, j) <= QuantizationEntry(g, i', j')
  {
    var s, t := i + j + 2, i' + j' + 2;
    GeneratedGrowth(g.alpha, g.gamma, s, t);
    var x, y := g.alpha * (1 + g.gamma * s), g.alpha * (1 + g.gamma * t);
    assert Wrap32(x) == x && Wrap32(y) == y;
  }

  /** `GetQuantizationMatrix(generators)`: a fresh 8×8 matrix filled with the
      generated table. */
  method GetQuantizationMatrix(g: MatrixGenerators) returns (result: Matrix)
    ensures fresh(result.arr)
    ensures result.Contents() == QuantizationTable(g)
  {
    result := new Matrix.Zero(BlockSize, BlockSize);
    for i := 0 to BlockSize
      invariant result.N() == BlockSize && result.M() == BlockSize
      invariant forall a, b :: 0 <= a < i && 0 <= b < BlockSize ==> result.arr[a, b] == QuantizationEntry(g, a, b)
    {
      for j := 0 to BlockSize
        invariant forall a, b :: 0 <= b < BlockSize && (0 <= a < i || (a == i && b < j)) ==>
          result.arr[a, b] == QuantizationEntry(g, a, b)
      {
        var _ := result.Set(i, j, QuantizationEntry(g, i, j));
      }
    }
    RectExtensional(result.Contents(), QuantizationTable(g), BlockSize, BlockSize);
  }

  /** ITU-T T.81 Annex K, Table K.1: the luminance quantization table. */
  const DefaultMatrixY: Mat := [
    [16.0, 11.0, 10.0, 16.0, 24.0, 40.0, 51.0, 61.0],
    [12.0, 12.0, 14.0, 19.0, 26.0, 58.0, 60.0, 55.0],
    [14.0, 13.0, 16.0, 24.0, 40.0, 57.0, 69.0, 56.0],
    [14.0, 17.0, 22.0, 29.0, 51.0, 87.0, 80.0, 62.0],
    [18.0, 22.0, 37.0, 56.0, 68.0, 109.0, 103.0, 77.0],
    [24.0, 35.0, 55.0, 64.0, 81.0, 104.0, 113.0, 92.0],
    [49.0, 64.0, 78.0, 87.0, 103.0, 121.0, 120.0, 101.0],
    [72.0, 92.0, 95.0, 98.0, 112.0, 100.0, 103.0, 99.0]]

  /** ITU-T T.81 Annex K, Table K.2: the chrominance quantization table. */
  const DefaultMatrixC: Mat := [
    [17.0, 18.0, 24.0, 47.0, 99.0, 99.0, 99.0, 99.0],
    [18.0, 21.0, 26.0, 66.0, 99.0, 99.0, 99.0, 99.0],
    [24.0, 26.0, 56.0, 99.0, 99.0, 99.0, 99.0, 99.0],
    [47.0, 66.0, 99.0, 99.0, 99.0, 99.0, 99.0, 99.0],
    [99.0, 99.0, 99.0, 99.0, 99.0, 99.0, 99.0, 99.0],
    [99.0, 99.0, 99.0, 99.0, 99.0, 99.0, 99.0, 99.0],
    [99.0, 99.0, 99.0, 99.0, 99.0, 99.0, 99.0, 99.0],
    [99.0, 99.0, 99.0, 99.0, 99.0, 99.0, 99.0, 99.0]]

  /** An 8×8 table of strictly positive divisors. */
  ghost predicate PositiveTable(q: Mat)
  {
    IsRect(q, BlockSize, BlockSize) && forall i, j :: 0 <= i < BlockSize && 0 <= j < BlockSize ==> q[i][j] > 0.0
  }

  /** Both default tables are 8×8 with every divisor at least 10. */
  lemma DefaultTablesPositive()
    ensures PositiveTable(DefaultMatrixY) && PositiveTable(DefaultMatrixC)
    ensures forall i, j :: 0 <= i < BlockSize && 0 <= j < BlockSize ==> DefaultMatrixY[i][j] >= 10.0 && DefaultMatrixC[i][j] >= 17.0
  {
    forall i, j | 0 <= i < BlockSize && 0 <= j < BlockSize
      ensures DefaultMatrixY[i][j] >= 10.0 && DefaultMatrixC[i][j] >= 17.0
    {
      var ry, rc := DefaultMatrixY[i], DefaultMatrixC[i];
      assert forall t :: 0 <= t < BlockSize ==> ry[t] >= 10.0 && rc[t] >= 17.0;
    }
  }

  // ---------------------------------------------------------------------
  // Quantization by matrices

  /** The table for channel k: luma (Y) for channel 0, chroma (C) for 1 and 2. */
  function TableFor(k: nat, y: Mat, c: Mat): Mat
  {
    if k == 0 then y else c
  }

  /** An 8×8 table with no zero divisor. */
  ghost predicate NonZeroTable(q: Mat)
  {
    IsRect(q, BlockSize, BlockSize) && forall i, j :: 0 <= i < BlockSize && 0 <= j < BlockSize ==> q[i][j] != 0.0
  }

  /** One block after `block[k] = block[k] / table` for each channel. */
  function QuantizedBlock(b: Vector<Mat>, y: Mat, c: Mat): (r: Vector<Mat>)
    requires IsBlock(b) && NonZeroTable(y) && NonZeroTable(c)
    ensures IsBlock(r)
    ensures forall k :: 0 <= k < 3 ==> r.At(k) == Quotient(b.At(k), TableFor(k, y, c), BlockSize, BlockSize)
  {
    b.Update(0, Quotient(b.At(0), y, BlockSize, BlockSize))
     .Update(1, Quotient(b.At(1), c, BlockSize, BlockSize))
     .Update(2, Quotient(b.At(2), c, BlockSize, BlockSize))
  }

  /** One block after `block[k] = block[k] % table` for each channel. */
  function DequantizedBlock(b: Vector<Mat>, y: Mat, c: Mat): (r: Vector<Mat>)
    requires IsBlock(b) && IsRect(y, BlockSize, BlockSize) && IsRect(c, BlockSize, BlockSize)
    ensures IsBlock(r)
    ensures forall k :: 0 <= k < 3 ==> r.At(k) == RoundProduct(b.At(k), TableFor(k, y, c), BlockSize, BlockSize)
  {
    b.Update(0, RoundProduct(b.At(0), y, BlockSize, BlockSize))
     .Update(1, RoundProduct(b.At(1), c, BlockSize, BlockSize))
     .Update(2, RoundProduct(b.At(2), c, BlockSize, BlockSize))
  }

  /** Quantizing and dequantizing with positive tables moves each
      coefficient by at most half its divisor plus one half. */
  lemma QuantizeDequantizeBlock(b: Vector<Mat>, y: Mat, c: Mat)
    requires IsBlock(b) && PositiveTable(y) && PositiveTable(c)
    ensures NonZeroTable(y) && NonZeroTable(c)
    ensures var d := DequantizedBlock(QuantizedBlock(b, y, c), y, c);
      forall k, i, j :: 0 <= k < 3 && 0 <= i < BlockSize && 0 <= j < BlockSize ==>
        b.At(k)[i][j] - TableFor(k, y, c)[i][j] / 2.0 - 0.5 <= d.At(k)[i][j] <= b.At(k)[i][j] + TableFor(k, y, c)[i][j] / 2.0 + 0.5
  {
    var d := DequantizedBlock(QuantizedBlock(b, y, c), y, c);
    forall k, i, j | 0 <= k < 3 && 0 <= i < BlockSize && 0 <= j < BlockSize
      ensures b.At(k)[i][j] - TableFor(k, y, c)[i][j] / 2.0 - 0.5 <= d.At(k)[i][j] <= b.At(k)[i][j] + TableFor(k, y, c)[i][j] / 2.0 + 0.5
    {
      QuantizeDequantizeError(b.At(k)[i][j], TableFor(k, y, c)[i][j]);
    }
  }

  /** `QuantizeByMatrices(appliedDct, matrixY, matrixC)`: every block of the
      grid is quantized in place. */
  method QuantizeByMatrices(blocks: array2<Vector<Mat>>, y: Mat, c: Mat)
    requires IsBlockGrid(Cells(blocks), blocks.Length0, blocks.Length1)
    requires NonZeroTable(y) && NonZeroTable(c)
    modifies blocks
    ensures forall a, b :: 0 <= a < blocks.Length0 && 0 <= b < blocks.Length1 ==>
      IsBlock(old(blocks[a, b])) && blocks[a, b] == QuantizedBlock(old(blocks[a, b]), y, c)
  {
    for i := 0 to blocks.Length0
      invariant forall a, b :: 0 <= a < blocks.Length0 && 0 <= b < blocks.Length1 ==> IsBlock(old(blocks[a, b]))
      invariant forall a, b :: 0 <= a < blocks.Length0 && 0 <= b < blocks.Length1 ==>
        blocks[a, b] == if a < i then QuantizedBlock(old(blocks[a, b]), y, c) else old(blocks[a, b])
    {
      for j := 0 to blocks.Length1
        invariant forall a, b :: 0 <= a < blocks.Length0 && 0 <= b < blocks.Length1 ==>
          blocks[a, b] == if a < i || (a == i && b < j) then QuantizedBlock(old(blocks[a, b]), y, c) else old(blocks[a, b])
      {
        blocks[i, j] := QuantizedBlock(blocks[i, j], y, c);
      }
    }
  }

  /** `DequantizeByMatrices(appliedDct, matrixY, matrixC)`: every block of
      the grid is dequantized in place. */
  method DequantizeByMatrices(blocks: array2<Vector<Mat>>, y: Mat, c: Mat)
    requires IsBlockGrid(Cells(blocks), blocks.Length0, blocks.Length1)
    requires IsRect(y, BlockSize, BlockSize) && IsRect(c, BlockSize, BlockSize)
    modifies blocks
    ensures forall a, b :: 0 <= a < blocks.Length0 && 0 <= b < blocks.Length1 ==>
      IsBlock(old(blocks[a, b])) && blocks[a, b] == DequantizedBlock(old(blocks[a, b]), y, c)
  {
    for i := 0 to blocks.Length0
      invariant forall a, b :: 0 <= a < blocks.Length0 && 0 <= b < blocks.Length1 ==> IsBlock(old(blocks[a, b]))
      invariant forall a, b :: 0 <= a < blocks.Length0 && 0 <= b < blocks.Length1 ==>
        blocks[a, b] == if a < i then DequantizedBlock(old(blocks[a, b]), y, c) else old(blocks[a, b])
    {
      for j := 0 to blocks.Length1
        invariant forall a, b :: 0 <= a < blocks.Length0 && 0 <= b < blocks.Length1 ==>
          blocks[a, b] == if a < i || (a == i && b < j) then DequantizedBlock(old(blocks[a, b]), y, c) else old(blocks[a, b])
      {
        blocks[i, j] := DequantizedBlock(blocks[i, j], y, c);
      }
    }
  }

  // ---------------------------------------------------------------------
  // Keeping the largest N coefficients

  /** The coefficient at position pos = 8·x + y of a channel matrix. */
  function Entry(m: Mat, pos: nat): real
    requires IsRect(m, BlockSize, BlockSize) && pos < BlockCells
  {
    m[pos / BlockSize][pos % BlockSize]
  }

  /** Every entry rounded half to even (Math.Round). */
  function RoundedMat(m: Mat): (r: Mat)
    requires IsRect(m, BlockSize, BlockSize)
    ensures IsRect(r, BlockSize, BlockSize)
    ensures forall x, y :: 0 <= x < BlockSize && 0 <= y < BlockSize ==> r[x][y] == RoundHalfEven(m[x][y]) as real
  {
    seq(BlockSize, x requires 0 <= x < BlockSize =>
      seq(BlockSize, y requires 0 <= y < BlockSize => RoundHalfEven(m[x][y]) as real))
  }

  /** r is m with the positions in `zeroed` set to 0, and no zeroed value
      exceeds a kept one: `zeroed` could be the first |zeroed| positions of
      an ascending sort of m's values. */
  ghost predicate ZeroedBy(m: Mat, r: Mat, zeroed: set<int>)
  {
    IsRect(m, BlockSize, BlockSize) && IsRect(r, BlockSize, BlockSize) &&
    (forall p :: p in zeroed ==> 0 <= p < BlockCells) &&
    (forall p :: 0 <= p < BlockCells ==> Entry(r, p) == if p in zeroed then 0.0 else Entry(m, p)) &&
    (forall p, q :: p in zeroed && 0 <= q < BlockCells && q !in zeroed ==> Entry(m, p) <= Entry(m, q))
  }

  /** The number of entries `for (z = 0; z < 64 - n; ++z)` zeroes, with
      `64 - n` computed in unchecked int arithmetic. */
  function ZeroCount(n: int32): int32
  {
    Wrap32(BlockCells - n)
  }

  /** What QuantizeLargest leaves in one channel with coefficient count n:
      the rounded matrix with a set of max(0, 64 - n) smallest values zeroed. */
  ghost predicate KeepsLargest(m: Mat, r: Mat, n: int32)
  {
    IsRect(m, BlockSize, BlockSize) &&
    exists zeroed: set<int> :: |zeroed| == (if ZeroCount(n) < 0 then 0 else ZeroCount(n)) &&
      ZeroedBy(RoundedMat(m), r, zeroed)
  }

  /** How the coefficient count n decides the outcome: 0 ≤ n ≤ 64 zeroes
      64 - n entries; n > 64 zeroes nothing; a negative n asks for more than
      64 entries and indexes past the list, except that for n below
      64 - INT32_MAX the subtraction wraps to a negative count and nothing
      is zeroed. */
  lemma ZeroCountCases(n: int32)
    ensures 0 <= n <= 64 ==> ZeroCount(n) == 64 - n
    ensures n > 64 ==> ZeroCount(n) < 0
    ensures 64 - INT32_MAX <= n < 0 ==> ZeroCount(n) > 64
    ensures n < 64 - INT32_MAX ==> ZeroCount(n) < 0
  {
  }

  /** A set of positions below n with fewer than n elements misses one. */
  lemma MissingPosition(zeroed: set<int>, n: nat)
    requires forall p :: p in zeroed ==> 0 <= p < n
    requires |zeroed| < n
    ensures exists q :: 0 <= q < n && q !in zeroed
  {
    var missing := Range(n) - zeroed;
    assert Range(n) == zeroed + missing;
    var q :| q in missing;
  }

  /** The kept positions: those not zeroed. */
  ghost function Kept(zeroed: set<int>): set<int>
  {
    Range(BlockCells) - zeroed
  }

  /** There are 64 - |zeroed| kept positions. */
  lemma KeptSize(zeroed: set<int>)
    requires forall p :: p in zeroed ==> 0 <= p < BlockCells
    ensures |Kept(zeroed)| == BlockCells - |zeroed|
  {
    assert Range(BlockCells) == Kept(zeroed) + zeroed;
  }

  /** Under ZeroedBy, at most 64 - |zeroed| entries of r are nonzero. */
  lemma AtMostKeptNonzero(m: Mat, r: Mat, zeroed: set<int>)
    requires ZeroedBy(m, r, zeroed)
    ensures |set p | 0 <= p < BlockCells && Entry(r, p) != 0.0| <= BlockCells - |zeroed|
  {
    var nonzero := set p | 0 <= p < BlockCells && Entry(r, p) != 0.0;
    forall p | p in nonzero
      ensures p in Kept(zeroed)
    {
      assert p !in zeroed;
    }
    KeptSize(zeroed);
    SubsetSize(nonzero, Kept(zeroed));
  }

  lemma SubsetSize(a: set<int>, b: set<int>)
    requires a <= b
    ensures |a| <= |b|
  {
    assert b == a + (b - a);
  }

  /** The next position the ascending sort would put first among those not
      yet zeroed: a smallest remaining value (the first such in row-major
      order; the list sort may break ties differently). */
  method SmallestRemaining(m: Mat, zeroed: set<int>) returns (best: nat)
    requires IsRect(m, BlockSize, BlockSize)
    requires forall p :: p in zeroed ==> 0 <= p < BlockCells
    requires |zeroed| < BlockCells
    ensures best < BlockCells && best !in zeroed
    ensures forall q :: 0 <= q < BlockCells && q !in zeroed ==> Entry(m, best) <= Entry(m, q)
  {
    MissingPosition(zeroed, BlockCells);
    var found := false;
    best := 0;
    for pos := 0 to BlockCells
      invariant found ==> best < pos && best !in zeroed
      invariant found ==> forall q :: 0 <= q < pos && q !in zeroed ==> Entry(m, best) <= Entry(m, q)
      invariant !found ==> forall q :: 0 <= q < pos ==> q in zeroed
    {
      if pos !in zeroed && (!found || Entry(m, pos) < Entry(m, best)) {
        best := pos;
        found := true;
      }
    }
  }

  /** Zeroing one more smallest remaining position keeps ZeroedBy. */
  lemma ZeroOneMore(m: Mat, r: Mat, zeroed: set<int>, best: nat)
    requires ZeroedBy(m, r, zeroed)
    requires best < BlockCells && best !in zeroed
    requires forall q :: 0 <= q < BlockCells && q !in zeroed ==> Entry(m, best) <= Entry(m, q)
    ensures ZeroedBy(m, r[best / BlockSize := r[best / BlockSize][best % BlockSize := 0.0]], zeroed + {best})
  {
    var r' := r[best / BlockSize := r[best / BlockSize][best % BlockSize := 0.0]];
    forall p | 0 <= p < BlockCells
      ensures Entry(r', p) == if p in zeroed + {best} then 0.0 else Entry(m, p)
    {
      if p != best {
        assert p / BlockSize != best / BlockSize || p % BlockSize != best % BlockSize;
      }
    }
  }

  /** The sort-and-zero step for one channel: zero `count` smallest entries. */
  method ZeroSmallest(m: Mat, count: nat) returns (r: Mat, ghost zeroed: set<int>)
    requires IsRect(m, BlockSize, BlockSize) && count <= BlockCells
    ensures |zeroed| == count && ZeroedBy(m, r, zeroed)
  {
    r := m;
    var chosen: set<int> := {};
    for z := 0 to count
      invariant |chosen| == z && ZeroedBy(m, r, chosen)
    {
      var best := SmallestRemaining(m, chosen);
      ZeroOneMore(m, r, chosen, best);
      r := r[best / BlockSize := r[best / BlockSize][best % BlockSize := 0.0]];
      chosen := chosen + {best};
    }
    zeroed := chosen;
  }

  /** The rounding loop: every entry of the channel rounded in place. */
  method RoundEntries(m: Mat) returns (r: Mat)
    requires IsRect(m, BlockSize, BlockSize)
    ensures r == RoundedMat(m)
  {
    r := m;
    for x := 0 to BlockSize
      invariant IsRect(r, BlockSize, BlockSize)
      invariant forall x', y :: 0 <= x' < BlockSize && 0 <= y < BlockSize ==>
        r[x'][y] == if x' < x then RoundHalfEven(m[x'][y]) as real else m[x'][y]
    {
      for y := 0 to BlockSize
        invariant IsRect(r, BlockSize, BlockSize)
        invariant forall x', y' :: 0 <= x' < BlockSize && 0 <= y' < BlockSize ==>
          r[x'][y'] == if x' < x || (x' == x && y' < y) then RoundHalfEven(m[x'][y']) as real else m[x'][y']
      {
        r := r[x := r[x][y := RoundHalfEven(r[x][y]) as real]];
      }
    }
    RectExtensional(r, RoundedMat(m), BlockSize, BlockSize);
  }

  /** One channel of QuantizeLargest with coefficient count n: round, then
      zero the 64 - n smallest values; more than 64 to zero throws. */
  method KeepLargest(m: Mat, n: int32) returns (r: Result<Mat>)
    requires IsRect(m, BlockSize, BlockSize)
    ensures r.Err? <==> ZeroCount(n) > BlockCells
    ensures r.Err? ==> r.error == ArgumentOutOfRange
    ensures r.Ok? ==> KeepsLargest(m, r.value, n)
  {
    var rounded := RoundEntries(m);
    var count := ZeroCount(n);
    if count > BlockCells {
      return Err(ArgumentOutOfRange);
    }
    var kept;
    ghost var zeroed: set<int>;
    if count < 0 {
      kept, zeroed := rounded, {};
    } else {
      kept, zeroed := ZeroSmallest(rounded, count);
    }
    assert ZeroedBy(rounded, kept, zeroed);
    return Ok(kept);
  }

  /** For 0 ≤ n ≤ 64 at most n coefficients of the channel stay nonzero. */
  lemma KeepsAtMostN(m: Mat, r: Mat, n: int32)
    requires KeepsLargest(m, r, n) && 0 <= n <= BlockCells
    ensures IsRect(r, BlockSize, BlockSize)
    ensures |set p | 0 <= p < BlockCells && Entry(r, p) != 0.0| <= n
  {
    ZeroCountCases(n);
    var zeroed: set<int> :| |zeroed| == BlockCells - n && ZeroedBy(RoundedMat(m), r, zeroed);
    AtMostKeptNonzero(RoundedMat(m), r, zeroed);
  }

  /** For n ≥ 64 nothing is zeroed: the channel is only rounded. */
  lemma KeepsAllWhenLarge(m: Mat, r: Mat, n: int32)
    requires KeepsLargest(m, r, n) && n >= BlockCells
    ensures r == RoundedMat(m)
  {
    ZeroCountCases(n);
    var zeroed: set<int> :| |zeroed| == 0 && ZeroedBy(RoundedMat(m), r, zeroed);
    forall x, y | 0 <= x < BlockSize && 0 <= y < BlockSize
      ensures r[x][y] == RoundedMat(m)[x][y]
    {
      var p := BlockSize * x + y;
      assert p / BlockSize == x && p % BlockSize == y;
      assert Entry(r, p) == Entry(RoundedMat(m), p);
    }
    RectExtensional(r, RoundedMat(m), BlockSize, BlockSize);
  }

  /** The count QuantizeLargest uses for channel k: Ny for luma, Nc for chroma. */
  function CountFor(k: nat, ny: int32, nc: int32): int32
  {
    if k == 0 then ny else nc
  }

  /** Every channel of the block kept as QuantizeLargest keeps it. */
  ghost predicate BlockKeepsLargest(b: Vector<Mat>, r: Vector<Mat>, ny: int32, nc: int32)
  {
    IsBlock(b) && IsBlock(r) && forall k :: 0 <= k < 3 ==> KeepsLargest(b.At(k), r.At(k), CountFor(k, ny, nc))
  }

  /** The three channels of one block. */
  method KeepLargestInBlock(b: Vector<Mat>, ny: int32, nc: int32) returns (r: Result<Vector<Mat>>)
    requires IsBlock(b)
    ensures r.Err? <==> ZeroCount(ny) > BlockCells || ZeroCount(nc) > BlockCells
    ensures r.Err? ==> r.error == ArgumentOutOfRange
    ensures r.Ok? ==> BlockKeepsLargest(b, r.value, ny, nc)
  {
    var c0 := KeepLargest(b.At(0), ny);
    if c0.Err? {
      return Err(c0.error);
    }
    var c1 := KeepLargest(b.At(1), nc);
    if c1.Err? {
      return Err(c1.error);
    }
    var c2 := KeepLargest(b.At(2), nc);
    r := Ok(Vector([c0.value, c1.value, c2.value]));
  }

  /** `QuantizeLargest(appliedDct, ny, nc)`: in every block, keep the
      largest Ny luma and Nc chroma coefficients (rounded) and zero the rest.
      A count that asks to zero more than 64 entries throws at the first
      block, so only a non-empty grid fails. */
  method QuantizeLargest(blocks: array2<Vector<Mat>>, ny: int32, nc: int32) returns (o: Outcome)
    requires IsBlockGrid(Cells(blocks), blocks.Length0, blocks.Length1)
    modifies blocks
    ensures o.Fail? <==> blocks.Length0 > 0 && blocks.Length1 > 0 && (ZeroCount(ny) > BlockCells || ZeroCount(nc) > BlockCells)
    ensures o.Fail? ==> o.error == ArgumentOutOfRange
    ensures o.Pass? ==> forall a, b :: 0 <= a < blocks.Length0 && 0 <= b < blocks.Length1 ==>
      BlockKeepsLargest(old(blocks[a, b]), blocks[a, b], ny, nc)
  {
    for i := 0 to blocks.Length0
      invariant forall a, b :: 0 <= a < blocks.Length0 && 0 <= b < blocks.Length1 ==> IsBlock(old(blocks[a, b]))
      invariant i > 0 && blocks.Length1 > 0 ==> ZeroCount(ny) <= BlockCells && ZeroCount(nc) <= BlockCells
      invariant forall a, b :: 0 <= a < blocks.Length0 && 0 <= b < blocks.Length1 ==>
        if a < i then BlockKeepsLargest(old(blocks[a, b]), blocks[a, b], ny, nc) else blocks[a, b] == old(blocks[a, b])
    {
      for j := 0 to blocks.Length1
        invariant j > 0 ==> ZeroCount(ny) <= BlockCells && ZeroCount(nc) <= BlockCells
        invariant forall a, b :: 0 <= a < blocks.Length0 && 0 <= b < blocks.Length1 ==>
          if a < i || (a == i && b < j) then BlockKeepsLargest(old(blocks[a, b]), blocks[a, b], ny, nc)
          else blocks[a, b] == old(blocks[a, b])
      {
        var r := KeepLargestInBlock(blocks[i, j], ny, nc);
        if r.Err? {
          return Fail(r.error);
        }
        blocks[i, j] := r.value;
      }
    }
    return Pass;
  }

  // ---------------------------------------------------------------------
  // Choosing the policy

  /** `QuantizeMatrices(appliedDct, parameters)`: quantize the grid in place
      by the policy the parameters name, and return the same grid. LargestN
      needs both counts; an unknown policy byte throws. */
  method QuantizeMatrices(blocks: array2<Vector<Mat>>, parameters: DctParameters) returns (r: Result<array2<Vector<Mat>>>)
    requires IsBlockGrid(Cells(blocks), blocks.Length0, blocks.Length1)
    requires parameters.quantizationType == QuantizationMatrix ==>
      NonZeroTable(QuantizationTable(parameters.generatorsY)) && NonZeroTable(QuantizationTable(parameters.generatorsC))
    modifies blocks
    ensures r.Ok? ==> r.value == blocks
    ensures parameters.quantizationType == LargestN && (parameters.ny.None? || parameters.nc.None?) ==>
      r == Err(InvalidState("Invalid program state")) && unchanged(blocks)
    ensures parameters.quantizationType == LargestN && parameters.ny.Some? && parameters.nc.Some? ==>
      var ny, nc := parameters.ny.value, parameters.nc.value;
      (r.Err? <==> blocks.Length0 > 0 && blocks.Length1 > 0 && (ZeroCount(ny) > BlockCells || ZeroCount(nc) > BlockCells)) &&
      (r.Err? ==> r.error == ArgumentOutOfRange) &&
      (r.Ok? ==> forall a, b :: 0 <= a < blocks.Length0 && 0 <= b < blocks.Length1 ==>
        BlockKeepsLargest(old(blocks[a, b]), blocks[a, b], ny, nc))
    ensures parameters.quantizationType == QuantizationMatrix ==>
      r.Ok? && forall a, b :: 0 <= a < blocks.Length0 && 0 <= b < blocks.Length1 ==>
        IsBlock(old(blocks[a, b])) &&
        blocks[a, b] == QuantizedBlock(old(blocks[a, b]), QuantizationTable(parameters.generatorsY), QuantizationTable(parameters.generatorsC))
    ensures parameters.quantizationType == DefaultJpegMatrix ==>
      NonZeroTable(DefaultMatrixY) && NonZeroTable(DefaultMatrixC) &&
      r.Ok? && forall a, b :: 0 <= a < blocks.Length0 && 0 <= b < blocks.Length1 ==>
        IsBlock(old(blocks[a, b])) && blocks[a, b] == QuantizedBlock(old(blocks[a, b]), DefaultMatrixY, DefaultMatrixC)
    ensures parameters.quantizationType !in {LargestN, QuantizationMatrix, DefaultJpegMatrix} ==>
      r == Err(ArgumentOutOfRange) && unchanged(blocks)
  {
    if parameters.quantizationType == LargestN {
      if parameters.ny.None? || parameters.nc.None? {
        return Err(InvalidState("Invalid program state"));
      }
      var o := QuantizeLargest(blocks, parameters.ny.value, parameters.nc.value);
      if o.Fail? {
        return Err(o.error);
      }
      return Ok(blocks);
    } else if parameters.quantizationType == QuantizationMatrix {
      var matrixY := GetQuantizationMatrix(parameters.generatorsY);
      var matrixC := GetQuantizationMatrix(parameters.generatorsC);
      QuantizeByMatrices(blocks, matrixY.Contents(), matrixC.Contents());
      return Ok(blocks);
    } else if parameters.quantizationType == DefaultJpegMatrix {
      DefaultTablesPositive();
      QuantizeByMatrices(blocks, DefaultMatrixY, DefaultMatrixC);
      return Ok(blocks);
    } else {
      return Err(ArgumentOutOfRange);
    }
  }

  /** `DequantizeMatrices(encodedMatrices, parameters)`: undo the
      quantization in place. LargestN has nothing to undo and returns the
      grid as it is; an unknown policy byte throws. */
  method DequantizeMatrices(blocks: array2<Vector<Mat>>, parameters: DctParameters) returns (r: Result<array2<Vector<Mat>>>)
    requires IsBlockGrid(Cells(blocks), blocks.Length0, blocks.Length1)
    modifies blocks
    ensures r.Ok? ==> r.value == blocks
    ensures parameters.quantizationType == LargestN ==> r.Ok? && unchanged(blocks)
    ensures parameters.quantizationType == QuantizationMatrix ==>
      r.Ok? && forall a, b :: 0 <= a < blocks.Length0 && 0 <= b < blocks.Length1 ==>
        IsBlock(old(blocks[a, b])) &&
        blocks[a, b] == DequantizedBlock(old(blocks[a, b]), QuantizationTable(parameters.generatorsY), QuantizationTable(parameters.generatorsC))
    ensures parameters.quantizationType == DefaultJpegMatrix ==>
      r.Ok? && forall a, b :: 0 <= a < blocks.Length0 && 0 <= b < blocks.Length1 ==>
        IsBlock(old(blocks[a, b])) && blocks[a, b] == DequantizedBlock(old(blocks[a, b]), DefaultMatrixY, DefaultMatrixC)
    ensures parameters.quantizationType !in {LargestN, QuantizationMatrix, DefaultJpegMatrix} ==>
      r == Err(ArgumentOutOfRange) && unchanged(blocks)
  {
    if parameters.quantizationType == LargestN {
      return Ok(blocks);
    } else if parameters.quantizationType == DefaultJpegMatrix {
      DefaultTablesPositive();
      DequantizeByMatrices(blocks, DefaultMatrixY, DefaultMatrixC);
      return Ok(blocks);
    } else if parameters.quantizationType == QuantizationMatrix {
      var matrixY := GetQuantizationMatrix(parameters.generatorsY);
      var matrixC := GetQuantizationMatrix(parameters.generatorsC);
      DequantizeByMatrices(blocks, matrixY.Contents(), matrixC.Contents());
      return Ok(blocks);
    } else {
      return Err(ArgumentOutOfRange);
    }
  }
}
