/** Chroma decimation and its inverse (DctAlgorithm.Decimate / Undecimate):
    keep every other column, row, or both, and replicate samples back. */
module DctDecimation {
  import opened Common
  import opened Vectors
  import opened Grids
  import opened DctParams

  /** A pixel grid `Vector<byte>[,]`, row by row. */
  type Grid = seq<seq<Color>>

  /** The value a freshly allocated grid cell holds until it is written. */
  const Blank: Color := Rgb(0, 0, 0)

  /** Every tag but NoDecimation and Vertical halves the columns. */
  predicate HalvesColumns(t: byte) { t != NoDecimation && t != Vertical }

  /** Every tag but NoDecimation and Horizontal halves the rows. */
  predicate HalvesRows(t: byte) { t != NoDecimation && t != Horizontal }

  /** The sampling step along rows and along columns. */
  function RowStep(t: byte): nat { if HalvesRows(t) then 2 else 1 }
  function ColumnStep(t: byte): nat { if HalvesColumns(t) then 2 else 1 }

  /** Decimate throws exactly when a halved axis has odd length and the loop
      reaches its last sample, which needs a non-empty grid. */
  predicate DecimateFails(h: nat, w: nat, t: byte)
  {
    h > 0 && w > 0 && ((HalvesRows(t) && h % 2 == 1) || (HalvesColumns(t) && w % 2 == 1))
  }

  /** The decimated grid: sample (RowStep·i, ColumnStep·j) for each cell. */
  function Decimated(g: Grid, h: nat, w: nat, t: byte): (d: Grid)
    requires IsRect(g, h, w)
    ensures IsRect(d, h / RowStep(t), w / ColumnStep(t))
    ensures forall i, j :: 0 <= i < h / RowStep(t) && 0 <= j < w / ColumnStep(t) ==>
      d[i][j] == g[RowStep(t) * i][ColumnStep(t) * j]
  {
    seq(h / RowStep(t), i requires 0 <= i < h / RowStep(t) =>
      seq(w / ColumnStep(t), j requires 0 <= j < w / ColumnStep(t) => g[RowStep(t) * i][ColumnStep(t) * j]))
  }

  /** The undecimated grid: every sample copied into a RowStep × ColumnStep cell. */
  function Undecimated(g: Grid, h: nat, w: nat, t: byte): (u: Grid)
    requires IsRect(g, h, w)
    ensures IsRect(u, h * RowStep(t), w * ColumnStep(t))
    ensures forall i, j :: 0 <= i < h * RowStep(t) && 0 <= j < w * ColumnStep(t) ==>
      u[i][j] == g[i / RowStep(t)][j / ColumnStep(t)]
  {
    seq(h * RowStep(t), i requires 0 <= i < h * RowStep(t) =>
      seq(w * ColumnStep(t), j requires 0 <= j < w * ColumnStep(t) => g[i / RowStep(t)][j / ColumnStep(t)]))
  }

  /** Undecimating then decimating with the same tag gives the grid back. */
  lemma DecimateUndecimate(g: Grid, h: nat, w: nat, t: byte)
    requires IsRect(g, h, w)
    ensures !DecimateFails(h * RowStep(t), w * ColumnStep(t), t)
    ensures Decimated(Undecimated(g, h, w, t), h * RowStep(t), w * ColumnStep(t), t) == g
  {
    var rs, cs := RowStep(t), ColumnStep(t);
    var u := Undecimated(g, h, w, t);
    var d := Decimated(u, h * rs, w * cs, t);
    assert (h * rs) / rs == h && (w * cs) / cs == w;
    forall i, j | 0 <= i < h && 0 <= j < w
      ensures d[i][j] == g[i][j]
    {
      assert (rs * i) / rs == i && (cs * j) / cs == j;
    }
    RectExtensional(d, g, h, w);
  }

  /** Decimating and undecimating with the same tag makes every
      RowStep × ColumnStep cell a copy of its top-left sample: the chroma
      loss the codec accepts. */
  lemma UndecimateDecimate(g: Grid, h: nat, w: nat, t: byte)
    requires IsRect(g, h, w) && !DecimateFails(h, w, t)
    ensures var u := Undecimated(Decimated(g, h, w, t), h / RowStep(t), w / ColumnStep(t), t);
            (h > 0 && w > 0 ==> IsRect(u, h, w)) &&
            forall i, j :: 0 <= i < |u| && 0 <= j < |u[i]| ==> u[i][j] == g[i - i % RowStep(t)][j - j % ColumnStep(t)]
  {
    var rs, cs := RowStep(t), ColumnStep(t);
    var d := Decimated(g, h, w, t);
    var u := Undecimated(d, h / rs, w / cs, t);
    if h > 0 && w > 0 {
      StepWhole(h, rs);
      StepWhole(w, cs);
    }
    forall i, j | 0 <= i < |u| && 0 <= j < |u[i]|
      ensures u[i][j] == g[i - i % rs][j - j % cs]
    {
      StepFloor(i, h, rs);
      StepFloor(j, w, cs);
      assert u[i][j] == d[i / rs][j / cs];
    }
  }

  /** An axis whose length the step divides is a whole number of steps. */
  lemma StepWhole(n: nat, s: nat)
    requires s == 1 || (s == 2 && n % 2 == 0)
    ensures n / s * s == n
  {
  }

  /** Along one axis of step 1 or 2: a position below the last whole step
      falls in a sampled cell, whose first position is the sample. */
  lemma StepFloor(i: nat, n: nat, s: nat)
    requires (s == 1 || s == 2) && i < n / s * s
    ensures i / s < n / s && s * (i / s) == i - i % s
  {
    if s == 2 {
      assert i / 2 * 2 <= i;
    }
  }

  /** The rows of `result` before row `a0` hold the samples of `src` taken
      with the steps of tag `t`. */
  ghost predicate SampledBefore(result: array2<Color>, src: array2<Color>, t: byte, a0: nat)
    reads result, src
  {
    result.Length0 == src.Length0 / RowStep(t) && result.Length1 == src.Length1 / ColumnStep(t) &&
    forall a, b :: 0 <= a < a0 && a < result.Length0 && 0 <= b < result.Length1 ==>
      result[a, b] == src[RowStep(t) * a, ColumnStep(t) * b]
  }

  /** The inner loop of the three Decimate variants over source row `i`: it
      writes every ColumnStep-th sample into result row `i / RowStep`, and
      fails (the write that throws) when that row is past the end or the row
      has an odd length while columns are halved. */
  method DecimateRow(src: array2<Color>, result: array2<Color>, t: byte, i: nat) returns (ok: bool)
    requires result != src && i < src.Length0 && i % RowStep(t) == 0
    requires SampledBefore(result, src, t, i / RowStep(t))
    modifies result
    ensures ok <==> src.Length1 == 0 || (i / RowStep(t) < result.Length0 && src.Length1 % ColumnStep(t) == 0)
    ensures ok ==> SampledBefore(result, src, t, i / RowStep(t) + 1)
  {
    var rs, cs := RowStep(t), ColumnStep(t);
    var w := src.Length1;
    var j := 0;
    while j < w
      invariant j % cs == 0 && j <= w
      invariant j > 0 ==> i / rs < result.Length0
      invariant SampledBefore(result, src, t, i / rs)
      invariant forall b :: 0 <= b < j / cs ==> result[i / rs, b] == src[i, cs * b]
    {
      if i / rs >= result.Length0 || j / cs >= result.Length1 {
        return false;
      }
      result[i / rs, j / cs] := src[i, j];
      j := j + cs;
    }
    return true;
  }

  /** Horizontal: `result[i, j / 2] = src[i, j]` for even j. */
  method DecimateColumns(src: array2<Color>) returns (r: Result<array2<Color>>)
    ensures r.Err? <==> DecimateFails(src.Length0, src.Length1, Horizontal)
    ensures r.Err? ==> r.error == IndexOutOfRange
    ensures r.Ok? ==> fresh(r.value) && Cells(r.value) == Decimated(Cells(src), src.Length0, src.Length1, Horizontal)
  {
    var h, w := src.Length0, src.Length1;
    var result := new Color[h, w / 2]((_, _) => Blank);
    for i := 0 to h
      invariant SampledBefore(result, src, Horizontal, i)
      invariant i > 0 ==> w % 2 == 0
    {
      var ok := DecimateRow(src, result, Horizontal, i);
      if !ok {
        return Err(IndexOutOfRange);
      }
    }
    RectExtensional(Cells(result), Decimated(Cells(src), h, w, Horizontal), h, w / 2);
    return Ok(result);
  }

  /** Vertical: `result[i / 2, j] = src[i, j]` for even i. */
  method DecimateRows(src: array2<Color>) returns (r: Result<array2<Color>>)
    ensures r.Err? <==> DecimateFails(src.Length0, src.Length1, Vertical)
    ensures r.Err? ==> r.error == IndexOutOfRange
    ensures r.Ok? ==> fresh(r.value) && Cells(r.value) == Decimated(Cells(src), src.Length0, src.Length1, Vertical)
  {
    var h, w := src.Length0, src.Length1;
    var result := new Color[h / 2, w]((_, _) => Blank);
    var i := 0;
    while i < h
      invariant i % 2 == 0 && 0 <= i <= h + 1
      invariant i > h ==> w == 0
      invariant SampledBefore(result, src, Vertical, i / 2)
    {
      var ok := DecimateRow(src, result, Vertical, i);
      if !ok {
        return Err(IndexOutOfRange);
      }
      i := i + 2;
    }
    RectExtensional(Cells(result), Decimated(Cells(src), h, w, Vertical), h / 2, w);
    return Ok(result);
  }

  /** Both axes: `result[i / 2, j / 2] = src[i, j]` for even i and j. */
  method DecimateBoth(src: array2<Color>, t: byte) returns (r: Result<array2<Color>>)
    requires HalvesRows(t) && HalvesColumns(t)
    ensures r.Err? <==> DecimateFails(src.Length0, src.Length1, t)
    ensures r.Err? ==> r.error == IndexOutOfRange
    ensures r.Ok? ==> fresh(r.value) && Cells(r.value) == Decimated(Cells(src), src.Length0, src.Length1, t)
  {
    var h, w := src.Length0, src.Length1;
    var result := new Color[h / 2, w / 2]((_, _) => Blank);
    var i := 0;
    while i < h
      invariant i % 2 == 0 && 0 <= i <= h + 1
      invariant i > h ==> w == 0
      invariant i > 0 && w > 0 ==> w % 2 == 0
      invariant SampledBefore(result, src, t, i / 2)
    {
      var ok := DecimateRow(src, result, t, i);
      if !ok {
        return Err(IndexOutOfRange);
      }
      i := i + 2;
    }
    RectExtensional(Cells(result), Decimated(Cells(src), h, w, t), h / 2, w / 2);
    return Ok(result);
  }

  /** `Decimate(src, decimationType)`: NoDecimation hands back the same
      array; Horizontal and Vertical halve one axis; every other tag halves
      both. */
  method Decimate(src: array2<Color>, t: byte) returns (r: Result<array2<Color>>)
    ensures r.Err? <==> DecimateFails(src.Length0, src.Length1, t)
    ensures r.Err? ==> r.error == IndexOutOfRange
    ensures r.Ok? && t == NoDecimation ==> r.value == src
    ensures r.Ok? && t != NoDecimation ==> fresh(r.value)
    ensures r.Ok? ==> Cells(r.value) == Decimated(Cells(src), src.Length0, src.Length1, t)
  {
    if t == NoDecimation {
      RectExtensional(Cells(src), Decimated(Cells(src), src.Length0, src.Length1, t), src.Length0, src.Length1);
      return Ok(src);
    }
    if t == Horizontal {
      r := DecimateColumns(src);
    } else if t == Vertical {
      r := DecimateRows(src);
    } else {
      r := DecimateBoth(src, t);
    }
  }

  /** Horizontal: each sample fills two neighbouring columns. */
  method UndecimateColumns(src: array2<Color>) returns (r: array2<Color>)
    ensures fresh(r)
    ensures Cells(r) == Undecimated(Cells(src), src.Length0, src.Length1, Horizontal)
  {
    var h, w := src.Length0, src.Length1;
    r := new Color[h, w * 2]((_, _) => Blank);
    for i := 0 to h
      invariant forall a, b :: 0 <= a < i && 0 <= b < 2 * w ==> r[a, b] == src[a, b / 2]
    {
      for j := 0 to w
        invariant forall a, b :: 0 <= a < h && 0 <= b < 2 * w && (a < i || (a == i && b < 2 * j)) ==> r[a, b] == src[a, b / 2]
      {
        r[i, j * 2] := src[i, j];
        r[i, j * 2 + 1] := src[i, j];
      }
    }
    RectExtensional(Cells(r), Undecimated(Cells(src), h, w, Horizontal), h, w * 2);
  }

  /** Vertical: each sample fills two neighbouring rows. */
  method UndecimateRows(src: array2<Color>) returns (r: array2<Color>)
    ensures fresh(r)
    ensures Cells(r) == Undecimated(Cells(src), src.Length0, src.Length1, Vertical)
  {
    var h, w := src.Length0, src.Length1;
    r := new Color[h * 2, w]((_, _) => Blank);
    for i := 0 to h
      invariant forall a, b :: 0 <= a < 2 * i && 0 <= b < w ==> r[a, b] == src[a / 2, b]
    {
      for j := 0 to w
        invariant forall a, b :: 0 <= a < 2 * h && 0 <= b < w && (a < 2 * i || (a / 2 == i && b < j)) ==> r[a, b] == src[a / 2, b]
      {
        r[i * 2, j] := src[i, j];
        r[i * 2 + 1, j] := src[i, j];
      }
    }
    RectExtensional(Cells(r), Undecimated(Cells(src), h, w, Vertical), h * 2, w);
  }

  /** The rows of `r` before row `a0` hold the 2×2 replicas of `src`. */
  ghost predicate DoubledBefore(r: array2<Color>, src: array2<Color>, a0: nat)
    reads r, src
  {
    r.Length0 == 2 * src.Length0 && r.Length1 == 2 * src.Length1 && a0 <= r.Length0 &&
    forall a, b :: 0 <= a < a0 && 0 <= b < r.Length1 ==> r[a, b] == src[a / 2, b / 2]
  }

  /** One source row of `UndecimateBoth`: it fills the two result rows
      `2 i` and `2 i + 1`. */
  method UndecimateBothRow(src: array2<Color>, r: array2<Color>, i: nat)
    requires r != src && i < src.Length0 && DoubledBefore(r, src, 2 * i)
    modifies r
    ensures DoubledBefore(r, src, 2 * i + 2)
  {
    var w := src.Length1;
    for j := 0 to w
      invariant DoubledBefore(r, src, 2 * i)
      invariant forall a, b :: 2 * i <= a < 2 * i + 2 && 0 <= b < 2 * j ==> r[a, b] == src[a / 2, b / 2]
    {
      r[i * 2, j * 2] := src[i, j];
      r[i * 2, j * 2 + 1] := src[i, j];
      r[i * 2 + 1, j * 2] := src[i, j];
      r[i * 2 + 1, j * 2 + 1] := src[i, j];
    }
  }

  /** Both axes: each sample fills a 2×2 cell. */
  method UndecimateBoth(src: array2<Color>, t: byte) returns (r: array2<Color>)
    requires HalvesRows(t) && HalvesColumns(t)
    ensures fresh(r)
    ensures Cells(r) == Undecimated(Cells(src), src.Length0, src.Length1, t)
  {
    var h, w := src.Length0, src.Length1;
    r := new Color[h * 2, w * 2]((_, _) => Blank);
    for i := 0 to h
      invariant DoubledBefore(r, src, 2 * i)
    {
      UndecimateBothRow(src, r, i);
    }
    RectExtensional(Cells(r), Undecimated(Cells(src), h, w, t), h * 2, w * 2);
  }

  /** `Undecimate(map, decimationType)`: NoDecimation hands back the same
      array; the other tags replicate samples along the axes Decimate halved. */
  method Undecimate(src: array2<Color>, t: byte) returns (r: array2<Color>)
    ensures t == NoDecimation ==> r == src
    ensures t != NoDecimation ==> fresh(r)
    ensures Cells(r) == Undecimated(Cells(src), src.Length0, src.Length1, t)
  {
    if t == NoDecimation {
      RectExtensional(Cells(src), Undecimated(Cells(src), src.Length0, src.Length1, t), src.Length0, src.Length1);
      return src;
    }
    if t == Horizontal {
      r := UndecimateColumns(src);
    } else if t == Vertical {
      r := UndecimateRows(src);
    } else {
      r := UndecimateBoth(src, t);
    }
  }
}
