/** The passes of the wavelet codec over one channel (Algorithms/Wavelets/
    Wavelet.cs, `DoApplyWavelet` and `DecodeChannel`), on grid values: rows
    then columns are pair-convolved and the coefficients de-interleaved, the
    window halving each iteration; decoding re-interleaves and convolves
    columns then rows with the inverse filters, the window doubling. The
    arrays these passes overwrite are in WaveletPasses; this module says what
    they leave behind and proves how the two directions fit together. */
module WaveletChannel {
  import opened Common
  import opened Grids
  import W = Wavelet

  /** A `double[,]` channel as rows of cells. */
  type Grid = seq<seq<real>>

  // ---------------------------------------------------------------------
  // The de-interleave index map

  /** Where the forward pass puts row (or column) i of a window of size h:
      even indices to the first half, odd ones to the second. Every index
      of a window lands inside the window, whatever its size. */
  function Deinterleave(i: nat, h: nat): (p: nat)
    ensures i < h ==> p < h
  {
    if i % 2 == 0 then i / 2 else h / 2 + i / 2
  }

  /** The index that `Deinterleave` sends to p, for an even size h. */
  function Interleave(p: nat, h: nat): (i: nat)
    ensures p < h && h % 2 == 0 ==> i < h
  {
    if p < h / 2 then 2 * p else 2 * (p - h / 2) + 1
  }

  /** For an even size the map is a bijection of [0, h) with inverse
      `Interleave`, even indices filling the first half and odd ones the
      second. */
  lemma DeinterleaveBijection(i: nat, p: nat, h: nat)
    requires h % 2 == 0
    ensures i < h ==> Deinterleave(i, h) < h && Interleave(Deinterleave(i, h), h) == i
    ensures p < h ==> Interleave(p, h) < h && Deinterleave(Interleave(p, h), h) == p
    ensures i < h ==> (i % 2 == 0 <==> Deinterleave(i, h) < h / 2)
  {
  }

  /** For an even size, the one index of the window that `Interleave`
      sends to i is `Deinterleave(i)`. */
  lemma InterleaveHits(i: nat, h: nat)
    requires h % 2 == 0 && i < h
    ensures Deinterleave(i, h) < h
    ensures forall p :: 0 <= p < h ==> (Interleave(p, h) == i <==> p == Deinterleave(i, h))
  {
    forall p | 0 <= p < h
      ensures Interleave(p, h) == i <==> p == Deinterleave(i, h)
    {
      DeinterleaveBijection(i, p, h);
    }
  }

  /** For an odd size of at least 3 two indices collide: 1 and h - 1 both go
      to (h - 1) / 2. The forward pass never reaches the map with an odd
      size, since convolving an odd line throws first. */
  lemma DeinterleaveOddCollision(h: nat)
    requires h % 2 == 1 && h >= 3
    ensures Deinterleave(1, h) == Deinterleave(h - 1, h) == (h - 1) / 2
  {
  }

  // ---------------------------------------------------------------------
  // Windows of a grid

  /** The top-left h×w window of a grid. */
  function Window(g: Grid, h: nat, w: nat): (v: Grid)
    requires h <= |g| && forall i :: 0 <= i < h ==> w <= |g[i]|
    ensures IsRect(v, h, w)
    ensures forall i, j :: 0 <= i < h && 0 <= j < w ==> v[i][j] == g[i][j]
  {
    seq(h, i requires 0 <= i < h && w <= |g[i]| => g[i][..w])
  }

  /** g with its top-left h×w window replaced by v. */
  function Paste(g: Grid, v: Grid, h: nat, w: nat): (r: Grid)
    requires h <= |g| && forall i :: 0 <= i < h ==> w <= |g[i]|
    requires IsRect(v, h, w)
    ensures |r| == |g| && forall i :: 0 <= i < |g| ==> |r[i]| == |g[i]|
    ensures forall i, j :: 0 <= i < |g| && 0 <= j < |g[i]| ==>
      r[i][j] == if i < h && j < w then v[i][j] else g[i][j]
  {
    seq(|g|, i requires 0 <= i < |g| => if i < h then v[i] + g[i][w..] else g[i])
  }

  /** Two grids of the same row lengths that agree cell by cell are equal. */
  lemma {:induction false} SameShapeExtensional(g: Grid, k: Grid)
    requires |g| == |k| && forall i :: 0 <= i < |g| ==> |g[i]| == |k[i]|
    requires forall i, j :: 0 <= i < |g| && 0 <= j < |g[i]| ==> g[i][j] == k[i][j]
    ensures g == k
  {
    forall i | 0 <= i < |g|
      ensures g[i] == k[i]
    {
      assert forall j :: 0 <= j < |g[i]| ==> g[i][j] == k[i][j];
    }
  }

  /** Pasting a grid's own window back changes nothing. */
  lemma PasteOwnWindow(g: Grid, h: nat, w: nat)
    requires h <= |g| && forall i :: 0 <= i < h ==> w <= |g[i]|
    ensures Paste(g, Window(g, h, w), h, w) == g
  {
    SameShapeExtensional(Paste(g, Window(g, h, w), h, w), g);
  }

  /** The window of a pasted grid is what was pasted, and a second paste
      over the same window replaces the first. */
  lemma PasteOverPaste(g: Grid, u: Grid, v: Grid, h: nat, w: nat)
    requires h <= |g| && forall i :: 0 <= i < h ==> w <= |g[i]|
    requires IsRect(u, h, w) && IsRect(v, h, w)
    ensures Window(Paste(g, u, h, w), h, w) == u
    ensures Paste(Paste(g, u, h, w), v, h, w) == Paste(g, v, h, w)
  {
    RectExtensional(Window(Paste(g, u, h, w), h, w), u, h, w);
    SameShapeExtensional(Paste(Paste(g, u, h, w), v, h, w), Paste(g, v, h, w));
  }

  // ---------------------------------------------------------------------
  // Convolving every row or every column

  /** `PairConvolution` succeeds on every line of length m: equal filter
      lengths, an even length and no read before the start. */
  predicate LineOk(m: nat, low: seq<real>, high: seq<real>, delta: int)
  {
    |low| == |high| && m % 2 == 0 && W.AllTapsInside(m, |low|, delta)
  }

  /** What `PairConvolution` throws when it fails. */
  function LineError(low: seq<real>, high: seq<real>): Error
  {
    if |low| != |high| then InvalidState("Invalid program state") else IndexOutOfRange
  }

  /** Whether a line converts depends only on its length, and the exception
      only on the filters. */
  lemma LineOutcome(data: seq<real>, low: seq<real>, high: seq<real>, delta: int)
    ensures W.PairConvolved(data, low, high, delta).Ok? <==> LineOk(|data|, low, high, delta)
    ensures W.PairConvolved(data, low, high, delta).Err? ==>
      W.PairConvolved(data, low, high, delta).error == LineError(low, high)
  {
  }

  /** Column j of the first h rows. */
  function Column(v: Grid, j: nat, h: nat): (c: seq<real>)
    requires h <= |v| && forall i :: 0 <= i < h ==> j < |v[i]|
    ensures |c| == h && forall i :: 0 <= i < h ==> c[i] == v[i][j]
  {
    seq(h, i requires 0 <= i < h && j < |v[i]| => v[i][j])
  }

  /** The row pass: every row of the window pair-convolved. */
  function RowsConvolved(v: Grid, h: nat, w: nat, low: seq<real>, high: seq<real>, delta: int): (r: Grid)
    requires IsRect(v, h, w) && LineOk(w, low, high, delta)
    ensures IsRect(r, h, w)
  {
    seq(h, i requires 0 <= i < h => W.PairConvolved(v[i], low, high, delta).value)
  }

  /** The column pass: every column of the window pair-convolved. */
  function ColumnsConvolved(v: Grid, h: nat, w: nat, low: seq<real>, high: seq<real>, delta: int): (r: Grid)
    requires IsRect(v, h, w) && LineOk(h, low, high, delta)
    ensures IsRect(r, h, w)
  {
    seq(h, i requires 0 <= i < h =>
      seq(w, j requires 0 <= j < w => W.PairConvolved(Column(v, j, h), low, high, delta).value[i]))
  }

  /** Each row of the row pass is the convolved row. */
  lemma RowOfRowsConvolved(v: Grid, h: nat, w: nat, low: seq<real>, high: seq<real>, delta: int, i: nat)
    requires IsRect(v, h, w) && LineOk(w, low, high, delta) && i < h
    ensures RowsConvolved(v, h, w, low, high, delta)[i] == W.PairConvolved(v[i], low, high, delta).value
  {
  }

  /** Each column of the column pass is the convolved column. */
  lemma ColumnOfColumnsConvolved(v: Grid, h: nat, w: nat, low: seq<real>, high: seq<real>, delta: int, j: nat)
    requires IsRect(v, h, w) && LineOk(h, low, high, delta) && j < w
    ensures Column(ColumnsConvolved(v, h, w, low, high, delta), j, h) == W.PairConvolved(Column(v, j, h), low, high, delta).value
  {
  }

  // ---------------------------------------------------------------------
  // Scatter and gather

  /** The forward scatter of a window of even sizes: the cell at (p, q)
      comes from (Interleave(p), Interleave(q)). */
  function Scattered(v: Grid, h: nat, w: nat): (r: Grid)
    requires IsRect(v, h, w) && h % 2 == 0 && w % 2 == 0
    ensures IsRect(r, h, w)
  {
    seq(h, p requires 0 <= p < h =>
      seq(w, q requires 0 <= q < w =>
        DeinterleaveBijection(0, p, h);
        DeinterleaveBijection(0, q, w);
        v[Interleave(p, h)][Interleave(q, w)]))
  }

  /** The gather of the inverse pass: the cell at (i, j) reads
      (Deinterleave(i), Deinterleave(j)), for any sizes. */
  function Gathered(v: Grid, h: nat, w: nat): (r: Grid)
    requires IsRect(v, h, w)
    ensures IsRect(r, h, w)
  {
    seq(h, i requires 0 <= i < h =>
      seq(w, j requires 0 <= j < w =>
        v[Deinterleave(i, h)][Deinterleave(j, w)]))
  }

  /** The gather reads back exactly what the scatter wrote, and the other
      way round: for even sizes the two are inverse permutations of the
      window's cells. */
  lemma GatheredScattered(v: Grid, h: nat, w: nat)
    requires IsRect(v, h, w) && h % 2 == 0 && w % 2 == 0
    ensures Gathered(Scattered(v, h, w), h, w) == v
    ensures Scattered(Gathered(v, h, w), h, w) == v
  {
    var s := Scattered(v, h, w);
    forall i, j | 0 <= i < h && 0 <= j < w
      ensures Gathered(s, h, w)[i][j] == v[i][j]
    {
      DeinterleaveBijection(i, 0, h);
      DeinterleaveBijection(j, 0, w);
    }
    RectExtensional(Gathered(s, h, w), v, h, w);
    var g := Gathered(v, h, w);
    forall p, q | 0 <= p < h && 0 <= q < w
      ensures Scattered(g, h, w)[p][q] == v[p][q]
    {
      DeinterleaveBijection(0, p, h);
      DeinterleaveBijection(0, q, w);
    }
    RectExtensional(Scattered(g, h, w), v, h, w);
  }

  // ---------------------------------------------------------------------
  // One level of each direction

  /** One iteration of `DoApplyWavelet` on its window: rows, then columns,
      then the scatter. */
  function ForwardLevel(v: Grid, h: nat, w: nat, low: seq<real>, high: seq<real>): (r: Grid)
    requires IsRect(v, h, w) && LineOk(w, low, high, 0) && LineOk(h, low, high, 0)
    ensures IsRect(r, h, w)
  {
    Scattered(ColumnsConvolved(RowsConvolved(v, h, w, low, high, 0), h, w, low, high, 0), h, w)
  }

  /** One iteration of `DecodeChannel` on its window: the gather, then
      columns, then rows, with the inverse filters and their shift. */
  function DecodeLevel(v: Grid, h: nat, w: nat, iLow: seq<real>, iHigh: seq<real>, delta: int): (r: Grid)
    requires IsRect(v, h, w) && LineOk(w, iLow, iHigh, delta) && LineOk(h, iLow, iHigh, delta)
    ensures IsRect(r, h, w)
  {
    RowsConvolved(ColumnsConvolved(Gathered(v, h, w), h, w, iLow, iHigh, delta), h, w, iLow, iHigh, delta)
  }

  /** The inverse filters undo the forward filters on every line of length
      m, exactly. */
  ghost predicate InvertsLines(m: nat, low: seq<real>, high: seq<real>, iLow: seq<real>, iHigh: seq<real>, delta: int)
  {
    forall x: seq<real> {:trigger W.PairConvolved(x, low, high, 0)} :: |x| == m ==>
      W.PairConvolved(x, low, high, 0).Ok? &&
      W.PairConvolved(W.PairConvolved(x, low, high, 0).value, iLow, iHigh, delta) == Ok(x)
  }

  /** Filters that invert the lines of length m convert such lines in both
      directions. */
  lemma InvertsLinesOk(m: nat, low: seq<real>, high: seq<real>, iLow: seq<real>, iHigh: seq<real>, delta: int)
    requires InvertsLines(m, low, high, iLow, iHigh, delta)
    ensures LineOk(m, low, high, 0) && LineOk(m, iLow, iHigh, delta)
  {
    var zero := seq(m, k => 0.0);
    assert W.PairConvolved(zero, low, high, 0).Ok?;
    LineOutcome(zero, low, high, 0);
    LineOutcome(W.PairConvolved(zero, low, high, 0).value, iLow, iHigh, delta);
  }

  /** The decode level undoes the forward level when the inverse filters
      undo the forward filters on lines of both sizes: the gather undoes
      the scatter, the column pass the column pass, the row pass the row
      pass, in the mirrored order. */
  lemma LevelRoundTrip(v: Grid, h: nat, w: nat, low: seq<real>, high: seq<real>,
                       iLow: seq<real>, iHigh: seq<real>, delta: int)
    requires IsRect(v, h, w)
    requires InvertsLines(h, low, high, iLow, iHigh, delta) && InvertsLines(w, low, high, iLow, iHigh, delta)
    ensures LineOk(h, low, high, 0) && LineOk(w, low, high, 0)
    ensures LineOk(h, iLow, iHigh, delta) && LineOk(w, iLow, iHigh, delta)
    ensures DecodeLevel(ForwardLevel(v, h, w, low, high), h, w, iLow, iHigh, delta) == v
  {
    InvertsLinesOk(h, low, high, iLow, iHigh, delta);
    InvertsLinesOk(w, low, high, iLow, iHigh, delta);
    var rows := RowsConvolved(v, h, w, low, high, 0);
    var cols := ColumnsConvolved(rows, h, w, low, high, 0);
    GatheredScattered(cols, h, w);
    var back := ColumnsConvolved(cols, h, w, iLow, iHigh, delta);
    forall j | 0 <= j < w
      ensures Column(back, j, h) == Column(rows, j, h)
    {
      ColumnOfColumnsConvolved(cols, h, w, iLow, iHigh, delta, j);
      ColumnOfColumnsConvolved(rows, h, w, low, high, 0, j);
      assert W.PairConvolved(Column(rows, j, h), low, high, 0).Ok?;
    }
    forall i, j | 0 <= i < h && 0 <= j < w
      ensures back[i][j] == rows[i][j]
    {
      assert Column(back, j, h)[i] == Column(rows, j, h)[i];
    }
    RectExtensional(back, rows, h, w);
    var again := RowsConvolved(back, h, w, iLow, iHigh, delta);
    forall i | 0 <= i < h
      ensures again[i] == v[i]
    {
      RowOfRowsConvolved(back, h, w, iLow, iHigh, delta, i);
      RowOfRowsConvolved(v, h, w, low, high, 0, i);
      assert W.PairConvolved(v[i], low, high, 0).Ok?;
    }
  }

  // ---------------------------------------------------------------------
  // Whole passes

  /** The grid is at least h×w: the window of those sizes lies inside it. */
  predicate Fits(g: Grid, h: int, w: int)
  {
    0 <= h <= |g| && forall i :: 0 <= i < h ==> 0 <= w <= |g[i]|
  }

  /** Both grids have the same rows of the same lengths. */
  ghost predicate SameShape(a: Grid, b: Grid)
  {
    |a| == |b| && forall i :: 0 <= i < |a| ==> |a[i]| == |b[i]|
  }

  /** Whether one level of either direction converts its lines: rows of
      length w when there is at least one row, columns of length h when
      there is at least one column. */
  predicate LevelOk(h: nat, w: nat, low: seq<real>, high: seq<real>, delta: int)
  {
    (h == 0 || LineOk(w, low, high, delta)) && (w == 0 || LineOk(h, low, high, delta))
  }

  /** One iteration of `DoApplyWavelet` on a channel whose current window is
      h×w. The row pass throws when its lines do not convert, then the
      column pass; an empty window changes nothing. */
  function ForwardStep(g: Grid, h: nat, w: nat, low: seq<real>, high: seq<real>): (r: Result<Grid>)
    requires Fits(g, h, w)
    ensures r.Ok? <==> LevelOk(h, w, low, high, 0)
    ensures r.Err? ==> r.error == LineError(low, high)
    ensures r.Ok? ==> SameShape(r.value, g)
  {
    if h > 0 && !LineOk(w, low, high, 0) then Err(LineError(low, high))
    else if w > 0 && !LineOk(h, low, high, 0) then Err(LineError(low, high))
    else if h == 0 || w == 0 then Ok(g)
    else Ok(Paste(g, ForwardLevel(Window(g, h, w), h, w, low, high), h, w))
  }

  /** The size of the window after c halvings (`>>= 1`). */
  function HalvedSize(h: nat, c: nat): (r: nat)
    ensures r <= h
  {
    if c == 0 then h else HalvedSize(h / 2, c - 1)
  }

  /** The forward iterations from a window of h×w on, k of them to go. */
  function ForwardFrom(g: Grid, h: nat, w: nat, low: seq<real>, high: seq<real>, k: nat): (r: Result<Grid>)
    requires Fits(g, h, w)
    ensures r.Ok? ==> SameShape(r.value, g)
    decreases k
  {
    if k == 0 then Ok(g)
    else
      match ForwardStep(g, h, w, low, high)
      case Err(e) => Err(e)
      case Ok(next) => ForwardFrom(next, h / 2, w / 2, low, high, k - 1)
  }

  /** One iteration of `DecodeChannel` on a channel of rows×cols whose
      current window is h×w, sizes that can have wrapped around. The gather
      throws IndexOutOfRange when the window is larger than the channel; a
      negative size throws Overflow where its line is allocated; then the
      column pass and the row pass throw as the forward ones do. */
  function DecodeStep(g: Grid, rows: nat, cols: nat, h: int, w: int, iLow: seq<real>, iHigh: seq<real>, delta: int)
    : (r: Result<Grid>)
    requires IsRect(g, rows, cols)
    ensures r.Ok? ==> IsRect(r.value, rows, cols)
  {
    if h > 0 && w > 0 && (h > rows || w > cols) then Err(IndexOutOfRange)
    else if h < 0 then Err(Overflow)
    else if w > 0 && !LineOk(h, iLow, iHigh, delta) then Err(LineError(iLow, iHigh))
    else if w < 0 then Err(Overflow)
    else if h > 0 && !LineOk(w, iLow, iHigh, delta) then Err(LineError(iLow, iHigh))
    else if h == 0 || w == 0 then Ok(g)
    else Ok(Paste(g, DecodeLevel(Window(g, h, w), h, w, iLow, iHigh, delta), h, w))
  }

  /** The size of the window after c doublings (`<<= 1` on an int). */
  function DoubledSize(h: int, c: nat): int
    decreases c
  {
    if c == 0 then h else DoubledSize(Wrap32(2 * h), c - 1)
  }

  /** The decode iterations from a window of h×w on, k of them to go. */
  function DecodeFrom(g: Grid, rows: nat, cols: nat, h: int, w: int, iLow: seq<real>, iHigh: seq<real>, delta: int, k: nat)
    : (r: Result<Grid>)
    requires IsRect(g, rows, cols)
    ensures r.Ok? ==> IsRect(r.value, rows, cols)
    decreases k
  {
    if k == 0 then Ok(g)
    else
      match DecodeStep(g, rows, cols, h, w, iLow, iHigh, delta)
      case Err(e) => Err(e)
      case Ok(next) => DecodeFrom(next, rows, cols, Wrap32(2 * h), Wrap32(2 * w), iLow, iHigh, delta, k - 1)
  }

  // ---------------------------------------------------------------------
  // The size schedules

  /** Halving once more is halving the last size. */
  lemma {:induction false} HalvedSizeSnoc(h: nat, c: nat)
    ensures HalvedSize(h, c + 1) == HalvedSize(h, c) / 2
    decreases c
  {
    if c > 0 {
      HalvedSizeSnoc(h / 2, c - 1);
    }
  }

  /** Doubling once more is doubling the last size. */
  lemma {:induction false} DoubledSizeSnoc(h: int, c: nat)
    ensures DoubledSize(h, c + 1) == Wrap32(2 * DoubledSize(h, c))
    decreases c
  {
    if c > 0 {
      DoubledSizeSnoc(Wrap32(2 * h), c - 1);
    }
  }

  /** c halvings are the shift `>> c`. */
  lemma {:induction false} HalvedSizeIsShift(h: nat, c: nat)
    ensures HalvedSize(h, c) == ShiftRight(h, c)
    decreases c
  {
    if c > 0 {
      HalvedSizeIsShift(h / 2, c - 1);
      var p := Pow2(c - 1);
      var q, r := (h / 2) / p, (h / 2) % p;
      assert h / 2 == q * p + r;
      assert h == q * (2 * p) + (2 * r + h % 2);
      DivUnique(h, 2 * p, q, 2 * r + h % 2);
    }
  }

  /** While every size halved so far was even, doubling the window j
      times undoes the last j halvings, with no wrap-around. */
  lemma {:induction false} DoubledHalved(h: nat, j: nat, c: nat)
    requires h <= INT32_MAX && c <= j
    requires forall e :: 0 <= e < j ==> HalvedSize(h, e) % 2 == 0
    ensures DoubledSize(HalvedSize(h, j), c) == HalvedSize(h, j - c)
    decreases c
  {
    if c > 0 {
      DoubledHalved(h, j, c - 1);
      DoubledSizeSnoc(HalvedSize(h, j), c - 1);
      HalvedSizeSnoc(h, j - c);
      assert HalvedSize(h, j - c) % 2 == 0;
    }
  }

  /** The inverse pass retraces the forward one: with k iterations and every
      forward size before the last even, `DecodeChannel` starts from
      `size >> (k - 1)` and its window after c doublings is the forward
      window of iteration k - 1 - c. */
  lemma DecodeRetracesForward(h: nat, k: nat, c: nat)
    requires h <= INT32_MAX && 1 <= k && c < k
    requires forall e :: 0 <= e < k - 1 ==> HalvedSize(h, e) % 2 == 0
    ensures DoubledSize(ShiftRight(h, (k - 1) % 32), c) == HalvedSize(h, k - 1 - c)
  {
    if h == 0 {
      ZeroHalved(k - 1 - c);
      ZeroDoubled(c);
    } else {
      FewHalvings(h, k - 1);
      assert (k - 1) % 32 == k - 1;
      HalvedSizeIsShift(h, k - 1);
      DoubledHalved(h, k - 1, c);
    }
  }

  /** A positive int halves evenly fewer than 31 times. */
  lemma FewHalvings(h: nat, j: nat)
    requires 0 < h <= INT32_MAX && forall e :: 0 <= e < j ==> HalvedSize(h, e) % 2 == 0
    ensures j < 31
  {
    if j >= 31 {
      EvenHalvingsDivide(h, 31);
      Pow2Words();
      assert false;
    }
  }

  /** Nothing comes of halving zero. */
  lemma {:induction false} ZeroHalved(c: nat)
    ensures HalvedSize(0, c) == 0
  {
    if c > 0 {
      ZeroHalved(c - 1);
    }
  }

  /** Nothing comes of doubling zero. */
  lemma {:induction false} ZeroDoubled(c: nat)
    ensures DoubledSize(0, c) == 0
  {
    if c > 0 {
      ZeroDoubled(c - 1);
    }
  }

  /** A positive size that halves evenly j times is at least 2^j. */
  lemma {:induction false} EvenHalvingsDivide(h: nat, j: nat)
    requires h > 0 && forall e :: 0 <= e < j ==> HalvedSize(h, e) % 2 == 0
    ensures h >= Pow2(j)
    decreases j
  {
    if j > 0 {
      assert h % 2 == 0 by { assert HalvedSize(h, 0) % 2 == 0; }
      forall e | 0 <= e < j - 1
        ensures HalvedSize(h / 2, e) % 2 == 0
      {
        assert HalvedSize(h, e + 1) % 2 == 0;
      }
      EvenHalvingsDivide(h / 2, j - 1);
    }
  }

  // ---------------------------------------------------------------------
  // When the passes succeed

  /** Every one of k levels, halving from h×w, converts its lines. */
  predicate LevelsOk(h: nat, w: nat, low: seq<real>, high: seq<real>, k: nat)
    decreases k
  {
    k == 0 || (LevelOk(h, w, low, high, 0) && LevelsOk(h / 2, w / 2, low, high, k - 1))
  }

  /** The forward iterations succeed exactly when every level converts, and
      otherwise throw what `PairConvolution` throws. */
  lemma {:induction false} ForwardFromLevels(g: Grid, h: nat, w: nat, low: seq<real>, high: seq<real>, k: nat)
    requires Fits(g, h, w)
    ensures ForwardFrom(g, h, w, low, high, k).Ok? <==> LevelsOk(h, w, low, high, k)
    ensures ForwardFrom(g, h, w, low, high, k).Err? ==> ForwardFrom(g, h, w, low, high, k).error == LineError(low, high)
    decreases k
  {
    if k > 0 {
      var step := ForwardStep(g, h, w, low, high);
      if step.Ok? {
        ForwardFromLevels(step.value, h / 2, w / 2, low, high, k - 1);
      }
    }
  }

  /** The levels, listed by the number of halvings before each. */
  lemma {:induction false} LevelsOkAll(h: nat, w: nat, low: seq<real>, high: seq<real>, k: nat)
    ensures LevelsOk(h, w, low, high, k) ==>
      forall c :: 0 <= c < k ==> LevelOk(HalvedSize(h, c), HalvedSize(w, c), low, high, 0)
    ensures (forall c :: 0 <= c < k ==> LevelOk(HalvedSize(h, c), HalvedSize(w, c), low, high, 0)) ==>
      LevelsOk(h, w, low, high, k)
    decreases k
  {
    if k > 0 {
      LevelsOkAll(h / 2, w / 2, low, high, k - 1);
      assert HalvedSize(h, 0) == h && HalvedSize(w, 0) == w;
      assert forall c :: 0 < c < k ==> HalvedSize(h, c) == HalvedSize(h / 2, c - 1) && HalvedSize(w, c) == HalvedSize(w / 2, c - 1);
      if LevelsOk(h, w, low, high, k) {
        forall c | 0 <= c < k
          ensures LevelOk(HalvedSize(h, c), HalvedSize(w, c), low, high, 0)
        {
          if c > 0 {
            assert LevelOk(HalvedSize(h / 2, c - 1), HalvedSize(w / 2, c - 1), low, high, 0);
          }
        }
      } else {
        var c :| 0 <= c < k && !LevelOk(HalvedSize(h, c), HalvedSize(w, c), low, high, 0) by {
          if LevelOk(h, w, low, high, 0) {
            var c' :| 0 <= c' < k - 1 && !LevelOk(HalvedSize(h / 2, c'), HalvedSize(w / 2, c'), low, high, 0);
            assert !LevelOk(HalvedSize(h, c' + 1), HalvedSize(w, c' + 1), low, high, 0);
          } else {
            assert !LevelOk(HalvedSize(h, 0), HalvedSize(w, 0), low, high, 0);
          }
        }
        assert !forall c' :: 0 <= c' < k ==> LevelOk(HalvedSize(h, c'), HalvedSize(w, c'), low, high, 0);
      }
    }
  }

  /** The decode iterations peeled from the end: one more iteration is the
      step at the window doubled k times. */
  lemma {:induction false} DecodeSnoc(g: Grid, rows: nat, cols: nat, h: int, w: int,
                                      iLow: seq<real>, iHigh: seq<real>, delta: int, k: nat)
    requires IsRect(g, rows, cols)
    ensures DecodeFrom(g, rows, cols, h, w, iLow, iHigh, delta, k + 1) ==
      match DecodeFrom(g, rows, cols, h, w, iLow, iHigh, delta, k)
      case Err(e) => Err(e)
      case Ok(y) => DecodeStep(y, rows, cols, DoubledSize(h, k), DoubledSize(w, k), iLow, iHigh, delta)
    decreases k
  {
    var step := DecodeStep(g, rows, cols, h, w, iLow, iHigh, delta);
    if k > 0 && step.Ok? {
      DecodeSnoc(step.value, rows, cols, Wrap32(2 * h), Wrap32(2 * w), iLow, iHigh, delta, k - 1);
    }
  }

  // ---------------------------------------------------------------------
  // Decoding undoes the forward passes

  /** One decode step undoes one forward step on the same window. */
  lemma StepRoundTrip(g: Grid, rows: nat, cols: nat, h: nat, w: nat, low: seq<real>, high: seq<real>,
                      iLow: seq<real>, iHigh: seq<real>, delta: int)
    requires IsRect(g, rows, cols) && 0 < h <= rows && 0 < w <= cols
    requires InvertsLines(h, low, high, iLow, iHigh, delta) && InvertsLines(w, low, high, iLow, iHigh, delta)
    ensures ForwardStep(g, h, w, low, high).Ok?
    ensures IsRect(ForwardStep(g, h, w, low, high).value, rows, cols)
    ensures DecodeStep(ForwardStep(g, h, w, low, high).value, rows, cols, h, w, iLow, iHigh, delta) == Ok(g)
  {
    LevelRoundTrip(Window(g, h, w), h, w, low, high, iLow, iHigh, delta);
    var f := ForwardLevel(Window(g, h, w), h, w, low, high);
    var x := Paste(g, f, h, w);
    assert ForwardStep(g, h, w, low, high) == Ok(x);
    PasteOverPaste(g, f, Window(g, h, w), h, w);
    PasteOwnWindow(g, h, w);
  }

  /** With filters whose inverse undoes them exactly on the lines of every
      window size, `DecodeChannel`'s iterations, starting from the last
      forward window and doubling, give back the channel the forward
      iterations started from. */
  lemma {:induction false} PassesRoundTrip(g: Grid, rows: nat, cols: nat, h: nat, w: nat, low: seq<real>, high: seq<real>,
                                           iLow: seq<real>, iHigh: seq<real>, delta: int, k: nat)
    requires IsRect(g, rows, cols) && 0 < h <= rows <= INT32_MAX && 0 < w <= cols <= INT32_MAX && k >= 1
    requires forall c :: 0 <= c < k ==>
      InvertsLines(HalvedSize(h, c), low, high, iLow, iHigh, delta) && InvertsLines(HalvedSize(w, c), low, high, iLow, iHigh, delta)
    ensures ForwardFrom(g, h, w, low, high, k).Ok?
    ensures DecodeFrom(ForwardFrom(g, h, w, low, high, k).value, rows, cols, HalvedSize(h, k - 1), HalvedSize(w, k - 1),
                       iLow, iHigh, delta, k) == Ok(g)
    decreases k
  {
    assert HalvedSize(h, 0) == h && HalvedSize(w, 0) == w;
    StepRoundTrip(g, rows, cols, h, w, low, high, iLow, iHigh, delta);
    var g1 := ForwardStep(g, h, w, low, high).value;
    if k == 1 {
      assert ForwardFrom(g, h, w, low, high, 1) == Ok(g1);
      DecodeLast(g1, g1, g, rows, cols, h, w, h, w, iLow, iHigh, delta, 0);
    } else {
      InvertsLinesOk(h, low, high, iLow, iHigh, delta);
      InvertsLinesOk(w, low, high, iLow, iHigh, delta);
      PassesLinesHalved(h, w, low, high, iLow, iHigh, delta, k);
      PassesRoundTrip(g1, rows, cols, h / 2, w / 2, low, high, iLow, iHigh, delta, k - 1);
      PassesStep(g, g1, rows, cols, h, w, low, high, iLow, iHigh, delta, k);
    }
  }

  /** One more iteration on each side of `PassesRoundTrip`: the forward
      iterations run the first step and then the rest on the halved window;
      the decode iterations run the rest and then the step on the doubled
      window. */
  lemma PassesStep(g: Grid, g1: Grid, rows: nat, cols: nat, h: nat, w: nat, low: seq<real>, high: seq<real>,
                   iLow: seq<real>, iHigh: seq<real>, delta: int, k: nat)
    requires IsRect(g, rows, cols) && 0 < h <= rows <= INT32_MAX && 0 < w <= cols <= INT32_MAX && k > 1
    requires ForwardStep(g, h, w, low, high) == Ok(g1) && IsRect(g1, rows, cols)
    requires DecodeStep(g1, rows, cols, h, w, iLow, iHigh, delta) == Ok(g)
    requires forall e :: 0 <= e < k - 1 ==> HalvedSize(h, e) % 2 == 0 && HalvedSize(w, e) % 2 == 0
    requires ForwardFrom(g1, h / 2, w / 2, low, high, k - 1).Ok?
    requires DecodeFrom(ForwardFrom(g1, h / 2, w / 2, low, high, k - 1).value, rows, cols,
                        HalvedSize(h / 2, k - 2), HalvedSize(w / 2, k - 2), iLow, iHigh, delta, k - 1) == Ok(g1)
    ensures ForwardFrom(g, h, w, low, high, k).Ok?
    ensures DecodeFrom(ForwardFrom(g, h, w, low, high, k).value, rows, cols, HalvedSize(h, k - 1), HalvedSize(w, k - 1),
                       iLow, iHigh, delta, k) == Ok(g)
  {
    assert ForwardFrom(g, h, w, low, high, k) == ForwardFrom(g1, h / 2, w / 2, low, high, k - 1);
    var x := ForwardFrom(g1, h / 2, w / 2, low, high, k - 1).value;
    var s, t := HalvedSize(h / 2, k - 2), HalvedSize(w / 2, k - 2);
    LastWindowDoubles(h, k);
    LastWindowDoubles(w, k);
    assert IsRect(x, rows, cols) by {
      assert SameShape(x, g1);
    }
    DecodeLast(x, g1, g, rows, cols, h, w, s, t, iLow, iHigh, delta, k - 1);
  }

  /** The window sizes of the later iterations of `PassesRoundTrip`. */
  lemma PassesLinesHalved(h: nat, w: nat, low: seq<real>, high: seq<real>,
                          iLow: seq<real>, iHigh: seq<real>, delta: int, k: nat)
    requires k > 1
    requires forall c :: 0 <= c < k ==>
      InvertsLines(HalvedSize(h, c), low, high, iLow, iHigh, delta) && InvertsLines(HalvedSize(w, c), low, high, iLow, iHigh, delta)
    ensures forall c :: 0 <= c < k - 1 ==>
      InvertsLines(HalvedSize(h / 2, c), low, high, iLow, iHigh, delta) && InvertsLines(HalvedSize(w / 2, c), low, high, iLow, iHigh, delta)
    ensures forall e :: 0 <= e < k - 1 ==> HalvedSize(h, e) % 2 == 0 && HalvedSize(w, e) % 2 == 0
  {
    forall c | 0 <= c < k - 1
      ensures InvertsLines(HalvedSize(h / 2, c), low, high, iLow, iHigh, delta)
      ensures InvertsLines(HalvedSize(w / 2, c), low, high, iLow, iHigh, delta)
    {
      assert HalvedSize(h, c + 1) == HalvedSize(h / 2, c) && HalvedSize(w, c + 1) == HalvedSize(w / 2, c);
    }
    forall e | 0 <= e < k - 1
      ensures HalvedSize(h, e) % 2 == 0 && HalvedSize(w, e) % 2 == 0
    {
      InvertsLinesOk(HalvedSize(h, e), low, high, iLow, iHigh, delta);
      InvertsLinesOk(HalvedSize(w, e), low, high, iLow, iHigh, delta);
    }
  }

  /** The window of the last forward iteration, doubled once for each
      iteration before it, is the whole window again. */
  lemma LastWindowDoubles(h: nat, k: nat)
    requires h <= INT32_MAX && k > 1
    requires forall e :: 0 <= e < k - 1 ==> HalvedSize(h, e) % 2 == 0
    ensures HalvedSize(h, k - 1) == HalvedSize(h / 2, k - 2)
    ensures DoubledSize(HalvedSize(h / 2, k - 2), k - 1) == h
  {
    assert HalvedSize(h, 0) == h;
    DoubledHalved(h, k - 1, k - 1);
  }

  /** The last decode iteration, at the window the earlier ones doubled to. */
  lemma DecodeLast(x: Grid, g1: Grid, g: Grid, rows: nat, cols: nat, h: int, w: int, s: int, t: int,
                   iLow: seq<real>, iHigh: seq<real>, delta: int, j: nat)
    requires IsRect(x, rows, cols)
    requires DecodeFrom(x, rows, cols, s, t, iLow, iHigh, delta, j) == Ok(g1)
    requires DoubledSize(s, j) == h && DoubledSize(t, j) == w
    requires DecodeStep(g1, rows, cols, h, w, iLow, iHigh, delta) == Ok(g)
    ensures DecodeFrom(x, rows, cols, s, t, iLow, iHigh, delta, j + 1) == Ok(g)
  {
    DecodeSnoc(x, rows, cols, s, t, iLow, iHigh, delta, j);
  }

  // ---------------------------------------------------------------------
  // The threshold step

  /** `Math.Abs` on doubles. */
  function Abs(x: real): real
  {
    if x < 0.0 then -x else x
  }

  /** The last loop of `DoApplyWavelet` on one coefficient: below the
      threshold in magnitude it becomes 0, otherwise it is multiplied by 255.
      So a coefficient is zeroed exactly when it is below the threshold or
      already zero, and every other one ends at least 255 times the
      threshold in magnitude. */
  function Thresholded(x: real, threshold: real): (r: real)
    ensures r == 0.0 <==> Abs(x) < threshold || x == 0.0
    ensures r != 0.0 ==> r == 255.0 * x && Abs(r) >= 255.0 * threshold
  {
    if Abs(x) < threshold then 0.0 else x * 255.0
  }

  /** The threshold step over the whole channel. */
  function ThresholdedGrid(g: Grid, threshold: real): (r: Grid)
    ensures SameShape(r, g)
    ensures forall i, j :: 0 <= i < |g| && 0 <= j < |g[i]| ==> r[i][j] == Thresholded(g[i][j], threshold)
  {
    seq(|g|, i requires 0 <= i < |g| => seq(|g[i]|, j requires 0 <= j < |g[i]| => Thresholded(g[i][j], threshold)))
  }

  // ---------------------------------------------------------------------
  // DoApplyWavelet and DecodeChannel

  /** The iteration count as the `for` loops use it: a negative count runs
      no iteration. */
  function Iterations(iterationsCount: int32): nat
  {
    if iterationsCount > 0 then iterationsCount else 0
  }

  /** What `DoApplyWavelet` leaves in a rows×cols channel: the filters of
      the wavelet type, `iterationsCount` forward iterations from the whole
      channel, then the threshold step. */
  function Applied(g: Grid, rows: nat, cols: nat, waveletType: byte, iterationsCount: int32, threshold: real,
                   sqrt2: real, sqrt3: real): (r: Result<Grid>)
    requires IsRect(g, rows, cols) && sqrt2 > 0.0
    ensures r.Ok? ==> SameShape(r.value, g)
    ensures waveletType !in {W.Haar1, W.Haar2, W.D4, W.D6} ==> r == Err(ArgumentOutOfRange)
  {
    var low :- W.CoefsByWaveletType(waveletType, sqrt2, sqrt3);
    var levels :- ForwardFrom(g, rows, cols, low, W.HighPass(low), Iterations(iterationsCount));
    Ok(ThresholdedGrid(levels, threshold))
  }

  /** What `DecodeChannel` returns for a rows×cols channel: the inverse
      filters of the wavelet type, shifted by their length less two, and
      `iterationsCount` decode iterations from the window
      `size >> (iterationsCount - 1)` (the shift count taken modulo 32, as
      C# does). */
  function Decoded(g: Grid, rows: nat, cols: nat, waveletType: byte, iterationsCount: int32, sqrt2: real, sqrt3: real)
    : (r: Result<Grid>)
    requires IsRect(g, rows, cols) && sqrt2 > 0.0
    ensures r.Ok? ==> IsRect(r.value, rows, cols)
    ensures waveletType !in {W.Haar1, W.Haar2, W.D4, W.D6} ==> r == Err(ArgumentOutOfRange)
  {
    var low :- W.CoefsByWaveletType(waveletType, sqrt2, sqrt3);
    var inverse :- W.InverseCoefs(low, W.HighPass(low));
    var shift := (iterationsCount - 1) % 32;
    DecodeFrom(g, rows, cols, ShiftRight(rows, shift), ShiftRight(cols, shift),
               inverse.0, inverse.1, |inverse.0| - 2, Iterations(iterationsCount))
  }

  /** Without a shift no tap falls before the start of a line. */
  lemma TapsInsideUnshifted(m: nat, n: nat)
    ensures W.AllTapsInside(m, n, 0)
  {
  }

  /** With the filters of a known wavelet type, `DoApplyWavelet` succeeds
      exactly when every window it convolves has even sizes (a window with
      no rows or no columns converts nothing), and otherwise throws
      IndexOutOfRange. */
  lemma AppliedOk(g: Grid, rows: nat, cols: nat, waveletType: byte, iterationsCount: int32, threshold: real,
                  sqrt2: real, sqrt3: real)
    requires IsRect(g, rows, cols) && sqrt2 > 0.0
    requires waveletType in {W.Haar1, W.Haar2, W.D4, W.D6}
    ensures Applied(g, rows, cols, waveletType, iterationsCount, threshold, sqrt2, sqrt3).Ok? <==>
      forall c :: 0 <= c < Iterations(iterationsCount) ==>
        (HalvedSize(rows, c) == 0 || HalvedSize(cols, c) % 2 == 0) &&
        (HalvedSize(cols, c) == 0 || HalvedSize(rows, c) % 2 == 0)
    ensures Applied(g, rows, cols, waveletType, iterationsCount, threshold, sqrt2, sqrt3).Err? ==>
      Applied(g, rows, cols, waveletType, iterationsCount, threshold, sqrt2, sqrt3).error == IndexOutOfRange
  {
    var low := W.CoefsByWaveletType(waveletType, sqrt2, sqrt3).value;
    var high := W.HighPass(low);
    var k := Iterations(iterationsCount);
    ForwardFromLevels(g, rows, cols, low, high, k);
    LevelsOkAll(rows, cols, low, high, k);
    var r := Applied(g, rows, cols, waveletType, iterationsCount, threshold, sqrt2, sqrt3);
    assert r.Ok? <==> LevelsOk(rows, cols, low, high, k);
    if r.Ok? {
      forall c | 0 <= c < k
        ensures (HalvedSize(rows, c) == 0 || HalvedSize(cols, c) % 2 == 0) &&
                (HalvedSize(cols, c) == 0 || HalvedSize(rows, c) % 2 == 0)
      {
        assert LevelOk(HalvedSize(rows, c), HalvedSize(cols, c), low, high, 0);
      }
    } else {
      var c :| 0 <= c < k && !LevelOk(HalvedSize(rows, c), HalvedSize(cols, c), low, high, 0);
      TapsInsideUnshifted(HalvedSize(rows, c), |low|);
      TapsInsideUnshifted(HalvedSize(cols, c), |low|);
      assert !((HalvedSize(rows, c) == 0 || HalvedSize(cols, c) % 2 == 0) &&
               (HalvedSize(cols, c) == 0 || HalvedSize(rows, c) % 2 == 0));
    }
  }

  /** A two-tap filter [a, b] of unit norm is undone exactly by its own
      inverse filters on every line of even length. */
  lemma TwoTapInvertsLines(m: nat, a: real, b: real)
    requires m % 2 == 0 && a * a + b * b == 1.0
    ensures InvertsLines(m, [a, b], [b, -a], [a, b], [b, -a], 0)
  {
    W.TwoTapInverse(a, b);
    forall x: seq<real> | |x| == m
      ensures W.PairConvolved(x, [a, b], [b, -a], 0).Ok?
      ensures W.PairConvolved(W.PairConvolved(x, [a, b], [b, -a], 0).value, [a, b], [b, -a], 0) == Ok(x)
    {
      W.TwoTapRoundTrip(x, a, b);
      W.ScaledByOne(x);
    }
  }

  /** For the Haar 1/√2 wavelet with an exact square root, `DecodeChannel`
      with k iterations gives back exactly the channel `DoApplyWavelet`'s k
      forward iterations started from, whenever those iterations succeed
      (every window size before the last one even). */
  lemma Haar2RoundTrip(g: Grid, rows: nat, cols: nat, k: int32, sqrt2: real, sqrt3: real)
    requires sqrt2 > 0.0 && sqrt2 * sqrt2 == 2.0
    requires IsRect(g, rows, cols) && 0 < rows <= INT32_MAX && 0 < cols <= INT32_MAX && k >= 1
    requires forall c :: 0 <= c < k ==> HalvedSize(rows, c) % 2 == 0 && HalvedSize(cols, c) % 2 == 0
    ensures var low := W.CoefsByWaveletType(W.Haar2, sqrt2, sqrt3).value;
      var levels := ForwardFrom(g, rows, cols, low, W.HighPass(low), k);
      levels.Ok? && Decoded(levels.value, rows, cols, W.Haar2, k, sqrt2, sqrt3) == Ok(g)
  {
    var a := 1.0 / sqrt2;
    W.ProductOfQuotients(1.0, 1.0, sqrt2);
    assert a * a + a * a == 1.0;
    var low := [a, a];
    W.TwoTapInverse(a, a);
    assert W.CoefsByWaveletType(W.Haar2, sqrt2, sqrt3).value == low;
    forall c | 0 <= c < k
      ensures InvertsLines(HalvedSize(rows, c), low, [a, -a], low, [a, -a], 0)
      ensures InvertsLines(HalvedSize(cols, c), low, [a, -a], low, [a, -a], 0)
    {
      TwoTapInvertsLines(HalvedSize(rows, c), a, a);
      TwoTapInvertsLines(HalvedSize(cols, c), a, a);
    }
    PassesRoundTrip(g, rows, cols, rows, cols, low, [a, -a], low, [a, -a], 0, k);
    DecodeRetracesForward(rows, k, 0);
    DecodeRetracesForward(cols, k, 0);
  }
}
