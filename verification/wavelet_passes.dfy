/** The passes of Algorithms/Wavelets/Wavelet.cs as the arrays they
    overwrite: `DoApplyWavelet` works in place on a `double[,]` channel with
    one scratch array `result`, `DecodeChannel` in place on its channel with
    one scratch array `orderedChannel`. Each method is proved against the
    grid functions of WaveletChannel. An exception is an `Outcome.Fail`;
    since an exception leaves the pass and the caller drops the arrays, the
    contents of the arrays after a failure are not specified. */
module WaveletPasses {
  import opened Common
  import opened Grids
  import W = Wavelet
  import opened WaveletChannel

  // ---------------------------------------------------------------------
  // Copying one line out of a channel and back

  /** The first w cells of row i of src into `line`. */
  method ReadRow(src: array2<real>, i: nat, w: nat, line: array<real>)
    requires line.Length == w && (w == 0 || (i < src.Length0 && w <= src.Length1))
    modifies line
    ensures forall q :: 0 <= q < w ==> line[q] == src[i, q]
  {
    for j := 0 to w
      invariant forall q :: 0 <= q < j ==> line[q] == src[i, q]
    {
      line[j] := src[i, j];
    }
  }

  /** The first h cells of column j of src into `line`. */
  method ReadColumn(src: array2<real>, j: nat, h: nat, line: array<real>)
    requires line.Length == h && (h == 0 || (h <= src.Length0 && j < src.Length1))
    modifies line
    ensures forall p :: 0 <= p < h ==> line[p] == src[p, j]
  {
    for i := 0 to h
      invariant forall p :: 0 <= p < i ==> line[p] == src[p, j]
    {
      line[i] := src[i, j];
    }
  }

  /** A converted line over the first cells of row i of dst. */
  method WriteRow(dst: array2<real>, i: nat, r: seq<real>)
    requires |r| == 0 || (i < dst.Length0 && |r| <= dst.Length1)
    modifies dst
    ensures forall p, q :: 0 <= p < dst.Length0 && 0 <= q < dst.Length1 ==>
      dst[p, q] == if p == i && q < |r| then r[q] else old(dst[p, q])
  {
    for j := 0 to |r|
      invariant forall p, q :: 0 <= p < dst.Length0 && 0 <= q < dst.Length1 ==>
        dst[p, q] == if p == i && q < j then r[q] else old(dst[p, q])
    {
      dst[i, j] := r[j];
    }
  }

  /** A converted line over the first cells of column j of dst. */
  method WriteColumn(dst: array2<real>, j: nat, r: seq<real>)
    requires |r| == 0 || (|r| <= dst.Length0 && j < dst.Length1)
    modifies dst
    ensures forall p, q :: 0 <= p < dst.Length0 && 0 <= q < dst.Length1 ==>
      dst[p, q] == if q == j && p < |r| then r[p] else old(dst[p, q])
  {
    for i := 0 to |r|
      invariant forall p, q :: 0 <= p < dst.Length0 && 0 <= q < dst.Length1 ==>
        dst[p, q] == if q == j && p < i then r[p] else old(dst[p, q])
    {
      dst[i, j] := r[i];
    }
  }

  // ---------------------------------------------------------------------
  // Row and column passes

  /** The row pass: each of the first h rows of src, its first w cells
      copied into `line`, pair-convolved and copied into the same row of
      dst. src and dst may be one array (the row pass of `DecodeChannel`):
      each row is copied out before it is overwritten. The pass throws at
      its first row when the rows do not convert, before anything is
      written. A pass with no cells to copy does not touch the arrays, so
      the window may then be larger than they are. */
  method ConvolveRows(src: array2<real>, dst: array2<real>, h: nat, w: nat, low: seq<real>, high: seq<real>, delta: int)
    returns (o: Outcome)
    requires h == 0 || w == 0 || (h <= src.Length0 && h <= dst.Length0 && w <= src.Length1 && w <= dst.Length1)
    modifies dst
    ensures o.Pass? <==> h == 0 || LineOk(w, low, high, delta)
    ensures o.Fail? ==> o.error == LineError(low, high) && Cells(dst) == old(Cells(dst))
    ensures h == 0 || w == 0 ==> Cells(dst) == old(Cells(dst))
    ensures o.Pass? && h > 0 && w > 0 ==>
      Cells(dst) == Paste(old(Cells(dst)), RowsConvolved(Window(old(Cells(src)), h, w), h, w, low, high, delta), h, w)
  {
    ghost var v := if h == 0 || w == 0 then [] else Window(Cells(src), h, w);
    ghost var out := if w > 0 && LineOk(w, low, high, delta) then RowsConvolved(v, h, w, low, high, delta) else [];
    var line := new real[w];
    var i := 0;
    while i < h
      invariant 0 <= i <= h
      invariant i > 0 ==> LineOk(w, low, high, delta)
      invariant w > 0 ==> forall p, q :: i <= p < h && 0 <= q < w ==> src[p, q] == v[p][q]
      invariant forall p, q :: 0 <= p < dst.Length0 && 0 <= q < dst.Length1 ==>
        dst[p, q] == if p < i && q < w then out[p][q] else old(dst[p, q])
    {
      ReadRow(src, i, w, line);
      LineOutcome(line[..], low, high, delta);
      var resultLine := W.PairConvolution(line[..], low, high, delta);
      if resultLine.Err? {
        SameShapeExtensional(Cells(dst), old(Cells(dst)));
        return Fail(resultLine.error);
      }
      if w > 0 {
        assert line[..] == v[i];
        RowOfRowsConvolved(v, h, w, low, high, delta, i);
      }
      WriteRow(dst, i, resultLine.value);
      i := i + 1;
    }
    if h > 0 && w > 0 {
      SameShapeExtensional(Cells(dst), Paste(old(Cells(dst)), out, h, w));
    } else {
      SameShapeExtensional(Cells(dst), old(Cells(dst)));
    }
    return Pass;
  }

  /** Columns j and on of the h × w window of src still hold v. */
  ghost predicate ColumnsKept(src: array2<real>, v: Grid, h: nat, w: nat, j: nat)
    reads src
  {
    IsRect(v, h, w) && h <= src.Length0 && w <= src.Length1 &&
    forall p, q :: 0 <= p < h && j <= q < w ==> src[p, q] == v[p][q]
  }

  /** The first j columns of the h-row window of dst hold out; every other
      cell of dst holds start. */
  ghost predicate ColumnsPasted(dst: array2<real>, start: Grid, out: Grid, h: nat, j: nat)
    reads dst
  {
    IsRect(start, dst.Length0, dst.Length1) &&
    (j > 0 && h > 0 ==> h <= |out| && forall p :: 0 <= p < h ==> j <= |out[p]|) &&
    forall p, q :: 0 <= p < dst.Length0 && 0 <= q < dst.Length1 ==>
      dst[p, q] == if q < j && p < h then out[p][q] else start[p][q]
  }

  /** One round of the column pass: column j of the window read into
      `line`, pair-convolved and written back into column j of dst. */
  method ConvolveColumn(src: array2<real>, dst: array2<real>, h: nat, w: nat, low: seq<real>, high: seq<real>, delta: int,
                        line: array<real>, j: nat, ghost v: Grid, ghost out: Grid, ghost start: Grid)
    returns (o: Outcome)
    requires j < w && line.Length == h
    requires h == 0 || (h <= src.Length0 && h <= dst.Length0 && w <= src.Length1 && w <= dst.Length1)
    requires h > 0 ==> ColumnsKept(src, v, h, w, j)
    requires h > 0 && LineOk(h, low, high, delta) ==> out == ColumnsConvolved(v, h, w, low, high, delta)
    requires ColumnsPasted(dst, start, out, h, j)
    modifies dst, line
    ensures o.Pass? <==> LineOk(h, low, high, delta)
    ensures o.Fail? ==> o.error == LineError(low, high) && unchanged(dst)
    ensures o.Pass? ==> (h > 0 ==> ColumnsKept(src, v, h, w, j + 1)) && ColumnsPasted(dst, start, out, h, j + 1)
  {
    ReadColumn(src, j, h, line);
    LineOutcome(line[..], low, high, delta);
    var resultLine := W.PairConvolution(line[..], low, high, delta);
    if resultLine.Err? {
      return Fail(resultLine.error);
    }
    if h > 0 {
      assert line[..] == Column(v, j, h);
      ColumnOfColumnsConvolved(v, h, w, low, high, delta, j);
      assert forall p :: 0 <= p < h ==> resultLine.value[p] == out[p][j] by {
        assert forall p :: 0 <= p < h ==> Column(out, j, h)[p] == out[p][j];
      }
    }
    WriteColumn(dst, j, resultLine.value);
    return Pass;
  }

  /** The column pass: each of the first w columns of src, its first h
      cells copied into `line`, pair-convolved and copied into the same
      column of dst. src and dst may be one array (the column pass of
      `DoApplyWavelet`): each column is copied out before it is
      overwritten. It throws at its first column when the columns do not
      convert, before anything is written. */
  method ConvolveColumns(src: array2<real>, dst: array2<real>, h: nat, w: nat, low: seq<real>, high: seq<real>, delta: int)
    returns (o: Outcome)
    requires h == 0 || w == 0 || (h <= src.Length0 && h <= dst.Length0 && w <= src.Length1 && w <= dst.Length1)
    modifies dst
    ensures o.Pass? <==> w == 0 || LineOk(h, low, high, delta)
    ensures o.Fail? ==> o.error == LineError(low, high) && Cells(dst) == old(Cells(dst))
    ensures h == 0 || w == 0 ==> Cells(dst) == old(Cells(dst))
    ensures o.Pass? && h > 0 && w > 0 ==>
      Cells(dst) == Paste(old(Cells(dst)), ColumnsConvolved(Window(old(Cells(src)), h, w), h, w, low, high, delta), h, w)
  {
    ghost var start := Cells(dst);
    ghost var v := if h == 0 || w == 0 then [] else Window(Cells(src), h, w);
    ghost var out := if h > 0 && w > 0 && LineOk(h, low, high, delta) then ColumnsConvolved(v, h, w, low, high, delta) else [];
    var line := new real[h];
    var j := 0;
    while j < w
      invariant 0 <= j <= w
      invariant j > 0 ==> LineOk(h, low, high, delta)
      invariant h > 0 && w > 0 ==> ColumnsKept(src, v, h, w, j)
      invariant ColumnsPasted(dst, start, out, h, j)
    {
      o := ConvolveColumn(src, dst, h, w, low, high, delta, line, j, v, out, start);
      if o.Fail? {
        SameShapeExtensional(Cells(dst), start);
        return;
      }
      j := j + 1;
    }
    if h > 0 && w > 0 {
      SameShapeExtensional(Cells(dst), Paste(start, out, h, w));
    } else {
      SameShapeExtensional(Cells(dst), start);
    }
    return Pass;
  }

  // ---------------------------------------------------------------------
  // Scatter, gather and threshold

  /** The scatter of `DoApplyWavelet`: cell (i, j) of the h×w window of
      `result` goes to (Deinterleave(i), Deinterleave(j)) of the channel. It
      is only reached with even sizes, or with an empty window. */
  method Scatter(src: array2<real>, dst: array2<real>, h: nat, w: nat)
    requires src != dst && h <= src.Length0 && h <= dst.Length0 && w <= src.Length1 && w <= dst.Length1
    requires (h % 2 == 0 && w % 2 == 0) || h == 0 || w == 0
    modifies dst
    ensures h > 0 && w > 0 ==> Cells(dst) == Paste(old(Cells(dst)), Scattered(Window(Cells(src), h, w), h, w), h, w)
    ensures h == 0 || w == 0 ==> Cells(dst) == old(Cells(dst))
  {
    for i := 0 to h
      invariant forall p, q :: 0 <= p < dst.Length0 && 0 <= q < dst.Length1 ==>
        dst[p, q] == if p < h && q < w && Interleave(p, h) < i then src[Interleave(p, h), Interleave(q, w)] else old(dst[p, q])
    {
      for j := 0 to w
        invariant forall p, q :: 0 <= p < dst.Length0 && 0 <= q < dst.Length1 ==>
          dst[p, q] == if p < h && q < w && (Interleave(p, h) < i || (Interleave(p, h) == i && Interleave(q, w) < j))
                       then src[Interleave(p, h), Interleave(q, w)] else old(dst[p, q])
      {
        InterleaveHits(i, h);
        InterleaveHits(j, w);
        dst[Deinterleave(i, h), Deinterleave(j, w)] := src[i, j];
      }
    }
    if h > 0 && w > 0 {
      var v := Window(Cells(src), h, w);
      SameShapeExtensional(Cells(dst), Paste(old(Cells(dst)), Scattered(v, h, w), h, w));
    } else {
      SameShapeExtensional(Cells(dst), old(Cells(dst)));
    }
  }

  /** The gather of `DecodeChannel`: cell (i, j) of `orderedChannel` reads
      (Deinterleave(i), Deinterleave(j)) of the channel, for i below h and j
      below w. A window larger than the channel throws IndexOutOfRange at
      the first cell out of bounds; a window with no rows or no columns
      reads nothing. */
  method Gather(src: array2<real>, dst: array2<real>, h: int, w: int) returns (o: Outcome)
    requires src != dst && src.Length0 == dst.Length0 && src.Length1 == dst.Length1
    modifies dst
    ensures o.Pass? <==> !(h > 0 && w > 0 && (h > dst.Length0 || w > dst.Length1))
    ensures o.Fail? ==> o.error == IndexOutOfRange
    ensures o.Pass? && h > 0 && w > 0 ==>
      Cells(dst) == Paste(old(Cells(dst)), Gathered(Window(Cells(src), h, w), h, w), h, w)
    ensures h <= 0 || w <= 0 ==> Cells(dst) == old(Cells(dst))
  {
    if h <= 0 || w <= 0 {
      SameShapeExtensional(Cells(dst), old(Cells(dst)));
      return Pass;
    }
    ghost var fits := h <= dst.Length0 && w <= dst.Length1;
    var i := 0;
    while i < h
      invariant 0 <= i <= h && i <= dst.Length0
      invariant i > 0 ==> w <= dst.Length1
      invariant fits ==> forall p, q :: 0 <= p < dst.Length0 && 0 <= q < dst.Length1 ==>
        dst[p, q] == if p < i && q < w then src[Deinterleave(p, h), Deinterleave(q, w)] else old(dst[p, q])
    {
      var j := 0;
      while j < w
        invariant 0 <= j <= w && j <= dst.Length1 && (j > 0 ==> i < dst.Length0)
        invariant fits ==> forall p, q :: 0 <= p < dst.Length0 && 0 <= q < dst.Length1 ==>
          dst[p, q] == if (p < i && q < w) || (p == i && q < j) then src[Deinterleave(p, h), Deinterleave(q, w)]
                       else old(dst[p, q])
      {
        if Deinterleave(i, h) >= src.Length0 || Deinterleave(j, w) >= src.Length1 || i >= dst.Length0 || j >= dst.Length1 {
          return Fail(IndexOutOfRange);
        }
        dst[i, j] := src[Deinterleave(i, h), Deinterleave(j, w)];
        j := j + 1;
      }
      i := i + 1;
    }
    var v := Window(Cells(src), h, w);
    SameShapeExtensional(Cells(dst), Paste(old(Cells(dst)), Gathered(v, h, w), h, w));
    return Pass;
  }

  /** The last loop of `DoApplyWavelet`, over the whole channel. */
  method Threshold(channel: array2<real>, threshold: real)
    modifies channel
    ensures Cells(channel) == ThresholdedGrid(old(Cells(channel)), threshold)
  {
    for i := 0 to channel.Length0
      invariant forall p, q :: 0 <= p < channel.Length0 && 0 <= q < channel.Length1 ==>
        channel[p, q] == if p < i then Thresholded(old(channel[p, q]), threshold) else old(channel[p, q])
    {
      for j := 0 to channel.Length1
        invariant forall p, q :: 0 <= p < channel.Length0 && 0 <= q < channel.Length1 ==>
          channel[p, q] == if p < i || (p == i && q < j) then Thresholded(old(channel[p, q]), threshold) else old(channel[p, q])
      {
        channel[i, j] := Thresholded(channel[i, j], threshold);
      }
    }
    SameShapeExtensional(Cells(channel), ThresholdedGrid(old(Cells(channel)), threshold));
  }

  // ---------------------------------------------------------------------
  // One iteration of each direction

  /** One iteration of the loop of `DoApplyWavelet` on the h×w window: the
      row pass from the channel into `result`, the column pass in place on
      `result`, then the scatter back into the channel. */
  method ForwardIteration(channel: array2<real>, result: array2<real>, h: nat, w: nat, low: seq<real>, high: seq<real>)
    returns (o: Outcome)
    requires channel != result && result.Length0 == channel.Length0 && result.Length1 == channel.Length1
    requires h <= channel.Length0 && w <= channel.Length1
    modifies channel, result
    ensures var r := ForwardStep(old(Cells(channel)), h, w, low, high);
      (o.Pass? <==> r.Ok?) && (o.Fail? ==> o.error == r.error) && (o.Pass? ==> Cells(channel) == r.value)
  {
    ghost var g := Cells(channel);
    var rows := ConvolveRows(channel, result, h, w, low, high, 0);
    if rows.Fail? {
      return rows;
    }
    ghost var afterRows := Cells(result);
    var columns := ConvolveColumns(result, result, h, w, low, high, 0);
    if columns.Fail? {
      return columns;
    }
    assert Cells(channel) == g;
    Scatter(result, channel, h, w);
    if h > 0 && w > 0 {
      var v := Window(g, h, w);
      var byRows := RowsConvolved(v, h, w, low, high, 0);
      PasteOverPaste(old(Cells(result)), byRows, byRows, h, w);
      var byColumns := ColumnsConvolved(byRows, h, w, low, high, 0);
      PasteOverPaste(afterRows, byColumns, byColumns, h, w);
    }
    return Pass;
  }

  /** One iteration of the loop of `DecodeChannel` on the h×w window: the
      gather into `orderedChannel`, the column pass from it into the
      channel, then the row pass in place on the channel. Allocating the
      line of a pass throws Overflow when its size is negative; a pass
      with no line to convert reads nothing. */
  method DecodeIteration(channel: array2<real>, ordered: array2<real>, h: int, w: int,
                         iLow: seq<real>, iHigh: seq<real>, delta: int)
    returns (o: Outcome)
    requires channel != ordered && ordered.Length0 == channel.Length0 && ordered.Length1 == channel.Length1
    modifies channel, ordered
    ensures var r := DecodeStep(old(Cells(channel)), channel.Length0, channel.Length1, h, w, iLow, iHigh, delta);
      (o.Pass? <==> r.Ok?) && (o.Fail? ==> o.error == r.error) && (o.Pass? ==> Cells(channel) == r.value)
  {
    ghost var g := Cells(channel);
    var gather := Gather(channel, ordered, h, w);
    if gather.Fail? {
      return gather;
    }
    if h < 0 {
      return Fail(Overflow);
    }
    if w > 0 {
      var columns := ConvolveColumns(ordered, channel, h, w, iLow, iHigh, delta);
      if columns.Fail? {
        return columns;
      }
    }
    if w < 0 {
      return Fail(Overflow);
    }
    ghost var afterColumns := Cells(channel);
    var rows := ConvolveRows(channel, channel, h, w, iLow, iHigh, delta);
    if rows.Fail? {
      return rows;
    }
    if h > 0 && w > 0 {
      var v := Window(g, h, w);
      var gathered := Gathered(v, h, w);
      PasteOverPaste(old(Cells(ordered)), gathered, gathered, h, w);
      var byColumns := ColumnsConvolved(gathered, h, w, iLow, iHigh, delta);
      PasteOverPaste(g, byColumns, RowsConvolved(byColumns, h, w, iLow, iHigh, delta), h, w);
    }
    return Pass;
  }

  // ---------------------------------------------------------------------
  // The two passes

  /** `DoApplyWavelet`: the filters of the wavelet type, then
      `IterationsCount` iterations, the window halving (`>>= 1`) after each,
      then the threshold over the whole channel. It throws what
      `GetCoefsByWaveletType` or an iteration throws. */
  method DoApplyWavelet(channel: array2<real>, waveletType: byte, iterationsCount: int32, threshold: real,
                        sqrt2: real, sqrt3: real)
    returns (o: Outcome)
    requires sqrt2 > 0.0
    modifies channel
    ensures var r := Applied(old(Cells(channel)), channel.Length0, channel.Length1, waveletType, iterationsCount,
                             threshold, sqrt2, sqrt3);
      (o.Pass? <==> r.Ok?) && (o.Fail? ==> o.error == r.error) && (o.Pass? ==> Cells(channel) == r.value)
  {
    var coefs := W.CoefsByWaveletType(waveletType, sqrt2, sqrt3);
    if coefs.Err? {
      return Fail(coefs.error);
    }
    var lowerCoefs := coefs.value;
    var higherCoefs := W.GetHighPassFilter(lowerCoefs);
    var height := channel.Length0;
    var width := channel.Length1;
    var result := new real[height, width];
    ghost var g := Cells(channel);
    ghost var k := Iterations(iterationsCount);
    var counter := 0;
    while counter < iterationsCount
      invariant 0 <= counter <= k
      invariant height == HalvedSize(channel.Length0, counter) && width == HalvedSize(channel.Length1, counter)
      invariant ForwardFrom(g, channel.Length0, channel.Length1, lowerCoefs, higherCoefs, k) ==
        ForwardFrom(Cells(channel), height, width, lowerCoefs, higherCoefs, k - counter)
    {
      ghost var before := Cells(channel);
      var step := ForwardIteration(channel, result, height, width, lowerCoefs, higherCoefs);
      if step.Fail? {
        return step;
      }
      assert ForwardFrom(before, height, width, lowerCoefs, higherCoefs, k - counter) ==
        ForwardFrom(Cells(channel), height / 2, width / 2, lowerCoefs, higherCoefs, k - counter - 1);
      HalvedSizeSnoc(channel.Length0, counter);
      HalvedSizeSnoc(channel.Length1, counter);
      height := height / 2;
      width := width / 2;
      counter := counter + 1;
    }
    Threshold(channel, threshold);
    return Pass;
  }

  /** `DecodeChannel`: the inverse filters of the wavelet type, the window
      `size >> (IterationsCount - 1)`, then `IterationsCount` iterations,
      the window doubling (`<<= 1`, wrapping around as an int does) after
      each. It throws what `GetCoefsByWaveletType`, `GetInverseCoefs` or an
      iteration throws; otherwise the channel array it was given, which it
      overwrote, is the decoded channel it returns. */
  method DecodeChannel(channel: array2<real>, waveletType: byte, iterationsCount: int32, sqrt2: real, sqrt3: real)
    returns (o: Outcome)
    requires sqrt2 > 0.0
    modifies channel
    ensures var r := Decoded(old(Cells(channel)), channel.Length0, channel.Length1, waveletType, iterationsCount, sqrt2, sqrt3);
      (o.Pass? <==> r.Ok?) && (o.Fail? ==> o.error == r.error) && (o.Pass? ==> Cells(channel) == r.value)
  {
    var coefs := W.CoefsByWaveletType(waveletType, sqrt2, sqrt3);
    if coefs.Err? {
      return Fail(coefs.error);
    }
    var lowerCoefs := coefs.value;
    var higherCoefs := W.GetHighPassFilter(lowerCoefs);
    var inverse := W.GetInverseCoefs(lowerCoefs, higherCoefs);
    if inverse.Err? {
      return Fail(inverse.error);
    }
    var iLowerCoefs := inverse.value.0;
    var iHigherCoefs := inverse.value.1;
    var height: int := channel.Length0;
    var width: int := channel.Length1;
    var orderedChannel := new real[height, width];
    var shift := (iterationsCount - 1) % 32;
    height := ShiftRight(height, shift);
    width := ShiftRight(width, shift);
    ghost var g := Cells(channel);
    ghost var k := Iterations(iterationsCount);
    ghost var delta := |iLowerCoefs| - 2;
    ghost var h0, w0 := height, width;
    var counter := 0;
    while counter < iterationsCount
      invariant 0 <= counter <= k
      invariant DecodeFrom(g, channel.Length0, channel.Length1, h0, w0, iLowerCoefs, iHigherCoefs, delta, k) ==
        DecodeFrom(Cells(channel), channel.Length0, channel.Length1, height, width, iLowerCoefs, iHigherCoefs, delta, k - counter)
    {
      ghost var before := Cells(channel);
      var step := DecodeIteration(channel, orderedChannel, height, width, iLowerCoefs, iHigherCoefs, |iLowerCoefs| - 2);
      if step.Fail? {
        return step;
      }
      assert DecodeFrom(before, channel.Length0, channel.Length1, height, width, iLowerCoefs, iHigherCoefs, delta, k - counter) ==
        DecodeFrom(Cells(channel), channel.Length0, channel.Length1, Wrap32(2 * height), Wrap32(2 * width),
                   iLowerCoefs, iHigherCoefs, delta, k - counter - 1);
      height := Wrap32(2 * height);
      width := Wrap32(2 * width);
      counter := counter + 1;
    }
    return Pass;
  }
}
