/** The .wavelet file of Algorithms/Wavelets/Wavelet.cs as the plain bytes
    BinaryWriter writes before LZMA compression (SaveWavelet, WriteChannel)
    and BinaryReader reads back after decompression (OpenWavelet,
    ReadChannel), together with the pixel buffer OpenWavelet builds from the
    decoded channels (GetBytes, ToByte) and the channel loop of
    ApplyWavelet. The layout is: the pixel height and width (int), the two
    resolutions (double), the wavelet type (byte), the iteration count and
    the channel count (int), then per channel its size n, m (int) and its
    n·m cells rounded to ints, row by row. */
module WaveletContainer {
  import opened Common
  import opened Grids
  import opened BinaryStreams
  import V = Vectors
  import BS = BitmapSources
  import W = Wavelet
  import opened WaveletChannel
  import P = WaveletPasses

  // ---------------------------------------------------------------------
  // The header

  /** The fields written before the channel count: the bitmap's pixel size
      and resolution, and the wavelet parameters (the type cast to byte). */
  datatype Header = Header(pixelHeight: int32, pixelWidth: int32, dpiX: DoubleBytes, dpiY: DoubleBytes,
                           waveletType: byte, iterationsCount: int32)

  /** The header's 29 bytes, in the order SaveWavelet writes them. */
  function HeaderBytes(h: Header): (r: seq<byte>)
    ensures |r| == 29
  {
    Int32Bytes(h.pixelHeight) + Int32Bytes(h.pixelWidth) + h.dpiX + h.dpiY + [h.waveletType] +
    Int32Bytes(h.iterationsCount)
  }

  /** OpenWavelet's first six reads. */
  function ParseHeader(s: seq<byte>): (r: Result<(Header, seq<byte>)>)
    ensures r.Ok? <==> |s| >= 29
    ensures r.Ok? ==> r.value.1 == s[29..]
    ensures r.Ok? ==> var h := r.value.0;
      h.pixelHeight == Int32Of(s[..4]) && h.pixelWidth == Int32Of(s[4..8]) && h.dpiX == s[8..16] &&
      h.dpiY == s[16..24] && h.waveletType == s[24] && h.iterationsCount == Int32Of(s[25..29])
    ensures r.Err? ==> r.error == EndOfStream
  {
    var height :- ReadInt32(s);
    var width :- ReadInt32(height.1);
    assert height.1[..4] == s[4..8];
    var dpiX :- ReadDouble(width.1);
    var dpiY :- ReadDouble(dpiX.1);
    var waveletType :- ReadByte(dpiY.1);
    var iterations :- ReadInt32(waveletType.1);
    assert width.1[..8] == s[8..16] && dpiX.1[..8] == s[16..24] && dpiY.1[0] == s[24];
    assert waveletType.1[..4] == s[25..29] && iterations.1 == s[29..];
    Ok((Header(height.0, width.0, dpiX.0, dpiY.0, waveletType.0, iterations.0), iterations.1))
  }

  /** A header written in front of any bytes reads back as itself. */
  lemma ParseWrittenHeader(h: Header, rest: seq<byte>)
    ensures ParseHeader(HeaderBytes(h) + rest) == Ok((h, rest))
  {
    var t4 := Int32Bytes(h.iterationsCount) + rest;
    var t3 := [h.waveletType] + t4;
    var t2 := h.dpiY + t3;
    var t1 := h.dpiX + t2;
    var t0 := Int32Bytes(h.pixelWidth) + t1;
    assert HeaderBytes(h) + rest == Int32Bytes(h.pixelHeight) + t0;
    ReadWrittenInt32(h.pixelHeight, t0);
    ReadWrittenInt32(h.pixelWidth, t1);
    assert t1[..8] == h.dpiX && t1[8..] == t2;
    assert t2[..8] == h.dpiY && t2[8..] == t3;
    ReadWrittenInt32(h.iterationsCount, rest);
  }

  // ---------------------------------------------------------------------
  // The cells of a channel

  /** Ints written one after another. */
  function IntsBytes(xs: seq<int32>): (r: seq<byte>)
    ensures |r| == 4 * |xs|
  {
    if |xs| == 0 then [] else Int32Bytes(xs[0]) + IntsBytes(xs[1..])
  }

  /** Writing one more int appends its four bytes. */
  lemma {:induction false} IntsBytesSnoc(xs: seq<int32>, x: int32)
    ensures IntsBytes(xs + [x]) == IntsBytes(xs) + Int32Bytes(x)
  {
    if |xs| > 0 {
      assert (xs + [x])[1..] == xs[1..] + [x];
      IntsBytesSnoc(xs[1..], x);
    } else {
      assert IntsBytes([x]) == Int32Bytes(x) + IntsBytes([]);
    }
  }

  /** The four bytes at 4·k of a run of written ints are int k's. */
  lemma {:induction false} IntsBytesAt(xs: seq<int32>, k: nat)
    requires k < |xs|
    ensures IntsBytes(xs)[4 * k..4 * k + 4] == Int32Bytes(xs[k])
  {
    var w := IntsBytes(xs);
    assert w == Int32Bytes(xs[0]) + IntsBytes(xs[1..]);
    if k > 0 {
      IntsBytesAt(xs[1..], k - 1);
      assert w[4 * k..4 * k + 4] == IntsBytes(xs[1..])[4 * (k - 1)..4 * (k - 1) + 4];
    }
  }

  /** Reading count ints one after another: int k is made of the four
      bytes at 4·k. */
  function ParseInts(s: seq<byte>, count: nat): (r: Result<(seq<int32>, seq<byte>)>)
    ensures r.Ok? <==> 4 * count <= |s|
    ensures r.Ok? ==> |r.value.0| == count && r.value.1 == s[4 * count..]
    ensures r.Ok? ==> forall k :: 0 <= k < count ==> r.value.0[k] == Int32Of(s[4 * k..4 * k + 4])
    ensures r.Err? ==> r.error == EndOfStream
  {
    if 4 * count <= |s| then
      Ok((seq(count, k requires 0 <= k < count => Int32Of(s[4 * k..4 * k + 4])), s[4 * count..]))
    else
      Err(EndOfStream)
  }

  /** Int k of ints written in front of any bytes reads back as itself. */
  lemma WrittenIntAt(xs: seq<int32>, rest: seq<byte>, k: nat)
    requires k < |xs|
    ensures 4 * k + 4 <= |IntsBytes(xs) + rest|
    ensures Int32Of((IntsBytes(xs) + rest)[4 * k..4 * k + 4]) == xs[k]
  {
    var s := IntsBytes(xs) + rest;
    IntsBytesAt(xs, k);
    assert s[4 * k..4 * k + 4] == IntsBytes(xs)[4 * k..4 * k + 4];
    Int32RoundTrip(xs[k]);
  }

  /** Ints written in front of any bytes read back as the same ints. */
  lemma ParseWrittenInts(xs: seq<int32>, rest: seq<byte>)
    ensures ParseInts(IntsBytes(xs) + rest, |xs|) == Ok((xs, rest))
  {
    var s := IntsBytes(xs) + rest;
    var r := ParseInts(s, |xs|);
    forall k | 0 <= k < |xs|
      ensures r.value.0[k] == xs[k]
    {
      WrittenIntAt(xs, rest, k);
    }
    assert r.value.0 == xs;
    assert s[4 * |xs|..] == rest;
  }

  /** The number of bytes of a rows of m ints. */
  function RowsSize(m: nat, a: nat): nat
  {
    if a == 0 then 0 else RowsSize(m, a - 1) + 4 * m
  }

  /** More rows take more bytes. */
  lemma {:induction false} RowsSizeMonotone(m: nat, a: nat, b: nat)
    requires a <= b
    ensures RowsSize(m, a) <= RowsSize(m, b)
    decreases b - a
  {
    if a < b {
      RowsSizeMonotone(m, a, b - 1);
    }
  }

  /** The rows of a grid of ints written one after another: row-major order. */
  function GridBytes(grid: seq<seq<int32>>, m: nat): (r: seq<byte>)
    requires forall i :: 0 <= i < |grid| ==> |grid[i]| == m
    ensures |r| == RowsSize(m, |grid|)
  {
    if |grid| == 0 then []
    else
      assert grid == grid[..|grid| - 1] + [grid[|grid| - 1]];
      GridBytes(grid[..|grid| - 1], m) + IntsBytes(grid[|grid| - 1])
  }

  /** Reading n rows of m ints one after another: the first n - 1 rows,
      then one more. */
  function ParseRows(s: seq<byte>, n: nat, m: nat): (r: Result<(seq<seq<int32>>, seq<byte>)>)
    ensures r.Ok? <==> RowsSize(m, n) <= |s|
    ensures r.Ok? ==> IsRect(r.value.0, n, m) && r.value.1 == s[RowsSize(m, n)..]
    ensures r.Err? ==> r.error == EndOfStream
  {
    if n == 0 then Ok(([], s))
    else
      var rows :- ParseRows(s, n - 1, m);
      var row :- ParseInts(rows.1, m);
      DropDrop(s, RowsSize(m, n - 1), 4 * m);
      Ok((rows.0 + [row.0], row.1))
  }

  /** Rows written in front of any bytes read back as the same rows. */
  lemma {:induction false} ParseWrittenRows(grid: seq<seq<int32>>, m: nat, rest: seq<byte>)
    requires forall i :: 0 <= i < |grid| ==> |grid[i]| == m
    ensures ParseRows(GridBytes(grid, m) + rest, |grid|, m) == Ok((grid, rest))
  {
    if |grid| > 0 {
      var k := |grid| - 1;
      var init, last := grid[..k], grid[k];
      assert grid == init + [last];
      var tail := IntsBytes(last) + rest;
      assert GridBytes(grid, m) + rest == GridBytes(init, m) + tail;
      ParseWrittenRows(init, m, tail);
      ParseWrittenInts(last, rest);
    } else {
      assert GridBytes(grid, m) + rest == rest;
    }
  }

  // ---------------------------------------------------------------------
  // One channel

  /** A channel as the file holds it: its size and its cells as ints. */
  datatype IntChannel = IntChannel(n: nat, m: nat, cells: seq<seq<int32>>)

  /** A channel as the arrays hold it: its size and its cells. */
  datatype Channel = Channel(n: nat, m: nat, cells: Grid)

  /** The cells form an n×m grid whose sides fit in an int. */
  ghost predicate ValidInt(c: IntChannel)
  {
    IsRect(c.cells, c.n, c.m) && c.n <= INT32_MAX && c.m <= INT32_MAX
  }

  /** The cells form an n×m grid. */
  ghost predicate Valid(c: Channel)
  {
    IsRect(c.cells, c.n, c.m)
  }

  /** What WriteChannel writes: n, m, then the cells row by row. */
  function ChannelBytes(c: IntChannel): (r: seq<byte>)
    requires ValidInt(c)
    ensures |r| == 8 + RowsSize(c.m, c.n)
  {
    Int32Bytes(c.n) + Int32Bytes(c.m) + GridBytes(c.cells, c.m)
  }

  /** What ReadChannel reads: n and m, then (once `new double[n, m]` has
      accepted both sizes) n rows of m ints. */
  function ParseChannel(s: seq<byte>): (r: Result<(IntChannel, seq<byte>)>)
    ensures r.Ok? ==> ValidInt(r.value.0) && |r.value.1| < |s|
    ensures |s| < 8 ==> r == Err(EndOfStream)
    ensures |s| >= 8 && (Int32Of(s[..4]) < 0 || Int32Of(s[4..8]) < 0) ==> r == Err(Overflow)
  {
    var n :- ReadInt32(s);
    var m :- ReadInt32(n.1);
    assert n.1[..4] == s[4..8];
    if n.0 < 0 || m.0 < 0 then Err(Overflow)
    else
      var rows :- ParseRows(m.1, n.0, m.0);
      Ok((IntChannel(n.0, m.0, rows.0), rows.1))
  }

  /** A channel written in front of any bytes reads back as itself. */
  lemma ParseWrittenChannel(c: IntChannel, rest: seq<byte>)
    requires ValidInt(c)
    ensures ParseChannel(ChannelBytes(c) + rest) == Ok((c, rest))
  {
    var g := GridBytes(c.cells, c.m) + rest;
    var t := Int32Bytes(c.m) + g;
    assert ChannelBytes(c) + rest == Int32Bytes(c.n) + t;
    ReadWrittenInt32(c.n, t);
    ReadWrittenInt32(c.m, g);
    ParseWrittenRows(c.cells, c.m, rest);
  }

  /** The channel the read ints fill: each int as a double. */
  function RealsOf(c: IntChannel): (r: Channel)
    requires ValidInt(c)
    ensures Valid(r) && r.n == c.n && r.m == c.m
    ensures forall i, j :: 0 <= i < c.n && 0 <= j < c.m ==> r.cells[i][j] == c.cells[i][j] as real
  {
    Channel(c.n, c.m, seq(c.n, i requires 0 <= i < c.n => seq(c.m, j requires 0 <= j < c.m => c.cells[i][j] as real)))
  }

  /** WriteChannel's `Convert.ToInt32` of every cell: any cell outside the
      int range after rounding half to even throws. */
  function Rounded(c: Channel): (r: Result<IntChannel>)
    requires Valid(c)
    ensures r.Ok? <==> forall i, j :: 0 <= i < c.n && 0 <= j < c.m ==> ToInt32(c.cells[i][j]).Ok?
    ensures r.Ok? ==> IsRect(r.value.cells, c.n, c.m) && r.value.n == c.n && r.value.m == c.m
    ensures r.Ok? ==> forall i, j :: 0 <= i < c.n && 0 <= j < c.m ==> r.value.cells[i][j] == RoundHalfEven(c.cells[i][j])
    ensures r.Err? ==> r.error == Overflow
  {
    if forall i, j :: 0 <= i < c.n && 0 <= j < c.m ==> ToInt32(c.cells[i][j]).Ok? then
      Ok(IntChannel(c.n, c.m, seq(c.n, i requires 0 <= i < c.n =>
        seq(c.m, j requires 0 <= j < c.m => ToInt32(c.cells[i][j]).value))))
    else
      Err(Overflow)
  }

  /** Writing back what was read writes the same ints: an int survives the
      trip through a double and `Convert.ToInt32`. */
  lemma RoundedReals(c: IntChannel)
    requires ValidInt(c)
    ensures Rounded(RealsOf(c)) == Ok(c)
  {
    var r := RealsOf(c);
    forall i, j | 0 <= i < c.n && 0 <= j < c.m
      ensures ToInt32(r.cells[i][j]) == Ok(c.cells[i][j])
    {
      RoundOfInteger(c.cells[i][j]);
    }
    RectExtensional(Rounded(r).value.cells, c.cells, c.n, c.m);
  }

  // ---------------------------------------------------------------------
  // All channels

  /** Every channel is an n×m grid whose sides fit in an int. */
  ghost predicate AllValidInt(cs: seq<IntChannel>)
  {
    forall k :: 0 <= k < |cs| ==> ValidInt(cs[k])
  }

  /** Every channel is an n×m grid. */
  ghost predicate AllValid(cs: seq<Channel>)
  {
    forall k :: 0 <= k < |cs| ==> Valid(cs[k])
  }

  /** The channels written one after another: the first |cs| - 1, then the last. */
  function ChannelsBytes(cs: seq<IntChannel>): (r: seq<byte>)
    requires AllValidInt(cs)
  {
    if |cs| == 0 then [] else ChannelsBytes(cs[..|cs| - 1]) + ChannelBytes(cs[|cs| - 1])
  }

  /** What SaveWavelet writes once every cell has been converted: the
      header, the channel count, then the channels. */
  function Encoded(h: Header, cs: seq<IntChannel>): (r: seq<byte>)
    requires AllValidInt(cs) && |cs| <= INT32_MAX
    ensures |r| >= 33 && r[..29] == HeaderBytes(h) && r[29..33] == Int32Bytes(|cs|)
  {
    HeaderBytes(h) + Int32Bytes(|cs|) + ChannelsBytes(cs)
  }

  /** Each channel read as doubles. */
  function RealsAll(cs: seq<IntChannel>): (r: seq<Channel>)
    requires AllValidInt(cs)
    ensures |r| == |cs| && AllValid(r)
    ensures forall k :: 0 <= k < |cs| ==> r[k] == RealsOf(cs[k])
  {
    seq(|cs|, k requires 0 <= k < |cs| => RealsOf(cs[k]))
  }

  /** `DecodeChannel` of one channel: same size, decoded cells. */
  function DecodedChannel(c: Channel, waveletType: byte, iterationsCount: int32, sqrt2: real, sqrt3: real)
    : (r: Result<Channel>)
    requires Valid(c) && sqrt2 > 0.0
    ensures r.Ok? ==> Valid(r.value) && r.value.n == c.n && r.value.m == c.m
    ensures waveletType !in {W.Haar1, W.Haar2, W.D4, W.D6} ==> r == Err(ArgumentOutOfRange)
  {
    var g :- Decoded(c.cells, c.n, c.m, waveletType, iterationsCount, sqrt2, sqrt3);
    Ok(Channel(c.n, c.m, g))
  }

  /** Decoding channel after channel; the first failure stops the rest. */
  function DecodedAll(cs: seq<Channel>, waveletType: byte, iterationsCount: int32, sqrt2: real, sqrt3: real)
    : (r: Result<seq<Channel>>)
    requires AllValid(cs) && sqrt2 > 0.0
    ensures r.Ok? ==> |r.value| == |cs| && AllValid(r.value)
    ensures r.Ok? ==> forall k :: 0 <= k < |cs| ==> r.value[k].n == cs[k].n && r.value[k].m == cs[k].m
  {
    if |cs| == 0 then Ok([])
    else
      var done :- DecodedAll(cs[..|cs| - 1], waveletType, iterationsCount, sqrt2, sqrt3);
      var last :- DecodedChannel(cs[|cs| - 1], waveletType, iterationsCount, sqrt2, sqrt3);
      Ok(done + [last])
  }

  /** One round of OpenWavelet's loop: ReadChannel, then DecodeChannel of
      the channel read. */
  function OpenChannel(s: seq<byte>, waveletType: byte, iterationsCount: int32, sqrt2: real, sqrt3: real)
    : (r: Result<(Channel, seq<byte>)>)
    requires sqrt2 > 0.0
    ensures r.Ok? ==> Valid(r.value.0) && |r.value.1| < |s|
    ensures ParseChannel(s).Err? ==> r == Err(ParseChannel(s).error)
  {
    var read :- ParseChannel(s);
    var decoded :- DecodedChannel(RealsOf(read.0), waveletType, iterationsCount, sqrt2, sqrt3);
    Ok((decoded, read.1))
  }

  /** OpenWavelet's loop: count rounds, so a channel that does not read or
      does not decode stops the reading. */
  function OpenChannels(s: seq<byte>, count: nat, waveletType: byte, iterationsCount: int32, sqrt2: real, sqrt3: real)
    : (r: Result<(seq<Channel>, seq<byte>)>)
    requires sqrt2 > 0.0
    ensures r.Ok? ==> |r.value.0| == count && AllValid(r.value.0) && |r.value.1| <= |s|
  {
    if count == 0 then Ok(([], s))
    else
      var done :- OpenChannels(s, count - 1, waveletType, iterationsCount, sqrt2, sqrt3);
      var next :- OpenChannel(done.1, waveletType, iterationsCount, sqrt2, sqrt3);
      Ok((done.0 + [next.0], next.1))
  }

  /** Channels written in front of any bytes read back and decode as the
      channels themselves, read as doubles, would. */
  lemma {:induction false} OpenWrittenChannels(cs: seq<IntChannel>, rest: seq<byte>, waveletType: byte,
                                               iterationsCount: int32, sqrt2: real, sqrt3: real)
    requires AllValidInt(cs) && sqrt2 > 0.0
    ensures var o := OpenChannels(ChannelsBytes(cs) + rest, |cs|, waveletType, iterationsCount, sqrt2, sqrt3);
      var d := DecodedAll(RealsAll(cs), waveletType, iterationsCount, sqrt2, sqrt3);
      (o.Ok? <==> d.Ok?) && (o.Ok? ==> o.value == (d.value, rest)) && (o.Err? ==> o.error == d.error)
  {
    if |cs| == 0 {
      assert ChannelsBytes(cs) + rest == rest;
    } else {
      var k := |cs| - 1;
      var init, last := cs[..k], cs[k];
      var tail := ChannelBytes(last) + rest;
      ChannelsSplit(cs, rest);
      OpenWrittenChannels(init, tail, waveletType, iterationsCount, sqrt2, sqrt3);
      ParseWrittenChannel(last, rest);
      OpenChannelsStep(ChannelsBytes(cs) + rest, k, tail, rest, last, RealsAll(init), RealsAll(cs),
                       waveletType, iterationsCount, sqrt2, sqrt3);
    }
  }

  /** The last channel's bytes come after the others', and its doubles
      after theirs. */
  lemma ChannelsSplit(cs: seq<IntChannel>, rest: seq<byte>)
    requires AllValidInt(cs) && |cs| > 0
    ensures var k := |cs| - 1;
      ChannelsBytes(cs) + rest == ChannelsBytes(cs[..k]) + (ChannelBytes(cs[k]) + rest) &&
      RealsAll(cs)[..k] == RealsAll(cs[..k]) && RealsAll(cs)[k] == RealsOf(cs[k])
  {
    var k := |cs| - 1;
    var init, last := ChannelsBytes(cs[..k]), ChannelBytes(cs[k]);
    assert ChannelsBytes(cs) == init + last;
    AppendAssoc(init, last, rest);
    RealsAllPrefix(cs, k);
  }

  /** Appending is associative. */
  lemma AppendAssoc(a: seq<byte>, b: seq<byte>, c: seq<byte>)
    ensures (a + b) + c == a + (b + c)
  {
  }

  /** The doubles of a prefix of the channels are a prefix of their doubles. */
  lemma RealsAllPrefix(cs: seq<IntChannel>, k: nat)
    requires AllValidInt(cs) && k <= |cs|
    ensures AllValidInt(cs[..k]) && RealsAll(cs)[..k] == RealsAll(cs[..k])
  {
    forall a | 0 <= a < k
      ensures RealsAll(cs)[..k][a] == RealsAll(cs[..k])[a]
    {
      assert cs[..k][a] == cs[a];
    }
  }

  /** One more channel: OpenChannels and DecodedAll take the same step once
      the channel reads back as itself. */
  lemma OpenChannelsStep(s: seq<byte>, k: nat, tail: seq<byte>, rest: seq<byte>, last: IntChannel,
                         init: seq<Channel>, reals: seq<Channel>,
                         waveletType: byte, iterationsCount: int32, sqrt2: real, sqrt3: real)
    requires sqrt2 > 0.0 && ValidInt(last) && AllValid(init) && AllValid(reals)
    requires |reals| == k + 1 && reals[..k] == init && reals[k] == RealsOf(last)
    requires ParseChannel(tail) == Ok((last, rest))
    requires var o := OpenChannels(s, k, waveletType, iterationsCount, sqrt2, sqrt3);
      var d := DecodedAll(init, waveletType, iterationsCount, sqrt2, sqrt3);
      (o.Ok? <==> d.Ok?) && (o.Ok? ==> o.value == (d.value, tail)) && (o.Err? ==> o.error == d.error)
    ensures var o := OpenChannels(s, k + 1, waveletType, iterationsCount, sqrt2, sqrt3);
      var d := DecodedAll(reals, waveletType, iterationsCount, sqrt2, sqrt3);
      (o.Ok? <==> d.Ok?) && (o.Ok? ==> o.value == (d.value, rest)) && (o.Err? ==> o.error == d.error)
  {
  }

  // ---------------------------------------------------------------------
  // The pixel buffer

  /** `ToByte`: the absolute value clamped to [0, 255], then
      `Convert.ToByte`, which rounds half to even. */
  function ToByte(d: real): (r: byte)
    ensures Abs(d) >= 255.0 ==> r == 255
    ensures Abs(d) <= 255.0 ==> Abs(d) - 0.5 <= r as real <= Abs(d) + 0.5
  {
    var a := Abs(d);
    var clamped := if 0.0 > (if 255.0 < a then 255.0 else a) then 0.0 else if 255.0 < a then 255.0 else a;
    var k := RoundHalfEven(clamped);
    assert -1 < k < 256;
    k
  }

  /** A byte value, or its negation, converts to itself: the cells OpenWavelet
      reads come back unchanged when nothing else touched them. */
  lemma ToByteOfByte(k: byte)
    ensures ToByte(k as real) == k && ToByte(-(k as real)) == k
  {
    RoundOfInteger(k);
  }

  /** The Gray8 buffer of a single channel: byte i·m + j is cell (i, j). */
  function GrayBytes(c: Channel): (r: seq<byte>)
    requires Valid(c)
    ensures |r| == c.n * c.m
  {
    seq(c.n * c.m, k requires 0 <= k < c.n * c.m =>
      if c.m == 0 || k / c.m >= c.n then 0 else ToByte(c.cells[k / c.m][k % c.m]))
  }

  /** Cell (i, j) lands at byte i·m + j of the Gray8 buffer. */
  lemma GrayPixel(c: Channel, i: nat, j: nat)
    requires Valid(c) && i < c.n && j < c.m
    ensures i * c.m + j < |GrayBytes(c)| && GrayBytes(c)[i * c.m + j] == ToByte(c.cells[i][j])
  {
    MulLeft(i + 1, c.n, c.m);
    DivUnique(i * c.m + j, c.m, i, j);
  }

  /** The channel reaches at least n rows and m columns. */
  predicate Covers(c: Channel, n: nat, m: nat)
  {
    n <= c.n && m <= c.m
  }

  /** The colour of pixel (i, j) in a Bgr32 buffer: channel 2, channel 1,
      channel 0, in that byte order. */
  function ColorAt(cs: seq<Channel>, i: nat, j: nat): V.Color
    requires |cs| >= 3 && AllValid(cs)
    requires i < cs[0].n && i < cs[1].n && i < cs[2].n && j < cs[0].m && j < cs[1].m && j < cs[2].m
  {
    V.Rgb(ToByte(cs[2].cells[i][j]), ToByte(cs[1].cells[i][j]), ToByte(cs[0].cells[i][j]))
  }

  /** The colours of the n×m pixels of channel 0's size. */
  function Colors(cs: seq<Channel>): (g: seq<seq<V.Color>>)
    requires |cs| >= 3 && AllValid(cs) && Covers(cs[1], cs[0].n, cs[0].m) && Covers(cs[2], cs[0].n, cs[0].m)
    ensures IsRect(g, cs[0].n, cs[0].m)
    ensures forall i, j :: 0 <= i < cs[0].n && 0 <= j < cs[0].m ==> g[i][j] == ColorAt(cs, i, j)
  {
    seq(cs[0].n, i requires 0 <= i < cs[0].n => seq(cs[0].m, j requires 0 <= j < cs[0].m => ColorAt(cs, i, j)))
  }

  /** `GetBytes(channels)`: the size comes from channel 0 (no channel at all
      throws); one channel gives a Gray8 buffer, more give a Bgr32 buffer of
      channels 2, 1, 0 and an opaque alpha byte, which throws on its first
      pixel when there are only two channels and on a pixel that channel 1
      or 2 does not reach. Channels past the third are never read. */
  function Pixels(cs: seq<Channel>): (r: Result<seq<byte>>)
    requires AllValid(cs)
    ensures r.Err? <==>
      (|cs| == 0 ||
       (|cs| >= 2 && cs[0].n > 0 && cs[0].m > 0 &&
        (|cs| == 2 || !Covers(cs[1], cs[0].n, cs[0].m) || !Covers(cs[2], cs[0].n, cs[0].m))))
    ensures r.Err? ==> r.error == IndexOutOfRange
    ensures r.Ok? ==> |r.value| == (if |cs| == 1 then 1 else 4) * cs[0].n * cs[0].m
  {
    if |cs| == 0 then Err(IndexOutOfRange)
    else if |cs| == 1 then Ok(GrayBytes(cs[0]))
    else if cs[0].n == 0 || cs[0].m == 0 then Ok([])
    else if |cs| == 2 || !Covers(cs[1], cs[0].n, cs[0].m) || !Covers(cs[2], cs[0].n, cs[0].m) then
      Err(IndexOutOfRange)
    else
      Ok(BS.Packed(Colors(cs), cs[0].n, cs[0].m))
  }

  /** In a Bgr32 buffer pixel (i, j) takes bytes 4(i·m + j) to 4(i·m + j) + 3:
      channel 2, channel 1, channel 0, then 255; reading the buffer back as
      colours (BitmapSourceExtensions.GetMap) gives the three channels'
      bytes and drops the alpha. */
  lemma ColorPixel(cs: seq<Channel>, i: nat, j: nat)
    requires AllValid(cs) && |cs| >= 3 && Pixels(cs).Ok? && i < cs[0].n && j < cs[0].m
    ensures var b := Pixels(cs).value;
      var o := BS.Offset(cs[0].m, i, j);
      o + 4 <= |b| &&
      b[o] == ToByte(cs[2].cells[i][j]) && b[o + 1] == ToByte(cs[1].cells[i][j]) &&
      b[o + 2] == ToByte(cs[0].cells[i][j]) && b[o + 3] == 255 &&
      BS.Unpacked(b, cs[0].n, cs[0].m)[i][j] == ColorAt(cs, i, j)
  {
    var n, m := cs[0].n, cs[0].m;
    var b := Pixels(cs).value;
    var o := BS.Offset(m, i, j);
    BS.PackedWindow(Colors(cs), n, m, i, j);
    assert b[o..o + 4] == BS.PixelBytes(ColorAt(cs, i, j));
    assert b[o] == b[o..o + 4][0] && b[o + 1] == b[o..o + 4][1] && b[o + 2] == b[o..o + 4][2] && b[o + 3] == b[o..o + 4][3];
    BS.UnpackPacked(Colors(cs), n, m);
  }

  // ---------------------------------------------------------------------
  // Open

  /** The two formats OpenWavelet creates. */
  datatype PixelFormat = Gray8 | Bgr32

  /** The arguments OpenWavelet hands to `BitmapSource.Create`. */
  datatype Image = Image(pixelWidth: int32, pixelHeight: int32, dpiX: DoubleBytes, dpiY: DoubleBytes,
                         format: PixelFormat, pixels: seq<byte>, stride: int)

  /** The end of OpenWavelet: GetBytes of the decoded channels, a format
      chosen by the channel count, and the stride `pixels.Length /
      pixelHeight`, which throws on a zero height. */
  function Assembled(h: Header, ds: seq<Channel>): (r: Result<Image>)
    requires AllValid(ds)
    ensures Pixels(ds).Err? ==> r == Err(Pixels(ds).error)
    ensures Pixels(ds).Ok? && h.pixelHeight == 0 ==> r == Err(DivideByZero)
    ensures r.Ok? ==> r.value.pixels == Pixels(ds).value
    ensures r.Ok? ==> (r.value.format == Gray8 <==> |ds| == 1)
  {
    var pixels :- Pixels(ds);
    if h.pixelHeight == 0 then Err(DivideByZero)
    else
      Ok(Image(h.pixelWidth, h.pixelHeight, h.dpiX, h.dpiY, if |ds| == 1 then Gray8 else Bgr32, pixels,
               TruncDiv(|pixels|, h.pixelHeight)))
  }

  /** `OpenWavelet` over the decompressed bytes: the header, the channel
      count (a negative count fails the `Vector` allocation), the channels
      read and decoded one by one, then the bitmap. Bytes after the last
      channel are never read. */
  function Open(s: seq<byte>, sqrt2: real, sqrt3: real): (r: Result<Image>)
    requires sqrt2 > 0.0
    ensures |s| < 33 ==> r == Err(EndOfStream)
    ensures |s| >= 33 && Int32Of(s[29..33]) < 0 ==> r == Err(Overflow)
    ensures r.Ok? ==> r.value.pixelHeight == Int32Of(s[..4]) && r.value.pixelWidth == Int32Of(s[4..8]) &&
                      r.value.dpiX == s[8..16] && r.value.dpiY == s[16..24]
    ensures r.Ok? ==> (r.value.format == Gray8 <==> Int32Of(s[29..33]) == 1)
  {
    var header :- ParseHeader(s);
    var count :- ReadInt32(header.1);
    assert header.1[..4] == s[29..33];
    if count.0 < 0 then Err(Overflow)
    else
      var h := header.0;
      var channels :- OpenChannels(count.1, count.0, h.waveletType, h.iterationsCount, sqrt2, sqrt3);
      Assembled(h, channels.0)
  }

  /** Opening what SaveWavelet wrote decodes the saved ints, read as
      doubles, channel by channel, and builds the bitmap from the result,
      whatever follows in the stream. */
  lemma OpenOfSave(h: Header, cs: seq<IntChannel>, rest: seq<byte>, sqrt2: real, sqrt3: real)
    requires AllValidInt(cs) && |cs| <= INT32_MAX && sqrt2 > 0.0
    ensures var d := DecodedAll(RealsAll(cs), h.waveletType, h.iterationsCount, sqrt2, sqrt3);
      Open(Encoded(h, cs) + rest, sqrt2, sqrt3) == if d.Ok? then Assembled(h, d.value) else Err(d.error)
  {
    var t1 := ChannelsBytes(cs) + rest;
    var t0 := Int32Bytes(|cs|) + t1;
    assert Encoded(h, cs) + rest == HeaderBytes(h) + t0;
    ParseWrittenHeader(h, t0);
    ReadWrittenInt32(|cs|, t1);
    OpenWrittenChannels(cs, rest, h.waveletType, h.iterationsCount, sqrt2, sqrt3);
  }

  // ---------------------------------------------------------------------
  // Saving and applying, over values

  /** `Convert.ToInt32` of each cell of each channel. */
  function RoundedAll(cs: seq<Channel>): (r: Result<seq<IntChannel>>)
    requires AllValid(cs)
    ensures r.Ok? <==> forall k :: 0 <= k < |cs| ==> Rounded(cs[k]).Ok?
    ensures r.Ok? ==> |r.value| == |cs| && forall k :: 0 <= k < |cs| ==> r.value[k] == Rounded(cs[k]).value
    ensures r.Ok? && (forall k :: 0 <= k < |cs| ==> cs[k].n <= INT32_MAX && cs[k].m <= INT32_MAX) ==>
      AllValidInt(r.value)
    ensures r.Err? ==> r.error == Overflow
  {
    if forall k :: 0 <= k < |cs| ==> Rounded(cs[k]).Ok? then
      Ok(seq(|cs|, k requires 0 <= k < |cs| => Rounded(cs[k]).value))
    else
      Err(Overflow)
  }

  /** `DoApplyWavelet` of one channel: same size, transformed cells. */
  function AppliedChannel(c: Channel, waveletType: byte, iterationsCount: int32, threshold: real,
                          sqrt2: real, sqrt3: real): (r: Result<Channel>)
    requires Valid(c) && sqrt2 > 0.0
    ensures r.Ok? ==> Valid(r.value) && r.value.n == c.n && r.value.m == c.m
    ensures waveletType !in {W.Haar1, W.Haar2, W.D4, W.D6} ==> r == Err(ArgumentOutOfRange)
  {
    var g :- Applied(c.cells, c.n, c.m, waveletType, iterationsCount, threshold, sqrt2, sqrt3);
    Ok(Channel(c.n, c.m, g))
  }

  /** ApplyWavelet's loop over the first k channels; the first failure
      stops the rest. */
  function AppliedUpTo(cs: seq<Channel>, k: nat, waveletType: byte, iterationsCount: int32, threshold: real,
                       sqrt2: real, sqrt3: real): (r: Result<seq<Channel>>)
    requires AllValid(cs) && sqrt2 > 0.0 && k <= |cs|
    ensures r.Ok? ==> |r.value| == k && AllValid(r.value)
    ensures r.Ok? ==> forall j :: 0 <= j < k ==> r.value[j].n == cs[j].n && r.value[j].m == cs[j].m
  {
    if k == 0 then Ok([])
    else
      var done :- AppliedUpTo(cs, k - 1, waveletType, iterationsCount, threshold, sqrt2, sqrt3);
      var last :- AppliedChannel(cs[k - 1], waveletType, iterationsCount, threshold, sqrt2, sqrt3);
      Ok(done + [last])
  }

  /** ApplyWavelet's loop over all the channels. */
  function AppliedAll(cs: seq<Channel>, waveletType: byte, iterationsCount: int32, threshold: real,
                      sqrt2: real, sqrt3: real): (r: Result<seq<Channel>>)
    requires AllValid(cs) && sqrt2 > 0.0
    ensures r.Ok? ==> |r.value| == |cs| && AllValid(r.value)
    ensures r.Ok? ==> forall k :: 0 <= k < |cs| ==> r.value[k].n == cs[k].n && r.value[k].m == cs[k].m
  {
    AppliedUpTo(cs, |cs|, waveletType, iterationsCount, threshold, sqrt2, sqrt3)
  }

  /** A channel that fails stops the whole loop with its error. */
  lemma {:induction false} AppliedAllFails(cs: seq<Channel>, a: nat, waveletType: byte, iterationsCount: int32,
                                           threshold: real, sqrt2: real, sqrt3: real)
    requires AllValid(cs) && sqrt2 > 0.0 && a <= |cs|
    requires AppliedUpTo(cs, a, waveletType, iterationsCount, threshold, sqrt2, sqrt3).Err?
    ensures AppliedAll(cs, waveletType, iterationsCount, threshold, sqrt2, sqrt3) ==
      AppliedUpTo(cs, a, waveletType, iterationsCount, threshold, sqrt2, sqrt3)
    decreases |cs| - a
  {
    if a < |cs| {
      AppliedAllFails(cs, a + 1, waveletType, iterationsCount, threshold, sqrt2, sqrt3);
    }
  }

  /** A read or a decode that fails stops OpenWavelet's loop with its error. */
  lemma OpenChannelsFails(s: seq<byte>, a: nat, b: nat, waveletType: byte, iterationsCount: int32,
                          sqrt2: real, sqrt3: real, e: Error)
    requires sqrt2 > 0.0 && a <= b
    requires OpenChannels(s, a, waveletType, iterationsCount, sqrt2, sqrt3) == Err(e)
    ensures OpenChannels(s, b, waveletType, iterationsCount, sqrt2, sqrt3) == Err(e)
  {
    var k := a;
    while k < b
      invariant a <= k <= b
      invariant OpenChannels(s, k, waveletType, iterationsCount, sqrt2, sqrt3) == Err(e)
    {
      OpenChannelsErrStep(s, k + 1, waveletType, iterationsCount, sqrt2, sqrt3);
      k := k + 1;
    }
  }

  /** One more channel after a failed read fails the same way. */
  lemma OpenChannelsErrStep(s: seq<byte>, b: nat, waveletType: byte, iterationsCount: int32, sqrt2: real, sqrt3: real)
    requires sqrt2 > 0.0 && b > 0
    requires OpenChannels(s, b - 1, waveletType, iterationsCount, sqrt2, sqrt3).Err?
    ensures OpenChannels(s, b, waveletType, iterationsCount, sqrt2, sqrt3) ==
      Err(OpenChannels(s, b - 1, waveletType, iterationsCount, sqrt2, sqrt3).error)
  {
  }

  // ---------------------------------------------------------------------
  // The arrays

  /** A `double[,]` channel as a value. */
  function ChannelOf(a: array2<real>): (c: Channel)
    reads a
    ensures Valid(c) && c.n == a.Length0 && c.m == a.Length1
  {
    Channel(a.Length0, a.Length1, Cells(a))
  }

  /** A `Vector<double[,]>` of channels as values. */
  function ChannelsOf(channels: seq<array2<real>>): (cs: seq<Channel>)
    reads channels
    ensures |cs| == |channels| && AllValid(cs)
    ensures forall k :: 0 <= k < |channels| ==> cs[k] == ChannelOf(channels[k])
  {
    seq(|channels|, k requires 0 <= k < |channels| reads channels =>
      ChannelOf(channels[k]))
  }

  /** Cell (i, j) of channel k, read from the array or from its value. */
  lemma ChannelCell(channels: seq<array2<real>>, k: nat, i: nat, j: nat)
    requires k < |channels| && i < channels[k].Length0 && j < channels[k].Length1
    ensures ChannelsOf(channels)[k].cells[i][j] == channels[k][i, j]
  {
  }

  /** ReadChannel's inner loop: the m ints of row i, each stored as a double. */
  method ReadRowCells(channel: array2<real>, s: seq<byte>, i: nat) returns (r: Result<seq<byte>>)
    requires i < channel.Length0
    modifies channel
    ensures var row := ParseInts(s, channel.Length1);
      (r.Ok? <==> row.Ok?) && (r.Err? ==> r.error == EndOfStream) &&
      (r.Ok? ==> r.value == row.value.1 &&
                 forall b :: 0 <= b < channel.Length1 ==> channel[i, b] == row.value.0[b] as real)
    ensures forall a, b :: 0 <= a < channel.Length0 && a != i && 0 <= b < channel.Length1 ==>
      channel[a, b] == old(channel[a, b])
  {
    var rest := s;
    for j := 0 to channel.Length1
      invariant 4 * j <= |s| && rest == s[4 * j..]
      invariant forall b :: 0 <= b < j ==> channel[i, b] == Int32Of(s[4 * b..4 * b + 4]) as real
      invariant forall a, b :: 0 <= a < channel.Length0 && a != i && 0 <= b < channel.Length1 ==>
        channel[a, b] == old(channel[a, b])
    {
      var x := ReadInt32(rest);
      if x.Err? {
        return Err(EndOfStream);
      }
      assert rest[..4] == s[4 * j..4 * j + 4];
      channel[i, j] := x.value.0 as real;
      rest := x.value.1;
      DropDrop(s, 4 * j, 4);
    }
    return Ok(rest);
  }

  /** ReadChannel's nested loops: n rows of m ints into the fresh channel. */
  method ReadCells(channel: array2<real>, s: seq<byte>) returns (r: Result<seq<byte>>)
    modifies channel
    ensures var rows := ParseRows(s, channel.Length0, channel.Length1);
      (r.Ok? <==> rows.Ok?) && (r.Err? ==> r.error == EndOfStream) &&
      (r.Ok? ==> r.value == rows.value.1 &&
                 forall a, b :: 0 <= a < channel.Length0 && 0 <= b < channel.Length1 ==>
                   channel[a, b] == rows.value.0[a][b] as real)
  {
    var n, m := channel.Length0, channel.Length1;
    var rest := s;
    ghost var done: seq<seq<int32>> := [];
    for i := 0 to n
      invariant ParseRows(s, i, m) == Ok((done, rest)) && IsRect(done, i, m)
      invariant forall a, b :: 0 <= a < i && 0 <= b < m ==> channel[a, b] == done[a][b] as real
    {
      var next := ReadRowCells(channel, rest, i);
      if next.Err? {
        RowsSizeMonotone(m, i + 1, n);
        return Err(EndOfStream);
      }
      done := done + [ParseInts(rest, m).value.0];
      rest := next.value;
    }
    return Ok(rest);
  }

  /** `ReadChannel(reader)`: n and m, a fresh n×m array (a negative size
      throws), then its cells row by row. */
  method ReadChannel(s: seq<byte>) returns (r: Result<(array2<real>, seq<byte>)>)
    ensures var p := ParseChannel(s);
      (r.Ok? <==> p.Ok?) && (r.Err? ==> r.error == p.error) &&
      (r.Ok? ==> fresh(r.value.0) && ChannelOf(r.value.0) == RealsOf(p.value.0) && r.value.1 == p.value.1)
  {
    var n := ReadInt32(s);
    if n.Err? {
      return Err(n.error);
    }
    var m := ReadInt32(n.value.1);
    if m.Err? {
      return Err(m.error);
    }
    if n.value.0 < 0 || m.value.0 < 0 {
      return Err(Overflow);
    }
    var channel := new real[n.value.0, m.value.0];
    var rest := ReadCells(channel, m.value.1);
    if rest.Err? {
      return Err(rest.error);
    }
    ghost var p := ParseChannel(s).value.0;
    RectExtensional(Cells(channel), RealsOf(p).cells, p.n, p.m);
    return Ok((channel, rest.value));
  }

  /** Every cell of the row converts to an int. */
  ghost predicate Converts(row: seq<real>)
  {
    forall j :: 0 <= j < |row| ==> ToInt32(row[j]).Ok?
  }

  /** The ints `Convert.ToInt32` gives for a row every cell of which converts. */
  function RowInts(row: seq<real>): (r: seq<int32>)
    requires Converts(row)
    ensures |r| == |row| && forall j :: 0 <= j < |row| ==> r[j] == RoundHalfEven(row[j])
  {
    seq(|row|, j requires 0 <= j < |row| => ToInt32(row[j]).value)
  }

  /** The first i rows of a grid, converted. */
  ghost function RoundedRows(grid: Grid, i: nat, m: nat): (r: seq<seq<int32>>)
    requires i <= |grid| && forall a :: 0 <= a < i ==> |grid[a]| == m && Converts(grid[a])
    ensures IsRect(r, i, m)
  {
    seq(i, a requires 0 <= a < i => RowInts(grid[a]))
  }

  /** One more converted row appends its ints. */
  lemma RoundedRowsSnoc(grid: Grid, i: nat, m: nat)
    requires i < |grid| && forall a :: 0 <= a <= i ==> |grid[a]| == m && Converts(grid[a])
    ensures GridBytes(RoundedRows(grid, i + 1, m), m) == GridBytes(RoundedRows(grid, i, m), m) + IntsBytes(RowInts(grid[i]))
  {
    assert RoundedRows(grid, i + 1, m)[..i] == RoundedRows(grid, i, m);
  }

  /** All rows converted are the converted channel, and its bytes are the
      size, then the converted rows. */
  lemma RoundedRowsAll(c: Channel)
    requires Valid(c) && c.n <= INT32_MAX && c.m <= INT32_MAX
    requires forall a :: 0 <= a < c.n ==> Converts(c.cells[a])
    ensures Rounded(c).Ok? && ValidInt(Rounded(c).value)
    ensures ChannelBytes(Rounded(c).value) == Int32Bytes(c.n) + Int32Bytes(c.m) + GridBytes(RoundedRows(c.cells, c.n, c.m), c.m)
  {
    assert forall i, j :: 0 <= i < c.n && 0 <= j < c.m ==> ToInt32(c.cells[i][j]).Ok?;
    RectExtensional(Rounded(c).value.cells, RoundedRows(c.cells, c.n, c.m), c.n, c.m);
  }

  /** WriteChannel's inner loop: row i, cell by cell; a cell that does not
      convert throws. */
  method WriteRowCells(written: seq<byte>, channel: array2<real>, i: nat, ghost row: seq<real>) returns (written': seq<byte>, o: Outcome)
    requires i < channel.Length0 && row == Cells(channel)[i]
    ensures o.Pass? <==> Converts(row)
    ensures o.Pass? ==> written' == written + IntsBytes(RowInts(row))
    ensures o.Fail? ==> o.error == Overflow
  {
    ghost var done: seq<int32> := [];
    written' := written;
    for j := 0 to channel.Length1
      invariant forall b :: 0 <= b < j ==> ToInt32(row[b]).Ok?
      invariant done == RowInts(row[..j]) && written' == written + IntsBytes(done)
    {
      var intValue := ToInt32(channel[i, j]);
      if intValue.Err? {
        return written', Fail(Overflow);
      }
      IntsBytesSnoc(done, intValue.value);
      written' := written' + Int32Bytes(intValue.value);
      done := done + [intValue.value];
      assert row[..j + 1] == row[..j] + [channel[i, j]];
    }
    assert row[..channel.Length1] == row;
    return written', Pass;
  }

  /** A channel converts exactly when each of its rows does. */
  lemma RoundedConverts(c: Channel)
    requires Valid(c)
    ensures Rounded(c).Ok? <==> forall a :: 0 <= a < c.n ==> Converts(c.cells[a])
  {
    if !Rounded(c).Ok? {
      var i, j :| 0 <= i < c.n && 0 <= j < c.m && !ToInt32(c.cells[i][j]).Ok?;
      assert !Converts(c.cells[i]);
    }
  }

  /** WriteChannel's outer loop: the rows one after another, stopping at the
      first cell that does not convert. */
  method WriteRows(written: seq<byte>, channel: array2<real>, ghost grid: Grid) returns (written': seq<byte>, o: Outcome)
    requires grid == Cells(channel)
    ensures o.Pass? <==> forall a :: 0 <= a < channel.Length0 ==> Converts(grid[a])
    ensures o.Fail? ==> o.error == Overflow
    ensures o.Pass? ==> written' == written + GridBytes(RoundedRows(grid, channel.Length0, channel.Length1), channel.Length1)
  {
    written' := written;
    for i := 0 to channel.Length0
      invariant grid == Cells(channel)
      invariant forall a :: 0 <= a < i ==> Converts(grid[a])
      invariant written' == written + GridBytes(RoundedRows(grid, i, channel.Length1), channel.Length1)
    {
      var next: seq<byte>;
      next, o := WriteRowCells(written', channel, i, grid[i]);
      if o.Fail? {
        assert !Converts(grid[i]);
        return next, o;
      }
      RoundedRowsSnoc(grid, i, channel.Length1);
      written' := next;
    }
    return written', Pass;
  }

  /** `WriteChannel(writer, channel)`: n, m, then every cell converted to an
      int, row by row. */
  method WriteChannel(written: seq<byte>, channel: array2<real>) returns (written': seq<byte>, o: Outcome)
    requires channel.Length0 <= INT32_MAX && channel.Length1 <= INT32_MAX
    ensures var c := Rounded(ChannelOf(channel));
      (o.Pass? <==> c.Ok?) && (o.Fail? ==> o.error == Overflow) &&
      (o.Pass? ==> ValidInt(c.value) && written' == written + ChannelBytes(c.value))
  {
    ghost var c := ChannelOf(channel);
    RoundedConverts(c);
    var header := Int32Bytes(channel.Length0) + Int32Bytes(channel.Length1);
    written', o := WriteRows(written + header, channel, c.cells);
    assert c == ChannelOf(channel);
    if o.Pass? {
      RoundedRowsWritten(c, written, written');
    }
  }

  /** The size and the converted rows after what was written before are
      what was written before and the converted channel's bytes. */
  lemma RoundedRowsWritten(c: Channel, written: seq<byte>, written': seq<byte>)
    requires Valid(c) && c.n <= INT32_MAX && c.m <= INT32_MAX
    requires forall a :: 0 <= a < c.n ==> Converts(c.cells[a])
    requires written' == written + (Int32Bytes(c.n) + Int32Bytes(c.m)) + GridBytes(RoundedRows(c.cells, c.n, c.m), c.m)
    ensures Rounded(c).Ok? && ValidInt(Rounded(c).value) && written' == written + ChannelBytes(Rounded(c).value)
  {
    RoundedRowsAll(c);
  }

  /** Writing one more channel appends its bytes. */
  lemma ChannelsBytesSnoc(cs: seq<IntChannel>, c: IntChannel)
    requires AllValidInt(cs) && ValidInt(c)
    ensures AllValidInt(cs + [c]) && ChannelsBytes(cs + [c]) == ChannelsBytes(cs) + ChannelBytes(c)
  {
    assert (cs + [c])[..|cs|] == cs;
  }

  /** SaveWavelet's loop: each channel in turn, stopping at the first cell
      that does not convert. */
  method WriteChannels(written: seq<byte>, channels: seq<array2<real>>) returns (written': seq<byte>, o: Outcome)
    requires forall k :: 0 <= k < |channels| ==> channels[k].Length0 <= INT32_MAX && channels[k].Length1 <= INT32_MAX
    ensures var r := RoundedAll(ChannelsOf(channels));
      (o.Pass? <==> r.Ok?) && (o.Fail? ==> o.error == Overflow) &&
      (o.Pass? ==> AllValidInt(r.value) && written' == written + ChannelsBytes(r.value))
  {
    ghost var cs := ChannelsOf(channels);
    written' := written;
    ghost var done: seq<IntChannel> := [];
    for k := 0 to |channels|
      invariant RoundedAll(cs[..k]) == Ok(done) && AllValidInt(done)
      invariant written' == written + ChannelsBytes(done)
    {
      var next: seq<byte>;
      next, o := WriteChannel(written', channels[k]);
      if o.Fail? {
        RoundedAllFails(cs, k);
        return next, o;
      }
      ghost var c := Rounded(cs[k]).value;
      RoundedAllSnoc(cs, k, done, c);
      ChannelsWrittenSnoc(written, written', done, c, next);
      done := done + [c];
      written' := next;
    }
    assert cs[..|channels|] == cs;
    return written', Pass;
  }

  /** One more channel that converts extends the converted prefix. */
  lemma RoundedAllSnoc(cs: seq<Channel>, k: nat, done: seq<IntChannel>, c: IntChannel)
    requires AllValid(cs) && k < |cs| && RoundedAll(cs[..k]) == Ok(done) && Rounded(cs[k]) == Ok(c)
    ensures RoundedAll(cs[..k + 1]) == Ok(done + [c])
  {
    var r := RoundedAll(cs[..k + 1]);
    assert r.Ok?;
    assert r.value == done + [c] by {
      forall a | 0 <= a <= k
        ensures r.value[a] == (done + [c])[a]
      {
        if a < k {
          assert cs[..k + 1][a] == cs[..k][a];
        }
      }
    }
  }

  /** Writing one more channel after the bytes of the ones before gives the
      bytes of them all. */
  lemma ChannelsWrittenSnoc(written: seq<byte>, w: seq<byte>, done: seq<IntChannel>, c: IntChannel, next: seq<byte>)
    requires AllValidInt(done) && ValidInt(c)
    requires w == written + ChannelsBytes(done) && next == w + ChannelBytes(c)
    ensures AllValidInt(done + [c]) && next == written + ChannelsBytes(done + [c])
  {
    ChannelsBytesSnoc(done, c);
  }

  /** A channel that does not convert makes every longer list fail. */
  lemma RoundedAllFails(cs: seq<Channel>, k: nat)
    requires AllValid(cs) && k < |cs| && Rounded(cs[k]).Err?
    ensures RoundedAll(cs).Err?
  {
  }

  /** `SaveWavelet(bitmap, parameters, channels)`: the header, the channel
      count, then each channel; a cell that does not convert throws, with
      the bytes before it already written. */
  method SaveWavelet(h: Header, channels: seq<array2<real>>) returns (written: seq<byte>, o: Outcome)
    requires |channels| <= INT32_MAX
    requires forall k :: 0 <= k < |channels| ==> channels[k].Length0 <= INT32_MAX && channels[k].Length1 <= INT32_MAX
    ensures var r := RoundedAll(ChannelsOf(channels));
      (o.Pass? <==> r.Ok?) && (o.Fail? ==> o.error == Overflow) &&
      (o.Pass? ==> AllValidInt(r.value) && written == Encoded(h, r.value))
  {
    written, o := WriteChannels(HeaderBytes(h) + Int32Bytes(|channels|), channels);
  }

  // ---------------------------------------------------------------------
  // GetBytes over the arrays

  /** GetBytes' loops for a single channel: cell (i, j) goes to byte i·m + j. */
  method PackGray(channel: array2<real>) returns (result: array<byte>)
    ensures fresh(result) && result[..] == GrayBytes(ChannelOf(channel))
  {
    var n, m := channel.Length0, channel.Length1;
    ghost var c := ChannelOf(channel);
    ghost var g := GrayBytes(c);
    result := new byte[n * m];
    for i := 0 to n
      invariant forall k :: 0 <= k < result.Length && k < i * m ==> result[k] == g[k]
    {
      PackGrayRow(channel, result, i, c);
      assert (i + 1) * m == i * m + m;
    }
    assert result[..] == g;
  }

  /** GetBytes' inner loop for a single channel: row i of cells. */
  method PackGrayRow(channel: array2<real>, result: array<byte>, i: nat, ghost c: Channel)
    requires c == ChannelOf(channel) && result.Length == |GrayBytes(c)| && i < channel.Length0
    requires forall k :: 0 <= k < result.Length && k < i * c.m ==> result[k] == GrayBytes(c)[k]
    modifies result
    ensures forall k :: 0 <= k < result.Length && k < i * c.m + c.m ==> result[k] == GrayBytes(c)[k]
  {
    ghost var g := GrayBytes(c);
    var m := channel.Length1;
    for j := 0 to m
      invariant forall k :: 0 <= k < result.Length && k < i * m + j ==> result[k] == g[k]
    {
      GrayPixel(c, i, j);
      result[i * m + j] := ToByte(channel[i, j]);
    }
  }

  /** Byte k of the Bgr32 buffer GetBytes fills for the n×m pixels, where
      the three channels reach pixel (i, j); 0 elsewhere. */
  ghost function ColorByte(cs: seq<Channel>, n: nat, m: nat, k: nat): byte
    requires AllValid(cs)
  {
    var p := k / 4;
    if |cs| < 3 || m == 0 || p / m >= n then 0
    else
      var i, j := p / m, p % m;
      if i < cs[0].n && i < cs[1].n && i < cs[2].n && j < cs[0].m && j < cs[1].m && j < cs[2].m then
        BS.PixelBytes(ColorAt(cs, i, j))[k % 4]
      else 0
  }

  /** The four bytes of pixel (i, j): channel 2, channel 1, channel 0, 255. */
  lemma ColorWindow(cs: seq<Channel>, n: nat, m: nat, i: nat, j: nat)
    requires AllValid(cs) && |cs| >= 3 && i < n && j < m
    requires i < cs[0].n && i < cs[1].n && i < cs[2].n && j < cs[0].m && j < cs[1].m && j < cs[2].m
    ensures var o := BS.Offset(m, i, j);
      ColorByte(cs, n, m, o) == ToByte(cs[2].cells[i][j]) && ColorByte(cs, n, m, o + 1) == ToByte(cs[1].cells[i][j]) &&
      ColorByte(cs, n, m, o + 2) == ToByte(cs[0].cells[i][j]) && ColorByte(cs, n, m, o + 3) == 255
  {
    DivUnique(i * m + j, m, i, j);
    BS.WindowByte(m, i, j, 0);
    BS.WindowByte(m, i, j, 1);
    BS.WindowByte(m, i, j, 2);
    BS.WindowByte(m, i, j, 3);
  }

  /** Where the channels cover the n×m pixels, these bytes are the packed
      colours. */
  lemma ColorBytesPacked(cs: seq<Channel>)
    requires AllValid(cs) && |cs| >= 3 && Covers(cs[1], cs[0].n, cs[0].m) && Covers(cs[2], cs[0].n, cs[0].m)
    ensures forall k :: 0 <= k < 4 * cs[0].n * cs[0].m ==>
      ColorByte(cs, cs[0].n, cs[0].m, k) == BS.Packed(Colors(cs), cs[0].n, cs[0].m)[k]
  {
    var n, m := cs[0].n, cs[0].m;
    forall k | 0 <= k < 4 * n * m
      ensures ColorByte(cs, n, m, k) == BS.Packed(Colors(cs), n, m)[k]
    {
      var i, j := BS.Decompose(n, m, k);
      DivUnique(k / 4, m, i, j);
    }
  }

  /** The first `bound` bytes of the buffer hold the Bgr32 bytes of the
      n×m pixels. */
  ghost predicate FilledUpTo(bytes: seq<byte>, cs: seq<Channel>, n: nat, m: nat, bound: int)
    requires AllValid(cs)
  {
    forall k :: 0 <= k < |bytes| && k < bound ==> bytes[k] == ColorByte(cs, n, m, k)
  }

  /** Writing pixel (i, j)'s four bytes extends the filled prefix by its
      window. */
  lemma FilledStep(before: seq<byte>, after: seq<byte>, cs: seq<Channel>, n: nat, m: nat, i: nat, j: nat)
    requires AllValid(cs) && |cs| >= 3 && i < n && j < m
    requires i < cs[0].n && i < cs[1].n && i < cs[2].n && j < cs[0].m && j < cs[1].m && j < cs[2].m
    requires BS.Offset(m, i, j) + 4 <= |before| == |after| && FilledUpTo(before, cs, n, m, BS.Offset(m, i, j))
    requires forall k :: 0 <= k < BS.Offset(m, i, j) ==> after[k] == before[k]
    requires var o := BS.Offset(m, i, j);
      after[o] == ToByte(cs[2].cells[i][j]) && after[o + 1] == ToByte(cs[1].cells[i][j]) &&
      after[o + 2] == ToByte(cs[0].cells[i][j]) && after[o + 3] == 255
    ensures FilledUpTo(after, cs, n, m, BS.Offset(m, i, j) + 4)
  {
    var o := BS.Offset(m, i, j);
    ColorWindow(cs, n, m, i, j);
    forall k | 0 <= k < |after| && k < o + 4
      ensures after[k] == ColorByte(cs, n, m, k)
    {
      if k < o {
        assert after[k] == before[k];
      } else if k == o {
      } else if k == o + 1 {
      } else if k == o + 2 {
      } else {
        assert k == o + 3;
      }
    }
  }

  /** The four writes of a Bgr32 pixel at offset b: blue, green, red, then
      an opaque alpha. */
  method WriteWindow(result: array<byte>, b: nat, blue: byte, green: byte, red: byte)
    requires b + 4 <= result.Length
    modifies result
    ensures result[..] == old(result[..])[b := blue][b + 1 := green][b + 2 := red][b + 3 := 255]
  {
    result[b] := blue;
    result[b + 1] := green;
    result[b + 2] := red;
    result[b + 3] := 255;
  }

  /** The body of GetBytes' loops for pixel (i, j) of a Bgr32 buffer: channel
      2 (a missing one throws), channel 1, channel 0 and 255 at
      4(i·m + j); a channel that does not reach the pixel throws. The three
      cells are read before the four bytes are written; a throw discards the
      buffer, so the order of the writes is not observable. */
  method PackPixel(channels: seq<array2<real>>, ghost cs: seq<Channel>, result: array<byte>, i: nat, j: nat)
    returns (o: Outcome)
    requires |channels| >= 2 && i < channels[0].Length0 && j < channels[0].Length1
    requires cs == ChannelsOf(channels)
    requires result.Length == 4 * channels[0].Length0 * channels[0].Length1
    requires FilledUpTo(result[..], cs, channels[0].Length0, channels[0].Length1, BS.Offset(channels[0].Length1, i, j))
    modifies result
    ensures o.Pass? <==> |channels| >= 3 && i < channels[2].Length0 && j < channels[2].Length1 &&
                          i < channels[1].Length0 && j < channels[1].Length1
    ensures o.Fail? ==> o.error == IndexOutOfRange
    ensures o.Pass? ==>
      FilledUpTo(result[..], cs, channels[0].Length0, channels[0].Length1, BS.Offset(channels[0].Length1, i, j) + 4)
  {
    var n, m := channels[0].Length0, channels[0].Length1;
    if |channels| == 2 {
      return Fail(IndexOutOfRange);
    }
    var b := (i * m + j) * 4;
    BS.OffsetInside(n, m, i, j);
    ghost var before := result[..];
    if !(i < channels[2].Length0 && j < channels[2].Length1) {
      return Fail(IndexOutOfRange);
    }
    var blue := ToByte(channels[2][i, j]);
    if !(i < channels[1].Length0 && j < channels[1].Length1) {
      return Fail(IndexOutOfRange);
    }
    var green := ToByte(channels[1][i, j]);
    var red := ToByte(channels[0][i, j]);
    ChannelCell(channels, 2, i, j);
    ChannelCell(channels, 1, i, j);
    ChannelCell(channels, 0, i, j);
    WriteWindow(result, b, blue, green, red);
    FilledStep(before, result[..], cs, n, m, i, j);
    return Pass;
  }

  /** Row i of GetBytes' loops for two channels or more: its pixels from
      left to right, up to the first one that throws. */
  method PackColorsRow(channels: seq<array2<real>>, ghost cs: seq<Channel>, result: array<byte>, i: nat)
    returns (o: Outcome)
    requires |channels| >= 2 && i < channels[0].Length0
    requires cs == ChannelsOf(channels)
    requires result.Length == 4 * channels[0].Length0 * channels[0].Length1
    requires FilledUpTo(result[..], cs, channels[0].Length0, channels[0].Length1, 4 * (i * channels[0].Length1))
    modifies result
    ensures o.Pass? <==> (channels[0].Length1 == 0 ||
                          (|channels| >= 3 && i < channels[2].Length0 && channels[0].Length1 <= channels[2].Length1 &&
                           i < channels[1].Length0 && channels[0].Length1 <= channels[1].Length1))
    ensures o.Fail? ==> o.error == IndexOutOfRange
    ensures o.Pass? ==>
      FilledUpTo(result[..], cs, channels[0].Length0, channels[0].Length1, 4 * ((i + 1) * channels[0].Length1))
  {
    var n, m := channels[0].Length0, channels[0].Length1;
    for j := 0 to m
      invariant FilledUpTo(result[..], cs, n, m, BS.Offset(m, i, j))
      invariant j > 0 ==> |channels| >= 3 && i < channels[1].Length0 && j <= channels[1].Length1 &&
                          i < channels[2].Length0 && j <= channels[2].Length1
    {
      o := PackPixel(channels, cs, result, i, j);
      if o.Fail? {
        return;
      }
    }
    assert 4 * ((i + 1) * m) == BS.Offset(m, i, m);
    return Pass;
  }

  /** GetBytes' loops for two channels or more: the pixels in row-major
      order; two channels throw on the first pixel, and so does any pixel
      that channel 2 or 1 does not reach. */
  method PackColors(channels: seq<array2<real>>) returns (r: Result<array<byte>>)
    requires |channels| >= 2
    ensures var p := Pixels(ChannelsOf(channels));
      (r.Ok? <==> p.Ok?) && (r.Err? ==> r.error == p.error) && (r.Ok? ==> fresh(r.value) && r.value[..] == p.value)
  {
    ghost var cs := ChannelsOf(channels);
    var n, m := channels[0].Length0, channels[0].Length1;
    var result := new byte[n * m * 4];
    assert result.Length == 4 * n * m;
    for i := 0 to n
      invariant FilledUpTo(result[..], cs, n, m, 4 * (i * m))
      invariant i > 0 && m > 0 ==> |cs| >= 3 && i <= cs[1].n && m <= cs[1].m && i <= cs[2].n && m <= cs[2].m
    {
      var o := PackColorsRow(channels, cs, result, i);
      if o.Fail? {
        return Err(o.error);
      }
    }
    if n == 0 || m == 0 {
      assert result[..] == [];
      return Ok(result);
    }
    ColorBytesPacked(cs);
    assert result[..] == BS.Packed(Colors(cs), n, m);
    return Ok(result);
  }

  /** `GetBytes(channels)`: channel 0 sets the size, then one channel is
      packed as Gray8 and more as Bgr32. The channel-count test, made for
      every pixel by the source, is made once before the loops. */
  method GetBytes(channels: seq<array2<real>>) returns (r: Result<array<byte>>)
    ensures var p := Pixels(ChannelsOf(channels));
      (r.Ok? <==> p.Ok?) && (r.Err? ==> r.error == p.error) && (r.Ok? ==> fresh(r.value) && r.value[..] == p.value)
  {
    if |channels| == 0 {
      return Err(IndexOutOfRange);
    }
    if |channels| == 1 {
      var result := PackGray(channels[0]);
      return Ok(result);
    }
    r := PackColors(channels);
  }

  // ---------------------------------------------------------------------
  // OpenWavelet over the arrays

  /** A channel that reads and decodes extends what the loop has opened. */
  lemma OpenChannelsOkStep(s: seq<byte>, i: nat, done: seq<Channel>, rest: seq<byte>, p: (IntChannel, seq<byte>),
                           d: Channel, waveletType: byte, iterationsCount: int32, sqrt2: real, sqrt3: real)
    requires sqrt2 > 0.0 && OpenChannels(s, i, waveletType, iterationsCount, sqrt2, sqrt3) == Ok((done, rest))
    requires ParseChannel(rest) == Ok(p)
    requires DecodedChannel(RealsOf(p.0), waveletType, iterationsCount, sqrt2, sqrt3) == Ok(d)
    ensures OpenChannels(s, i + 1, waveletType, iterationsCount, sqrt2, sqrt3) == Ok((done + [d], p.1))
  {
  }

  /** A channel that does not read stops the loop with the read's error. */
  lemma OpenChannelsReadFails(s: seq<byte>, i: nat, done: seq<Channel>, rest: seq<byte>,
                              waveletType: byte, iterationsCount: int32, sqrt2: real, sqrt3: real)
    requires sqrt2 > 0.0 && OpenChannels(s, i, waveletType, iterationsCount, sqrt2, sqrt3) == Ok((done, rest))
    requires ParseChannel(rest).Err?
    ensures OpenChannels(s, i + 1, waveletType, iterationsCount, sqrt2, sqrt3) == Err(ParseChannel(rest).error)
  {
  }

  /** A channel that reads but does not decode stops the loop with the
      decoder's error. */
  lemma OpenChannelsDecodeFails(s: seq<byte>, i: nat, done: seq<Channel>, rest: seq<byte>, p: (IntChannel, seq<byte>),
                                waveletType: byte, iterationsCount: int32, sqrt2: real, sqrt3: real)
    requires sqrt2 > 0.0 && OpenChannels(s, i, waveletType, iterationsCount, sqrt2, sqrt3) == Ok((done, rest))
    requires ParseChannel(rest) == Ok(p)
    requires DecodedChannel(RealsOf(p.0), waveletType, iterationsCount, sqrt2, sqrt3).Err?
    ensures OpenChannels(s, i + 1, waveletType, iterationsCount, sqrt2, sqrt3) ==
      Err(DecodedChannel(RealsOf(p.0), waveletType, iterationsCount, sqrt2, sqrt3).error)
  {
  }

  /** One more array appends its value. */
  lemma ChannelsOfSnoc(channels: seq<array2<real>>, channel: array2<real>)
    ensures ChannelsOf(channels + [channel]) == ChannelsOf(channels) + [ChannelOf(channel)]
  {
    assert forall k :: 0 <= k < |channels| ==> (channels + [channel])[k] == channels[k];
  }

  /** The body of OpenWavelet's loop: ReadChannel, then DecodeChannel of
      the fresh channel. */
  method OpenNext(s: seq<byte>, i: nat, ghost done: seq<Channel>, rest: seq<byte>, waveletType: byte,
                  iterationsCount: int32, sqrt2: real, sqrt3: real)
    returns (r: Result<(array2<real>, seq<byte>)>)
    requires sqrt2 > 0.0 && OpenChannels(s, i, waveletType, iterationsCount, sqrt2, sqrt3) == Ok((done, rest))
    ensures r.Err? ==> OpenChannels(s, i + 1, waveletType, iterationsCount, sqrt2, sqrt3) == Err(r.error)
    ensures r.Ok? ==> fresh(r.value.0)
    ensures r.Ok? ==>
      OpenChannels(s, i + 1, waveletType, iterationsCount, sqrt2, sqrt3) == Ok((done + [ChannelOf(r.value.0)], r.value.1))
  {
    var read := ReadChannel(rest);
    if read.Err? {
      OpenChannelsReadFails(s, i, done, rest, waveletType, iterationsCount, sqrt2, sqrt3);
      return Err(read.error);
    }
    var channel := read.value.0;
    ghost var p := ParseChannel(rest).value;
    var o := P.DecodeChannel(channel, waveletType, iterationsCount, sqrt2, sqrt3);
    if o.Fail? {
      OpenChannelsDecodeFails(s, i, done, rest, p, waveletType, iterationsCount, sqrt2, sqrt3);
      return Err(o.error);
    }
    OpenChannelsOkStep(s, i, done, rest, p, ChannelOf(channel), waveletType, iterationsCount, sqrt2, sqrt3);
    return Ok((channel, read.value.1));
  }

  /** OpenWavelet's loop: `count` rounds, each channel stored in the vector
      in order; the first failure ends the opening. */
  method ReadChannels(s: seq<byte>, count: nat, waveletType: byte, iterationsCount: int32, sqrt2: real, sqrt3: real)
    returns (r: Result<(seq<array2<real>>, seq<byte>)>)
    requires sqrt2 > 0.0
    ensures var o := OpenChannels(s, count, waveletType, iterationsCount, sqrt2, sqrt3);
      (r.Ok? <==> o.Ok?) && (r.Err? ==> r.error == o.error) &&
      (r.Ok? ==> ChannelsOf(r.value.0) == o.value.0 && r.value.1 == o.value.1)
  {
    var channels: seq<array2<real>> := [];
    ghost var done: seq<Channel> := [];
    var rest := s;
    for i := 0 to count
      invariant OpenChannels(s, i, waveletType, iterationsCount, sqrt2, sqrt3) == Ok((done, rest))
      invariant ChannelsOf(channels) == done
    {
      var next := OpenNext(s, i, done, rest, waveletType, iterationsCount, sqrt2, sqrt3);
      if next.Err? {
        OpenChannelsFails(s, i + 1, count, waveletType, iterationsCount, sqrt2, sqrt3, next.error);
        return Err(next.error);
      }
      assert ChannelsOf(channels) == done;
      ChannelsOfSnoc(channels, next.value.0);
      done := done + [ChannelOf(next.value.0)];
      channels := channels + [next.value.0];
      rest := next.value.1;
    }
    return Ok((channels, rest));
  }

  /** `OpenWavelet(path)` over the decompressed bytes: the header, the
      channel count (a negative one fails the allocation), the channels,
      GetBytes, and the arguments of `BitmapSource.Create`, whose stride
      `pixels.Length / pixelHeight` throws on a zero height. */
  method OpenWavelet(bytes: seq<byte>, sqrt2: real, sqrt3: real) returns (r: Result<Image>)
    requires sqrt2 > 0.0
    ensures r == Open(bytes, sqrt2, sqrt3)
  {
    var header := ParseHeader(bytes);
    if header.Err? {
      return Err(header.error);
    }
    var h := header.value.0;
    var channelsCount := ReadInt32(header.value.1);
    if channelsCount.Err? {
      return Err(channelsCount.error);
    }
    if channelsCount.value.0 < 0 {
      return Err(Overflow);
    }
    var channels := ReadChannels(channelsCount.value.1, channelsCount.value.0, h.waveletType, h.iterationsCount,
                                 sqrt2, sqrt3);
    if channels.Err? {
      return Err(channels.error);
    }
    var pixels := GetBytes(channels.value.0);
    if pixels.Err? {
      return Err(pixels.error);
    }
    if h.pixelHeight == 0 {
      return Err(DivideByZero);
    }
    var format := if channelsCount.value.0 == 1 then Gray8 else Bgr32;
    return Ok(Image(h.pixelWidth, h.pixelHeight, h.dpiX, h.dpiY, format, pixels.value[..],
                    TruncDiv(pixels.value.Length, h.pixelHeight)));
  }

  // ---------------------------------------------------------------------
  // ApplyWavelet over the arrays

  /** One more channel transformed extends the transformed prefix. */
  lemma AppliedAllOkStep(cs: seq<Channel>, k: nat, done: seq<Channel>, c: Channel, waveletType: byte,
                         iterationsCount: int32, threshold: real, sqrt2: real, sqrt3: real)
    requires AllValid(cs) && sqrt2 > 0.0 && k < |cs|
    requires AppliedUpTo(cs, k, waveletType, iterationsCount, threshold, sqrt2, sqrt3) == Ok(done)
    requires AppliedChannel(cs[k], waveletType, iterationsCount, threshold, sqrt2, sqrt3) == Ok(c)
    ensures AppliedUpTo(cs, k + 1, waveletType, iterationsCount, threshold, sqrt2, sqrt3) == Ok(done + [c])
  {
  }

  /** A channel that fails to transform makes the whole loop fail with its
      error. */
  lemma AppliedAllErrStep(cs: seq<Channel>, k: nat, waveletType: byte, iterationsCount: int32, threshold: real,
                          sqrt2: real, sqrt3: real)
    requires AllValid(cs) && sqrt2 > 0.0 && k < |cs|
    requires AppliedUpTo(cs, k, waveletType, iterationsCount, threshold, sqrt2, sqrt3).Ok?
    requires AppliedChannel(cs[k], waveletType, iterationsCount, threshold, sqrt2, sqrt3).Err?
    ensures AppliedAll(cs, waveletType, iterationsCount, threshold, sqrt2, sqrt3) ==
      Err(AppliedChannel(cs[k], waveletType, iterationsCount, threshold, sqrt2, sqrt3).error)
  {
    AppliedAllFails(cs, k + 1, waveletType, iterationsCount, threshold, sqrt2, sqrt3);
  }

  /** The arrays before k hold the transformed channels, the rest their
      original values. */
  ghost predicate Agrees(channels: seq<array2<real>>, done: seq<Channel>, cs: seq<Channel>, k: nat)
    reads channels
  {
    |cs| == |channels| && |done| == k <= |channels| &&
    (forall a :: 0 <= a < k ==> ChannelOf(channels[a]) == done[a]) &&
    (forall a :: k <= a < |channels| ==> ChannelOf(channels[a]) == cs[a])
  }

  /** The body of ApplyWavelet's loop: DoApplyWavelet on channel k. */
  method ApplyNext(channels: seq<array2<real>>, k: nat, ghost cs: seq<Channel>, ghost done: seq<Channel>,
                   waveletType: byte, iterationsCount: int32, threshold: real, sqrt2: real, sqrt3: real)
    returns (o: Outcome)
    requires forall a, b :: 0 <= a < b < |channels| ==> channels[a] != channels[b]
    requires AllValid(cs) && sqrt2 > 0.0 && k < |channels| && Agrees(channels, done, cs, k)
    requires AppliedUpTo(cs, k, waveletType, iterationsCount, threshold, sqrt2, sqrt3) == Ok(done)
    modifies channels[k]
    ensures o.Fail? ==> AppliedAll(cs, waveletType, iterationsCount, threshold, sqrt2, sqrt3) == Err(o.error)
    ensures o.Pass? ==> var done' := done + [ChannelOf(channels[k])];
      AppliedUpTo(cs, k + 1, waveletType, iterationsCount, threshold, sqrt2, sqrt3) == Ok(done') &&
      Agrees(channels, done', cs, k + 1)
  {
    o := P.DoApplyWavelet(channels[k], waveletType, iterationsCount, threshold, sqrt2, sqrt3);
    if o.Fail? {
      AppliedAllErrStep(cs, k, waveletType, iterationsCount, threshold, sqrt2, sqrt3);
    } else {
      AppliedAllOkStep(cs, k, done, ChannelOf(channels[k]), waveletType, iterationsCount, threshold, sqrt2, sqrt3);
    }
  }

  /** ApplyWavelet's loop: DoApplyWavelet on each channel in turn; the
      first failure stops it. */
  method ApplyAll(channels: seq<array2<real>>, waveletType: byte, iterationsCount: int32, threshold: real,
                  sqrt2: real, sqrt3: real)
    returns (o: Outcome)
    requires forall a, b :: 0 <= a < b < |channels| ==> channels[a] != channels[b]
    requires sqrt2 > 0.0
    modifies channels
    ensures var a := AppliedAll(old(ChannelsOf(channels)), waveletType, iterationsCount, threshold, sqrt2, sqrt3);
      (o.Pass? <==> a.Ok?) && (o.Fail? ==> o.error == a.error) && (o.Pass? ==> ChannelsOf(channels) == a.value)
  {
    ghost var cs := ChannelsOf(channels);
    ghost var done: seq<Channel> := [];
    for k := 0 to |channels|
      invariant AllValid(cs) && Agrees(channels, done, cs, k)
      invariant AppliedUpTo(cs, k, waveletType, iterationsCount, threshold, sqrt2, sqrt3) == Ok(done)
    {
      o := ApplyNext(channels, k, cs, done, waveletType, iterationsCount, threshold, sqrt2, sqrt3);
      if o.Fail? {
        return o;
      }
      done := done + [ChannelOf(channels[k])];
    }
    assert ChannelsOf(channels) == done;
    return Pass;
  }

  /** `ApplyWavelet(bitmap, parameters)` from the channels GetChannels or
      GetChannel builds (three for a colour bitmap, one for Gray8): each
      channel transformed in place by DoApplyWavelet, then SaveWavelet of
      the header and the transformed channels. The bitmap built for display
      from the channels is not part of this model. */
  method ApplyWavelet(h: Header, channels: seq<array2<real>>, threshold: real, sqrt2: real, sqrt3: real)
    returns (written: seq<byte>, o: Outcome)
    requires |channels| == 1 || |channels| == 3
    requires forall a, b :: 0 <= a < b < |channels| ==> channels[a] != channels[b]
    requires forall k :: 0 <= k < |channels| ==> channels[k].Length0 <= INT32_MAX && channels[k].Length1 <= INT32_MAX
    requires sqrt2 > 0.0
    modifies channels
    ensures var a := AppliedAll(old(ChannelsOf(channels)), h.waveletType, h.iterationsCount, threshold, sqrt2, sqrt3);
      (a.Err? ==> o == Fail(a.error)) &&
      (a.Ok? ==> ChannelsOf(channels) == a.value &&
                 var w := RoundedAll(a.value);
                 (o.Pass? <==> w.Ok?) && (o.Fail? ==> o.error == Overflow) &&
                 (o.Pass? ==> written == Encoded(h, w.value)))
  {
    o := ApplyAll(channels, h.waveletType, h.iterationsCount, threshold, sqrt2, sqrt3);
    if o.Fail? {
      return [], o;
    }
    written, o := SaveWavelet(h, channels);
  }
}
