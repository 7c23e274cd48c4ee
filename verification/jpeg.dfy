/** The DCT codec's container (Algorithms/JPG/Jpeg.cs), as the plain byte
    sequence BinaryWriter produces before compression: the decimation tag,
    the quantization tag, the fields of the active quantization variant,
    the grid size, then every coefficient triple in row-major order, with
    each int written as four little-endian bytes. The reader is modelled
    by the bytes not yet read: every read consumes a prefix. Save and Load
    are proved against Encoded and Parse, and Parse undoes Encoded. */
module Jpeg {
  import opened Common
  import opened Vectors
  import opened Grids
  import opened DctParams
  import opened BinaryStreams

  // ---------------------------------------------------------------------
  // The header

  /** The fields of the active quantization variant. */
  datatype Variant =
    | Counts(ny: int32, nc: int32)                               // LargestN
    | Generators(y: MatrixGenerators, c: MatrixGenerators)        // QuantizationMatrix
    | NoFields                                                    // DefaultJpegMatrix

  /** The quantization tag that announces the variant. */
  function VariantTag(v: Variant): byte
  {
    match v
    case Counts(_, _) => LargestN
    case Generators(_, _) => QuantizationMatrix
    case NoFields => DefaultJpegMatrix
  }

  /** The number of bytes of the variant fields each tag announces. */
  function VariantSize(quantizationType: byte): nat
  {
    if quantizationType == LargestN then 8 else if quantizationType == QuantizationMatrix then 16 else 0
  }

  /** The variant fields as Save writes them. */
  function VariantBytes(v: Variant): (r: seq<byte>)
    ensures |r| == VariantSize(VariantTag(v))
  {
    match v
    case Counts(ny, nc) => Int32Bytes(ny) + Int32Bytes(nc)
    case Generators(y, c) => Int32Bytes(y.alpha) + Int32Bytes(y.gamma) + Int32Bytes(c.alpha) + Int32Bytes(c.gamma)
    case NoFields => []
  }

  /** The variant Save writes for the parameters: LargestN needs both
      counts (`.Value` on an absent one throws) and an unknown
      quantization tag throws. */
  function VariantOf(quantizationType: byte, ny: Option<int32>, nc: Option<int32>,
                     generatorsY: MatrixGenerators, generatorsC: MatrixGenerators): (r: Result<Variant>)
    ensures r.Ok? ==> VariantTag(r.value) == quantizationType
    ensures r.Err? <==> quantizationType !in {LargestN, QuantizationMatrix, DefaultJpegMatrix} ||
                        (quantizationType == LargestN && (ny.None? || nc.None?))
    ensures r.Err? ==> r.error == (if quantizationType == LargestN then InvalidOperation else ArgumentOutOfRange)
  {
    if quantizationType == LargestN then
      if ny.None? || nc.None? then Err(InvalidOperation) else Ok(Counts(ny.value, nc.value))
    else if quantizationType == QuantizationMatrix then Ok(Generators(generatorsY, generatorsC))
    else if quantizationType == DefaultJpegMatrix then Ok(NoFields)
    else Err(ArgumentOutOfRange)
  }

  /** Reading the variant fields the quantization tag announces. An unknown
      tag throws before reading; a known one fails only when its fields
      run past the end of the stream. */
  function ParseVariant(s: seq<byte>, quantizationType: byte): (r: Result<(Variant, seq<byte>)>)
    ensures quantizationType !in {LargestN, QuantizationMatrix, DefaultJpegMatrix} ==> r == Err(ArgumentOutOfRange)
    ensures quantizationType in {LargestN, QuantizationMatrix, DefaultJpegMatrix} ==>
      (r.Ok? <==> VariantSize(quantizationType) <= |s|) && (r.Err? ==> r.error == EndOfStream)
    ensures r.Ok? ==>
      VariantTag(r.value.0) == quantizationType && r.value.1 == s[VariantSize(quantizationType)..]
  {
    if quantizationType == LargestN then
      var ny :- ReadInt32(s);
      var nc :- ReadInt32(ny.1);
      assert nc.1 == s[8..];
      Ok((Counts(ny.0, nc.0), nc.1))
    else if quantizationType == QuantizationMatrix then
      var a :- ReadInt32(s);
      var b :- ReadInt32(a.1);
      var c :- ReadInt32(b.1);
      var d :- ReadInt32(c.1);
      assert d.1 == s[16..];
      Ok((Generators(MatrixGenerators(a.0, b.0), MatrixGenerators(c.0, d.0)), d.1))
    else if quantizationType == DefaultJpegMatrix then
      Ok((NoFields, s))
    else
      Err(ArgumentOutOfRange)
  }

  /** Variant fields written in front of any bytes read back as the same
      variant, leaving those bytes. */
  lemma ParseWrittenVariant(v: Variant, rest: seq<byte>)
    ensures ParseVariant(VariantBytes(v) + rest, VariantTag(v)) == Ok((v, rest))
  {
    match v
    case Counts(ny, nc) =>
      assert VariantBytes(v) + rest == Int32Bytes(ny) + (Int32Bytes(nc) + rest);
      ReadWrittenInt32(ny, Int32Bytes(nc) + rest);
      ReadWrittenInt32(nc, rest);
    case Generators(y, c) =>
      var t2 := Int32Bytes(c.gamma) + rest;
      var t1 := Int32Bytes(c.alpha) + t2;
      var t0 := Int32Bytes(y.gamma) + t1;
      assert VariantBytes(v) + rest == Int32Bytes(y.alpha) + t0;
      ReadWrittenInt32(y.alpha, t0);
      ReadWrittenInt32(y.gamma, t1);
      ReadWrittenInt32(c.alpha, t2);
      ReadWrittenInt32(c.gamma, rest);
    case NoFields =>
      assert VariantBytes(v) + rest == rest;
  }

  /** Both tags and the variant fields: what Load reads before the grid size. */
  function ParseHeader(s: seq<byte>): (r: Result<(byte, Variant, seq<byte>)>)
    ensures |s| < 2 ==> r == Err(EndOfStream)
    ensures |s| >= 2 && s[1] !in {LargestN, QuantizationMatrix, DefaultJpegMatrix} ==> r == Err(ArgumentOutOfRange)
    ensures r.Ok? ==> r.value.0 == s[0] && VariantTag(r.value.1) == s[1]
  {
    var decimationType :- ReadByte(s);
    var quantizationType :- ReadByte(decimationType.1);
    var v :- ParseVariant(quantizationType.1, quantizationType.0);
    Ok((decimationType.0, v.0, v.1))
  }

  /** The bytes written before the grid size: both tags, the variant fields. */
  function HeaderBytes(decimationType: byte, v: Variant): (r: seq<byte>)
    ensures |r| == 2 + VariantSize(VariantTag(v))
  {
    [decimationType, VariantTag(v)] + VariantBytes(v)
  }

  /** A header written in front of any bytes reads back as itself. */
  lemma ParseWrittenHeader(decimationType: byte, v: Variant, rest: seq<byte>)
    ensures ParseHeader(HeaderBytes(decimationType, v) + rest) == Ok((decimationType, v, rest))
  {
    var s := HeaderBytes(decimationType, v) + rest;
    HeaderSplit(decimationType, v, rest);
    ParseWrittenVariant(v, rest);
    ParseHeaderSteps(s, decimationType, VariantTag(v), v, rest);
  }

  /** Where the tags and the variant fields sit in a written header. */
  lemma HeaderSplit(decimationType: byte, v: Variant, rest: seq<byte>)
    ensures |HeaderBytes(decimationType, v) + rest| >= 2
    ensures (HeaderBytes(decimationType, v) + rest)[0] == decimationType
    ensures (HeaderBytes(decimationType, v) + rest)[1] == VariantTag(v)
    ensures (HeaderBytes(decimationType, v) + rest)[1..][1..] == VariantBytes(v) + rest
  {
    var s := HeaderBytes(decimationType, v) + rest;
    assert s == [decimationType, VariantTag(v)] + (VariantBytes(v) + rest);
    assert s[1..][1..] == s[2..];
  }

  /** ParseHeader succeeds once both tags and the variant fields are read. */
  lemma ParseHeaderSteps(s: seq<byte>, decimationType: byte, quantizationType: byte, v: Variant, rest: seq<byte>)
    requires |s| >= 2 && s[0] == decimationType && s[1] == quantizationType
    requires ParseVariant(s[1..][1..], quantizationType) == Ok((v, rest))
    ensures ParseHeader(s) == Ok((decimationType, v, rest))
  {
  }

  // ---------------------------------------------------------------------
  // The coefficient grid

  /** One coefficient triple: its three ints, channel 0 first. */
  function CellBytes(c: Triple): (r: seq<byte>)
    ensures |r| == 12
  {
    Int32Bytes(c.At(0)) + Int32Bytes(c.At(1)) + Int32Bytes(c.At(2))
  }

  /** The triple whose three ints are the first twelve bytes. */
  function CellAt(s: seq<byte>): Triple
    requires |s| >= 12
  {
    Vector([Int32Of(s[..4]), Int32Of(s[4..8]), Int32Of(s[8..12])])
  }

  /** The innermost body of Load's loops: three ints read one after another. */
  function ReadCell(s: seq<byte>): (r: Result<(Triple, seq<byte>)>)
    ensures r.Ok? <==> |s| >= 12
    ensures r.Ok? ==> r.value == (CellAt(s), s[12..])
    ensures r.Err? ==> r.error == EndOfStream
  {
    var a :- ReadInt32(s);
    var b :- ReadInt32(a.1);
    var c :- ReadInt32(b.1);
    assert b.1[..4] == s[8..12] && a.1[..4] == s[4..8] && c.1 == s[12..];
    Ok((Vector([a.0, b.0, c.0]), c.1))
  }

  /** A triple written in front of any bytes reads back as itself. */
  lemma ReadWrittenCell(c: Triple, rest: seq<byte>)
    ensures ReadCell(CellBytes(c) + rest) == Ok((c, rest))
  {
    var t1 := Int32Bytes(c.At(2)) + rest;
    var t0 := Int32Bytes(c.At(1)) + t1;
    assert CellBytes(c) + rest == Int32Bytes(c.At(0)) + t0;
    ReadWrittenInt32(c.At(0), t0);
    ReadWrittenInt32(c.At(1), t1);
    ReadWrittenInt32(c.At(2), rest);
    assert c.elements == [c.At(0), c.At(1), c.At(2)];
  }

  /** Triples written one after another. */
  function CellsBytes(cells: seq<Triple>): (r: seq<byte>)
    ensures |r| == 12 * |cells|
  {
    if |cells| == 0 then [] else CellBytes(cells[0]) + CellsBytes(cells[1..])
  }

  /** Writing one more triple appends its twelve bytes. */
  lemma {:induction false} CellsBytesSnoc(cells: seq<Triple>, c: Triple)
    ensures CellsBytes(cells + [c]) == CellsBytes(cells) + CellBytes(c)
  {
    if |cells| > 0 {
      assert (cells + [c])[1..] == cells[1..] + [c];
      CellsBytesSnoc(cells[1..], c);
    } else {
      assert CellsBytes([c]) == CellBytes(c) + CellsBytes([]);
    }
  }

  /** The triple at byte k·12 of a run of written triples is triple k. */
  lemma {:induction false} CellsBytesAt(cells: seq<Triple>, k: nat)
    requires k < |cells|
    ensures CellsBytes(cells)[12 * k..12 * k + 12] == CellBytes(cells[k])
  {
    var w := CellsBytes(cells);
    assert w == CellBytes(cells[0]) + CellsBytes(cells[1..]);
    if k > 0 {
      CellsBytesAt(cells[1..], k - 1);
      assert w[12 * k..12 * k + 12] == CellsBytes(cells[1..])[12 * (k - 1)..12 * (k - 1) + 12];
    }
  }

  /** A triple depends on its first twelve bytes only. */
  lemma CellAtPrefix(s: seq<byte>, t: seq<byte>)
    requires |s| >= 12 && |t| >= 12 && s[..12] == t[..12]
    ensures CellAt(s) == CellAt(t)
  {
    assert s[..4] == s[..12][..4] && t[..4] == t[..12][..4];
    assert s[4..8] == s[..12][4..8] && t[4..8] == t[..12][4..8];
    assert s[8..12] == s[..12][8..12] && t[8..12] == t[..12][8..12];
  }

  /** Reading count triples one after another: triple k is made of the
      twelve bytes at 12·k. */
  function ParseCells(s: seq<byte>, count: nat): (r: Result<(seq<Triple>, seq<byte>)>)
    ensures r.Ok? <==> 12 * count <= |s|
    ensures r.Ok? ==> |r.value.0| == count && r.value.1 == s[12 * count..]
    ensures r.Ok? ==> forall k :: 0 <= k < count ==> r.value.0[k] == CellAt(s[12 * k..])
    ensures r.Err? ==> r.error == EndOfStream
  {
    if 12 * count <= |s| then
      Ok((seq(count, k requires 0 <= k < count => CellAt(s[12 * k..])), s[12 * count..]))
    else
      Err(EndOfStream)
  }

  /** Triple k of triples written in front of any bytes reads back as itself. */
  lemma WrittenCellAt(cells: seq<Triple>, rest: seq<byte>, k: nat)
    requires k < |cells|
    ensures 12 * k + 12 <= |CellsBytes(cells) + rest|
    ensures CellAt((CellsBytes(cells) + rest)[12 * k..]) == cells[k]
  {
    var s := CellsBytes(cells) + rest;
    CellsBytesAt(cells, k);
    var c := CellBytes(cells[k]) + rest;
    assert s[12 * k..][..12] == CellsBytes(cells)[12 * k..12 * k + 12];
    assert c[..12] == CellBytes(cells[k]);
    CellAtPrefix(s[12 * k..], c);
    ReadWrittenCell(cells[k], rest);
  }

  /** Triples written in front of any bytes read back as the same triples. */
  lemma ParseWrittenCells(cells: seq<Triple>, rest: seq<byte>)
    ensures ParseCells(CellsBytes(cells) + rest, |cells|) == Ok((cells, rest))
  {
    var s := CellsBytes(cells) + rest;
    var r := ParseCells(s, |cells|);
    forall k | 0 <= k < |cells|
      ensures r.value.0[k] == cells[k]
    {
      WrittenCellAt(cells, rest, k);
    }
    assert r.value.0 == cells;
    assert s[12 * |cells|..] == rest;
  }

  /** Every row has m cells. */
  ghost predicate RowsOf(grid: seq<seq<Triple>>, m: nat)
  {
    forall i :: 0 <= i < |grid| ==> |grid[i]| == m
  }

  /** The number of bytes of a rows of m triples. */
  function RowsSize(m: nat, a: nat): nat
  {
    if a == 0 then 0 else RowsSize(m, a - 1) + 12 * m
  }

  /** The rows take 12·m·a bytes. */
  lemma {:induction false} RowsSizeIsProduct(m: nat, a: nat)
    ensures RowsSize(m, a) == 12 * m * a
  {
    if a > 0 {
      RowsSizeIsProduct(m, a - 1);
      assert 12 * m * a == 12 * m * (a - 1) + 12 * m;
    }
  }

  /** More rows take more bytes. */
  lemma {:induction false} RowsSizeMonotone(m: nat, a: nat, b: nat)
    requires a <= b
    ensures RowsSize(m, a) <= RowsSize(m, b)
    decreases b - a
  {
    if a < b {
      RowsSizeMonotone(m, a, b - 1);
    }
  }

  /** The rows of a grid written one after another: row-major order. */
  function GridBytes(grid: seq<seq<Triple>>, m: nat): (r: seq<byte>)
    requires RowsOf(grid, m)
    ensures |r| == RowsSize(m, |grid|)
  {
    if |grid| == 0 then []
    else
      CellsBytes(grid[0]) + GridBytes(grid[1..], m)
  }

  /** Writing one more row appends its bytes. */
  lemma {:induction false} GridBytesSnoc(grid: seq<seq<Triple>>, row: seq<Triple>, m: nat)
    requires RowsOf(grid, m) && |row| == m
    ensures RowsOf(grid + [row], m)
    ensures GridBytes(grid + [row], m) == GridBytes(grid, m) + CellsBytes(row)
  {
    if |grid| > 0 {
      assert (grid + [row])[1..] == grid[1..] + [row];
      GridBytesSnoc(grid[1..], row, m);
    } else {
      assert GridBytes([row], m) == CellsBytes(row) + GridBytes([], m);
    }
  }

  /** Reading n rows of m triples one after another: the first n - 1 rows,
      then one more. */
  function ParseRows(s: seq<byte>, n: nat, m: nat): (r: Result<(seq<seq<Triple>>, seq<byte>)>)
    ensures r.Ok? <==> RowsSize(m, n) <= |s|
    ensures r.Ok? ==> IsRect(r.value.0, n, m) && r.value.1 == s[RowsSize(m, n)..]
    ensures r.Err? ==> r.error == EndOfStream
  {
    if n == 0 then Ok(([], s))
    else
      var rows :- ParseRows(s, n - 1, m);
      var row :- ParseCells(rows.1, m);
      DropDrop(s, RowsSize(m, n - 1), 12 * m);
      Ok((rows.0 + [row.0], row.1))
  }

  /** Reading one more row: the rows read so far, then m more triples. */
  lemma ParseRowsNext(s: seq<byte>, n: nat, m: nat)
    requires ParseRows(s, n, m).Ok?
    ensures var rows := ParseRows(s, n, m).value;
      var row := ParseCells(rows.1, m);
      (ParseRows(s, n + 1, m).Ok? <==> row.Ok?) &&
      (row.Ok? ==> ParseRows(s, n + 1, m).value == (rows.0 + [row.value.0], row.value.1))
  {
  }

  /** Rows written in front of any bytes read back as the same rows. */
  lemma {:induction false} ParseWrittenRows(grid: seq<seq<Triple>>, m: nat, rest: seq<byte>)
    requires RowsOf(grid, m)
    ensures ParseRows(GridBytes(grid, m) + rest, |grid|, m) == Ok((grid, rest))
  {
    if |grid| > 0 {
      var k := |grid| - 1;
      var init, last := grid[..k], grid[k];
      assert grid == init + [last];
      GridBytesSnoc(init, last, m);
      var tail := CellsBytes(last) + rest;
      assert GridBytes(grid, m) + rest == GridBytes(init, m) + tail;
      ParseWrittenRows(init, m, tail);
      ParseWrittenCells(last, rest);
      ParseRowsNext(GridBytes(grid, m) + rest, k, m);
    } else {
      assert GridBytes(grid, m) + rest == rest;
    }
  }

  // ---------------------------------------------------------------------
  // The whole container

  /** What Load returns and assigns: the two tags (the decimation tag as an
      unchecked byte), the variant fields, and the grid. */
  datatype Container = Container(decimationType: byte, variant: Variant, n: nat, m: nat, grid: seq<seq<Triple>>)

  /** The bytes Save writes for a grid of n×m triples: 2 + 12·n·m + 8 bytes,
      plus 8 (LargestN), 16 (QuantizationMatrix) or 0 (DefaultJpegMatrix). */
  function Encoded(decimationType: byte, v: Variant, grid: seq<seq<Triple>>, n: nat, m: nat): (r: seq<byte>)
    requires IsRect(grid, n, m) && n <= INT32_MAX && m <= INT32_MAX
    ensures |r| == 2 + VariantSize(VariantTag(v)) + 8 + RowsSize(m, n)
    ensures r[0] == decimationType && r[1] == VariantTag(v)
  {
    HeaderBytes(decimationType, v) + Int32Bytes(n) + Int32Bytes(m) + GridBytes(grid, m)
  }

  /** What Load reads: the header, the size, and n rows of m triples. A
      negative dimension fails the array allocation; bytes after the last
      triple are never read. */
  function Parse(s: seq<byte>): (r: Result<Container>)
    ensures r.Ok? ==> IsRect(r.value.grid, r.value.n, r.value.m)
    ensures |s| < 2 ==> r == Err(EndOfStream)
    ensures |s| >= 2 && s[1] !in {LargestN, QuantizationMatrix, DefaultJpegMatrix} ==> r == Err(ArgumentOutOfRange)
    ensures r.Ok? ==> r.value.decimationType == s[0] && VariantTag(r.value.variant) == s[1]
  {
    var header :- ParseHeader(s);
    var n :- ReadInt32(header.2);
    var m :- ReadInt32(n.1);
    if n.0 < 0 || m.0 < 0 then Err(Overflow)
    else
      var rows :- ParseRows(m.1, n.0, m.0);
      Ok(Container(header.0, header.1, n.0, m.0, rows.0))
  }

  /** Load of what Save wrote returns the same grid, both tags and the
      active variant's fields, whatever follows in the stream. */
  lemma LoadOfSave(decimationType: byte, v: Variant, grid: seq<seq<Triple>>, n: nat, m: nat, rest: seq<byte>)
    requires IsRect(grid, n, m) && n <= INT32_MAX && m <= INT32_MAX
    ensures Parse(Encoded(decimationType, v, grid, n, m) + rest) == Ok(Container(decimationType, v, n, m, grid))
  {
    var g := GridBytes(grid, m) + rest;
    var t1 := Int32Bytes(m) + g;
    var t0 := Int32Bytes(n) + t1;
    EncodedSplit(decimationType, v, grid, n, m, rest);
    ParseWrittenHeader(decimationType, v, t0);
    ReadWrittenInt32(n, t1);
    ReadWrittenInt32(m, g);
    ParseWrittenRows(grid, m, rest);
    ParseSteps(HeaderBytes(decimationType, v) + t0, t0, t1, g, rest, decimationType, v, n, m, grid);
  }

  /** The encoding is the header, then the two sizes, then the grid. */
  lemma EncodedSplit(decimationType: byte, v: Variant, grid: seq<seq<Triple>>, n: nat, m: nat, rest: seq<byte>)
    requires IsRect(grid, n, m) && n <= INT32_MAX && m <= INT32_MAX
    ensures Encoded(decimationType, v, grid, n, m) + rest ==
      HeaderBytes(decimationType, v) + (Int32Bytes(n) + (Int32Bytes(m) + (GridBytes(grid, m) + rest)))
  {
  }

  /** Parse succeeds once each of its four reads does. */
  lemma ParseSteps(s: seq<byte>, t0: seq<byte>, t1: seq<byte>, g: seq<byte>, rest: seq<byte>,
                   decimationType: byte, v: Variant, n: nat, m: nat, grid: seq<seq<Triple>>)
    requires ParseHeader(s) == Ok((decimationType, v, t0))
    requires ReadInt32(t0) == Ok((n, t1)) && ReadInt32(t1) == Ok((m, g))
    requires ParseRows(g, n, m) == Ok((grid, rest))
    ensures Parse(s) == Ok(Container(decimationType, v, n, m, grid))
  {
  }

  // ---------------------------------------------------------------------
  // Save

  /** The ints of the first k channels of a triple. */
  function ChannelsBytes(c: Triple, k: nat): (r: seq<byte>)
    requires k <= 3
    ensures |r| == 4 * k
  {
    if k == 0 then [] else ChannelsBytes(c, k - 1) + Int32Bytes(c.At(k - 1))
  }

  /** The innermost loop of Save: the three ints of one triple. */
  method WriteCell(written: seq<byte>, c: Triple) returns (written': seq<byte>)
    ensures written' == written + CellBytes(c)
  {
    written' := written;
    for k := 0 to 3
      invariant written' == written + ChannelsBytes(c, k)
    {
      written' := written' + Int32Bytes(c.At(k));
    }
    assert ChannelsBytes(c, 1) == Int32Bytes(c.At(0));
    assert ChannelsBytes(c, 2) == Int32Bytes(c.At(0)) + Int32Bytes(c.At(1));
  }

  /** The middle loop of Save: the triples of row i, in order. */
  method WriteRow(written: seq<byte>, data: array2<Triple>, i: nat) returns (written': seq<byte>)
    requires i < data.Length0
    ensures written' == written + CellsBytes(Cells(data)[i])
  {
    ghost var row := Cells(data)[i];
    written' := written;
    assert CellsBytes(row[..0]) == [];
    for j := 0 to data.Length1
      invariant written' == written + CellsBytes(row[..j])
    {
      written' := WriteCell(written', data[i, j]);
      CellsBytesSnoc(row[..j], data[i, j]);
      assert row[..j + 1] == row[..j] + [data[i, j]];
    }
    assert row[..data.Length1] == row;
  }

  /** The outer loop of Save: every row, in order. */
  method WriteGrid(written: seq<byte>, data: array2<Triple>) returns (written': seq<byte>)
    ensures written' == written + GridBytes(Cells(data), data.Length1)
  {
    ghost var grid := Cells(data);
    ghost var m := data.Length1;
    written' := written;
    assert GridBytes(grid[..0], m) == [];
    for i := 0 to data.Length0
      invariant RowsOf(grid[..i], m)
      invariant written' == written + GridBytes(grid[..i], m)
    {
      written' := WriteRow(written', data, i);
      GridBytesSnoc(grid[..i], grid[i], m);
      assert grid[..i + 1] == grid[..i] + [grid[i]];
    }
    assert grid[..data.Length0] == grid;
  }

  /** The LargestN case of Save's switch: `Ny.Value`, then `Nc.Value`; an
      absent count throws, after Ny, if present, was written. */
  method WriteCounts(ny: Option<int32>, nc: Option<int32>) returns (written: seq<byte>, v: Result<Variant>)
    ensures v.Ok? <==> ny.Some? && nc.Some?
    ensures v.Ok? ==> v.value == Counts(ny.value, nc.value) && written == VariantBytes(v.value)
    ensures v.Err? ==> v.error == InvalidOperation && written == if ny.Some? then Int32Bytes(ny.value) else []
  {
    if ny.None? {
      return [], Err(InvalidOperation);
    }
    written := Int32Bytes(ny.value);
    if nc.None? {
      return written, Err(InvalidOperation);
    }
    written := written + Int32Bytes(nc.value);
    v := Ok(Counts(ny.value, nc.value));
  }

  /** The switch of Save: the fields of the active variant. An unknown
      quantization tag throws before writing. */
  method WriteVariant(parameters: DctParameters) returns (written: seq<byte>, v: Result<Variant>)
    ensures v == VariantOf(parameters.quantizationType, parameters.ny, parameters.nc,
                           parameters.generatorsY, parameters.generatorsC)
    ensures v.Ok? ==> written == VariantBytes(v.value)
    ensures v.Err? ==>
      written == if parameters.quantizationType == LargestN && parameters.ny.Some? then Int32Bytes(parameters.ny.value) else []
  {
    if parameters.quantizationType == LargestN {
      written, v := WriteCounts(parameters.ny, parameters.nc);
    } else if parameters.quantizationType == QuantizationMatrix {
      var y, c := parameters.generatorsY, parameters.generatorsC;
      written := Int32Bytes(y.alpha) + Int32Bytes(y.gamma) + Int32Bytes(c.alpha) + Int32Bytes(c.gamma);
      v := Ok(Generators(y, c));
    } else if parameters.quantizationType == DefaultJpegMatrix {
      written, v := [], Ok(NoFields);
    } else {
      written, v := [], Err(ArgumentOutOfRange);
    }
  }

  /** `Save(data, parameters)`: the writes BinaryWriter receives, in order.
      When the switch throws, what was written before the throw stays
      written. */
  method Save(data: array2<Triple>, parameters: DctParameters) returns (written: seq<byte>, o: Outcome)
    requires data.Length0 <= INT32_MAX && data.Length1 <= INT32_MAX
    ensures var v := VariantOf(parameters.quantizationType, parameters.ny, parameters.nc,
                               parameters.generatorsY, parameters.generatorsC);
      (o.Pass? <==> v.Ok?) &&
      (o.Pass? ==> written == Encoded(parameters.decimationType, v.value, Cells(data), data.Length0, data.Length1)) &&
      (o.Fail? ==>
        o.error == v.error &&
        written == [parameters.decimationType, parameters.quantizationType] +
                   (if parameters.quantizationType == LargestN && parameters.ny.Some? then Int32Bytes(parameters.ny.value) else []))
  {
    var tags := [parameters.decimationType, parameters.quantizationType];
    var fields, v := WriteVariant(parameters);
    written := tags + fields;
    if v.Err? {
      return written, Fail(v.error);
    }
    assert written == HeaderBytes(parameters.decimationType, v.value);
    var n, m := Int32Bytes(data.Length0), Int32Bytes(data.Length1);
    written := WriteGrid(written + n + m, data);
    return written, Pass;
  }

  // ---------------------------------------------------------------------
  // Load

  /** The variant fields of the parameters after Load assigned v over the
      fields ny, nc, generatorsY, generatorsC: v's own fields are v's, the
      others are unchanged. */
  ghost predicate VariantAssigned(parameters: DctParameters, v: Variant, ny: Option<int32>, nc: Option<int32>,
                                  generatorsY: MatrixGenerators, generatorsC: MatrixGenerators)
    reads parameters
  {
    match v
    case Counts(a, b) =>
      parameters.ny == Some(a) && parameters.nc == Some(b) &&
      parameters.generatorsY == generatorsY && parameters.generatorsC == generatorsC
    case Generators(y, c) =>
      parameters.generatorsY == y && parameters.generatorsC == c &&
      parameters.ny == ny && parameters.nc == nc
    case NoFields =>
      parameters.ny == ny && parameters.nc == nc &&
      parameters.generatorsY == generatorsY && parameters.generatorsC == generatorsC
  }

  /** The first part of Load: both tags and the variant fields, each
      assigned to the parameters as soon as it is read. Returns the bytes
      not yet read. */
  method ReadHeader(bytes: seq<byte>, parameters: DctParameters) returns (r: Result<seq<byte>>)
    modifies parameters
    ensures var h := ParseHeader(bytes);
      (r.Ok? <==> h.Ok?) &&
      (r.Err? ==> r.error == h.error) &&
      (r.Ok? ==>
        r.value == h.value.2 &&
        parameters.decimationType == h.value.0 &&
        parameters.quantizationType == VariantTag(h.value.1) &&
        VariantAssigned(parameters, h.value.1, old(parameters.ny), old(parameters.nc),
                        old(parameters.generatorsY), old(parameters.generatorsC)))
    ensures |bytes| >= 2 ==> parameters.decimationType == bytes[0] && parameters.quantizationType == bytes[1]
  {
    var decimationType := ReadByte(bytes);
    if decimationType.Err? {
      return Err(decimationType.error);
    }
    parameters.decimationType := decimationType.value.0;
    var quantizationType := ReadByte(decimationType.value.1);
    if quantizationType.Err? {
      return Err(quantizationType.error);
    }
    parameters.quantizationType := quantizationType.value.0;
    var rest := quantizationType.value.1;
    if parameters.quantizationType == LargestN {
      var ny := ReadInt32(rest);
      if ny.Err? {
        return Err(ny.error);
      }
      parameters.ny := Some(ny.value.0);
      var nc := ReadInt32(ny.value.1);
      if nc.Err? {
        return Err(nc.error);
      }
      parameters.nc := Some(nc.value.0);
      rest := nc.value.1;
    } else if parameters.quantizationType == QuantizationMatrix {
      var a := ReadInt32(rest);
      if a.Err? {
        return Err(a.error);
      }
      var b := ReadInt32(a.value.1);
      if b.Err? {
        return Err(b.error);
      }
      var c := ReadInt32(b.value.1);
      if c.Err? {
        return Err(c.error);
      }
      var d := ReadInt32(c.value.1);
      if d.Err? {
        return Err(d.error);
      }
      parameters.generatorsY := MatrixGenerators(a.value.0, b.value.0);
      parameters.generatorsC := MatrixGenerators(c.value.0, d.value.0);
      rest := d.value.1;
    } else if parameters.quantizationType == DefaultJpegMatrix {
    } else {
      return Err(ArgumentOutOfRange);
    }
    return Ok(rest);
  }

  /** The inner loop of Load: the m triples of row i, read one after
      another into the grid. Running out of bytes throws. */
  method ReadRow(result: array2<Triple>, s: seq<byte>, i: nat) returns (r: Result<seq<byte>>)
    requires i < result.Length0
    modifies result
    ensures var row := ParseCells(s, result.Length1);
      (r.Ok? <==> row.Ok?) &&
      (r.Err? ==> r.error == EndOfStream) &&
      (r.Ok? ==> r.value == row.value.1 && forall b :: 0 <= b < result.Length1 ==> result[i, b] == row.value.0[b])
    ensures forall a, b :: 0 <= a < result.Length0 && a != i && 0 <= b < result.Length1 ==> result[a, b] == old(result[a, b])
  {
    var m := result.Length1;
    var rest := s;
    for j := 0 to m
      invariant 12 * j <= |s| && rest == s[12 * j..]
      invariant forall b :: 0 <= b < j ==> result[i, b] == CellAt(s[12 * b..])
      invariant forall a, b :: 0 <= a < result.Length0 && a != i && 0 <= b < m ==> result[a, b] == old(result[a, b])
    {
      var cell := ReadCell(rest);
      if cell.Err? {
        return Err(EndOfStream);
      }
      result[i, j] := cell.value.0;
      rest := cell.value.1;
      DropDrop(s, 12 * j, 12);
    }
    return Ok(rest);
  }

  /** The nested loops of Load: n rows of m triples read one after another
      into the grid. Running out of bytes throws. */
  method ReadRows(result: array2<Triple>, s: seq<byte>) returns (ok: bool)
    modifies result
    ensures var rows := ParseRows(s, result.Length0, result.Length1);
      (ok <==> rows.Ok?) &&
      (ok ==> forall a, b :: 0 <= a < result.Length0 && 0 <= b < result.Length1 ==> result[a, b] == rows.value.0[a][b])
  {
    var n, m := result.Length0, result.Length1;
    var rest := s;
    ghost var done: seq<seq<Triple>> := [];
    for i := 0 to n
      invariant ParseRows(s, i, m) == Ok((done, rest)) && IsRect(done, i, m)
      invariant forall a, b :: 0 <= a < i && 0 <= b < m ==> result[a, b] == done[a][b]
    {
      var next := ReadRow(result, rest, i);
      ParseRowsNext(s, i, m);
      if next.Err? {
        RowsSizeMonotone(m, i + 1, n);
        return false;
      }
      done := done + [ParseCells(rest, m).value.0];
      rest := next.value;
    }
    return true;
  }

  /** Load's result grid: a fresh n×m array holding the rows read. */
  method ReadGrid(s: seq<byte>, n: nat, m: nat) returns (r: Result<array2<Triple>>)
    ensures var rows := ParseRows(s, n, m);
      (r.Ok? <==> rows.Ok?) &&
      (r.Err? ==> r.error == EndOfStream) &&
      (r.Ok? ==> fresh(r.value) && r.value.Length0 == n && r.value.Length1 == m && Cells(r.value) == rows.value.0)
  {
    var result := new Triple[n, m]((_, _) => Vector([0, 0, 0]));
    var ok := ReadRows(result, s);
    if !ok {
      return Err(EndOfStream);
    }
    RectExtensional(Cells(result), ParseRows(s, n, m).value.0, n, m);
    return Ok(result);
  }

  /** `Load(parameters)` over the decompressed bytes: reads the fields in
      Save's order, assigns the tags and the active variant's fields of the
      caller's parameters in place (the other fields keep their values),
      and fills a fresh n×m grid row by row. */
  method Load(bytes: seq<byte>, parameters: DctParameters) returns (r: Result<array2<Triple>>)
    modifies parameters
    ensures var p := Parse(bytes);
      (r.Ok? <==> p.Ok?) &&
      (r.Err? ==> r.error == p.error) &&
      (r.Ok? ==>
        fresh(r.value) && Cells(r.value) == p.value.grid &&
        r.value.Length0 == p.value.n && r.value.Length1 == p.value.m &&
        parameters.decimationType == p.value.decimationType &&
        parameters.quantizationType == VariantTag(p.value.variant) &&
        VariantAssigned(parameters, p.value.variant, old(parameters.ny), old(parameters.nc),
                        old(parameters.generatorsY), old(parameters.generatorsC)))
    ensures |bytes| >= 2 ==> parameters.decimationType == bytes[0] && parameters.quantizationType == bytes[1]
  {
    var rest := ReadHeader(bytes, parameters);
    if rest.Err? {
      return Err(rest.error);
    }
    var n := ReadInt32(rest.value);
    if n.Err? {
      return Err(n.error);
    }
    var m := ReadInt32(n.value.1);
    if m.Err? {
      return Err(m.error);
    }
    if n.value.0 < 0 || m.value.0 < 0 {
      return Err(Overflow);
    }
    r := ReadGrid(m.value.1, n.value.0, m.value.0);
  }
}
