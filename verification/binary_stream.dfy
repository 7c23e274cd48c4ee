/** What .NET's BinaryWriter writes and BinaryReader reads, over the plain
    byte sequence (before any compression): a byte as itself, an int as its
    four two's-complement bytes least significant first, a double as eight
    bytes whose meaning is not modelled. A reader is modelled by the bytes
    not yet read: every read consumes a prefix or fails at the end of the
    stream. */
module BinaryStreams {
  import opened Common

  /** 256^k. */
  function Pow256(k: nat): (r: nat)
    ensures r >= 1
  {
    if k == 0 then 1 else 256 * Pow256(k - 1)
  }

  /** The k low bytes of u, least significant first. */
  function LittleEndian(u: nat, k: nat): (r: seq<byte>)
    ensures |r| == k
  {
    if k == 0 then [] else [u % 256] + LittleEndian(u / 256, k - 1)
  }

  /** The number whose bytes, least significant first, are b. */
  function FromLittleEndian(b: seq<byte>): (u: nat)
    ensures u < Pow256(|b|)
  {
    if |b| == 0 then 0 else b[0] + 256 * FromLittleEndian(b[1..])
  }

  /** A number below 256^k survives writing its k bytes and reading them back. */
  lemma {:induction false} LittleEndianRoundTrip(u: nat, k: nat)
    requires u < Pow256(k)
    ensures FromLittleEndian(LittleEndian(u, k)) == u
  {
    if k > 0 {
      var b := LittleEndian(u, k);
      assert b[1..] == LittleEndian(u / 256, k - 1);
      LittleEndianRoundTrip(u / 256, k - 1);
    }
  }

  /** `BinaryWriter.Write(int)`: the four bytes of the value's two's
      complement, least significant first. */
  function Int32Bytes(x: int32): (r: seq<byte>)
    ensures |r| == 4
  {
    LittleEndian(Unsigned32(x), 4)
  }

  /** The int whose four little-endian bytes are b. */
  function Int32Of(b: seq<byte>): int32
    requires |b| == 4
  {
    var u := FromLittleEndian(b);
    assert Pow256(4) == 0x1_0000_0000;
    if u > INT32_MAX then u - 0x1_0000_0000 else u
  }

  /** Reading back the four bytes of an int gives the int. */
  lemma Int32RoundTrip(x: int32)
    ensures Int32Of(Int32Bytes(x)) == x
  {
    assert Pow256(4) == 0x1_0000_0000;
    LittleEndianRoundTrip(Unsigned32(x), 4);
  }


  // ---------------------------------------------------------------------
  // The reader

  /** `BinaryReader.ReadByte()`: the next byte; at the end of the stream it throws. */
  function ReadByte(s: seq<byte>): (r: Result<(byte, seq<byte>)>)
    ensures r.Ok? <==> |s| >= 1
    ensures r.Ok? ==> r.value == (s[0], s[1..])
    ensures r.Err? ==> r.error == EndOfStream
  {
    if |s| >= 1 then Ok((s[0], s[1..])) else Err(EndOfStream)
  }

  /** `BinaryReader.ReadInt32()`: the next four bytes, little-endian; fewer
      than four bytes left throws. */
  function ReadInt32(s: seq<byte>): (r: Result<(int32, seq<byte>)>)
    ensures r.Ok? <==> |s| >= 4
    ensures r.Ok? ==> r.value == (Int32Of(s[..4]), s[4..])
    ensures r.Err? ==> r.error == EndOfStream
  {
    if |s| >= 4 then Ok((Int32Of(s[..4]), s[4..])) else Err(EndOfStream)
  }

  /** The eight bytes `BinaryWriter.Write(double)` writes; the number they
      encode is not modelled. */
  type DoubleBytes = b: seq<byte> | |b| == 8 witness [0, 0, 0, 0, 0, 0, 0, 0]

  /** `BinaryReader.ReadDouble()`: the next eight bytes; fewer than eight
      left throws. */
  function ReadDouble(s: seq<byte>): (r: Result<(DoubleBytes, seq<byte>)>)
    ensures r.Ok? <==> |s| >= 8
    ensures r.Ok? ==> r.value == (s[..8], s[8..])
    ensures r.Err? ==> r.error == EndOfStream
  {
    if |s| >= 8 then Ok((s[..8], s[8..])) else Err(EndOfStream)
  }

  /** An int written in front of any bytes reads back as itself, leaving those bytes. */
  lemma ReadWrittenInt32(x: int32, rest: seq<byte>)
    ensures ReadInt32(Int32Bytes(x) + rest) == Ok((x, rest))
  {
    var s := Int32Bytes(x) + rest;
    assert s[..4] == Int32Bytes(x) && s[4..] == rest;
    Int32RoundTrip(x);
  }

  /** Dropping a bytes, then b more, drops a + b. */
  lemma DropDrop(s: seq<byte>, a: nat, b: nat)
    requires a + b <= |s|
    ensures s[a..][b..] == s[a + b..]
  {
  }
}
