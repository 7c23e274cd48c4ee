/** Quantization (Algorithms/Quantization.cs): keep the top `bits` bits of a
    byte and move it to the middle of its bucket. */
module Quantization {
  import opened Common
  import opened Vectors

  /** C# masks an int shift count to its low five bits. */
  function ShiftCount(n: int): (s: nat)
    ensures s < 32
    ensures 0 <= n < 32 ==> s == n
  {
    n % 32
  }

  /** `1 << t` on a 32-bit int, for t in 0..31 (bit 31 is the sign bit). */
  function OneShiftedLeft(t: nat): int
    requires t < 32
  {
    if t == 31 then INT32_MIN else Pow2(t)
  }

  /** `QuantizeByte(value, bits)`: `(byte)(((value >> (8 - bits)) << (8 - bits))
      + (bits == 8 ? 0 : 1 << (8 - bits - 1)))`, with C#'s masking of shift
      counts and the unchecked cast to byte. */
  function QuantizeByte(value: byte, bits: byte): byte
  {
    var s := ShiftCount(8 - bits);
    var cleared := value / Pow2(s) * Pow2(s);
    var half := if bits == 8 then 0 else OneShiftedLeft(ShiftCount(8 - bits - 1));
    WrapByte(cleared + half)
  }

  lemma Pow2Table()
    ensures Pow2(0) == 1 && Pow2(1) == 2 && Pow2(2) == 4 && Pow2(3) == 8
    ensures Pow2(4) == 16 && Pow2(5) == 32 && Pow2(6) == 64 && Pow2(7) == 128 && Pow2(8) == 256
  {
  }

  /** The width of a bucket when `bits` bits are kept. */
  function BucketWidth(bits: nat): nat
    requires bits <= 8
  {
    Pow2(8 - bits)
  }

  /** The bucket widths for 1 ≤ bits ≤ 7, and that each is even. */
  lemma BucketWidthFacts(bits: nat)
    requires 1 <= bits <= 7
    ensures BucketWidth(bits) == 2 * Pow2(7 - bits) >= 2
    ensures BucketWidth(bits) * Pow2(bits) == 256
  {
    Pow2Table();
    if bits == 1 {
    } else if bits == 2 {
    } else if bits == 3 {
    } else if bits == 4 {
    } else if bits == 5 {
    } else if bits == 6 {
    } else {
    }
  }

  /** The midpoint of the bucket holding v, for a width w that divides 256. */
  lemma MidpointFits(v: byte, w: nat, k: nat)
    requires w >= 2 && w * k == 256
    ensures v / w * w + w / 2 < 256
  {
    var b := v / w;
    assert v == b * w + v % w;
    if b >= k {
      MulLeft(k, b, w);
      assert false;
    }
    MulLeft(b + 1, k, w);
  }

  /** For 1 ≤ bits ≤ 7 the result is v with its low 8 − bits bits cleared, plus
      2^(7 − bits): the midpoint of v's bucket. */
  lemma QuantizeIsBucketMidpoint(v: byte, bits: byte)
    requires 1 <= bits <= 7
    ensures QuantizeByte(v, bits) == v / BucketWidth(bits) * BucketWidth(bits) + BucketWidth(bits) / 2
  {
    BucketWidthFacts(bits);
    var w := BucketWidth(bits);
    assert ShiftCount(8 - bits) == 8 - bits;
    assert ShiftCount(8 - bits - 1) == 7 - bits;
    assert OneShiftedLeft(7 - bits) == w / 2;
    MidpointFits(v, w, Pow2(bits));
    assert 0 <= v / w * w + w / 2 < 256;
  }

  /** Keeping all eight bits is the identity; keeping none always gives 128. */
  lemma QuantizeExtremes(v: byte)
    ensures QuantizeByte(v, 8) == v
    ensures QuantizeByte(v, 0) == 128
  {
    Pow2Table();
    assert ShiftCount(8) == 8 && ShiftCount(7) == 7 && ShiftCount(0) == 0;
  }

  /** The result stays in v's bucket, so it differs from v by at most half a
      bucket, 2^(7 − bits). */
  lemma QuantizeStaysInBucket(v: byte, bits: byte)
    requires 1 <= bits <= 7
    ensures QuantizeByte(v, bits) / BucketWidth(bits) == v / BucketWidth(bits)
    ensures -(BucketWidth(bits) / 2) <= QuantizeByte(v, bits) - v <= BucketWidth(bits) / 2
  {
    QuantizeIsBucketMidpoint(v, bits);
    BucketWidthFacts(bits);
    MidpointInBucket(v, BucketWidth(bits));
  }

  /** The midpoint of v's bucket of width w lies in that bucket, within half a
      bucket of v. */
  lemma MidpointInBucket(v: nat, w: nat)
    requires w >= 2
    ensures (v / w * w + w / 2) / w == v / w
    ensures -(w / 2) <= v / w * w + w / 2 - v <= w / 2
  {
    var b := v / w;
    assert v == b * w + v % w;
    DivUnique(b * w + w / 2, w, b, w / 2);
  }

  /** Quantizing twice with the same bit count changes nothing more. */
  lemma QuantizeIdempotent(v: byte, bits: byte)
    requires bits <= 8
    ensures QuantizeByte(QuantizeByte(v, bits), bits) == QuantizeByte(v, bits)
  {
    if bits == 0 || bits == 8 {
      QuantizeExtremes(v);
      QuantizeExtremes(QuantizeByte(v, bits));
    } else {
      QuantizeStaysInBucket(v, bits);
      QuantizeIsBucketMidpoint(v, bits);
      QuantizeIsBucketMidpoint(QuantizeByte(v, bits), bits);
    }
  }

  /** Quantizing is monotone in the value. */
  lemma QuantizeMonotone(v: byte, w: byte, bits: byte)
    requires bits <= 8 && v <= w
    ensures QuantizeByte(v, bits) <= QuantizeByte(w, bits)
  {
    if bits == 0 || bits == 8 {
      QuantizeExtremes(v);
      QuantizeExtremes(w);
    } else {
      QuantizeIsBucketMidpoint(v, bits);
      QuantizeIsBucketMidpoint(w, bits);
      FloorMultipleMonotone(v, w, BucketWidth(bits));
    }
  }

  /** `QuantizeVector(color, quantizationVector)`: component i quantized with
      bits[i], for the three components. */
  method QuantizeVector(color: Color, bits: Color) returns (r: Color)
    ensures forall i :: 0 <= i < 3 ==> r.At(i) == QuantizeByte(color.At(i), bits.At(i))
  {
    var bytes := new byte[3];
    for i := 0 to 3
      invariant forall k :: 0 <= k < i ==> bytes[k] == QuantizeByte(color.At(k), bits.At(k))
    {
      bytes[i] := QuantizeByte(color.At(i), bits.At(i));
    }
    r := FromSeq(bytes[..]);
  }

  /** The function QuantizeVector computes, for use in specifications. */
  function QuantizedColor(color: Color, bits: Color): (r: Color)
    ensures forall i :: 0 <= i < 3 ==> r.At(i) == QuantizeByte(color.At(i), bits.At(i))
  {
    Rgb(QuantizeByte(color.At(0), bits.At(0)), QuantizeByte(color.At(1), bits.At(1)),
        QuantizeByte(color.At(2), bits.At(2)))
  }
}
