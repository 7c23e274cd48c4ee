/** Shared vocabulary: the .NET value types the image code works with, the
    exceptions it raises (as error values), and C# integer and rounding
    semantics written out over Dafny's unbounded integers and reals. */
module Common {

  /** A .NET `byte`. */
  type byte = x: int | 0 <= x < 256

  const INT32_MIN: int := -0x8000_0000
  const INT32_MAX: int := 0x7FFF_FFFF

  /** A .NET `int` (System.Int32). */
  type int32 = x: int | INT32_MIN <= x <= INT32_MAX

  /** The .NET exceptions the modelled code can raise. */
  datatype Error =
    | IndexOutOfRange          // IndexOutOfRangeException from an array index
    | ArgumentOutOfRange       // ArgumentOutOfRangeException: an explicit throw, or a List index out of range
    | InvalidOperation         // `.Value` on an empty Nullable, `Last()`/`First()` finding nothing
    | KeyNotFound              // Dictionary indexer on a missing key
    | Overflow                 // Convert.ToInt32 of a value outside the int range
    | NotSupported             // NotSupportedException
    | EndOfStream              // BinaryReader reading past the end
    | DivideByZero             // integer division by zero
    | InvalidState(msg: string) // `throw new Exception(msg)`
    | ExtensionNotSupported(message: string) // the application's ExtensionNotSupportedException

  datatype Result<+T> = Ok(value: T) | Err(error: Error) {
    predicate IsFailure() { Err? }
    function PropagateFailure<U>(): Result<U> requires Err? { Err(error) }
    function Extract(): T requires Ok? { value }
  }

  datatype Option<+T> = None | Some(value: T)

  /** The outcome of a `void` method that may throw. */
  datatype Outcome = Pass | Fail(error: Error)

  /** 2^n. */
  function Pow2(n: nat): (r: nat)
    ensures r >= 1
  {
    if n == 0 then 1 else 2 * Pow2(n - 1)
  }

  /** Powers of two add their exponents. */
  lemma {:induction false} Pow2Add(a: nat, b: nat)
    ensures Pow2(a + b) == Pow2(a) * Pow2(b)
    decreases a
  {
    if a > 0 {
      Pow2Add(a - 1, b);
    }
  }

  /** The powers of two that bound 32-bit words. */
  lemma Pow2Words()
    ensures Pow2(31) == 0x8000_0000 && Pow2(32) == 0x1_0000_0000
  {
    assert Pow2(8) == 256;
    Pow2Add(8, 8);
    Pow2Add(16, 8);
    Pow2Add(24, 7);
    Pow2Add(24, 8);
  }

  /** The integers 0..n-1. */
  function Range(n: nat): (r: set<int>)
    ensures |r| == n
    ensures forall i :: i in r <==> 0 <= i < n
  {
    if n == 0 then {} else Range(n - 1) + {n - 1}
  }

  /** C#'s `x >> s` on an int, for a shift count already reduced to 0..31:
      an arithmetic shift, which rounds toward negative infinity. */
  function ShiftRight(x: int, s: nat): int
  {
    x / Pow2(s)   // Dafny's division by a positive divisor is floor division
  }

  /** C#'s `/` on ints: truncation toward zero. */
  function TruncDiv(a: int, b: int): (q: int)
    requires b != 0
    ensures b > 0 ==> (a >= 0 ==> q == a / b) && (a < 0 ==> q == -((-a) / b))
  {
    if b > 0 then (if a >= 0 then a / b else -((-a) / b))
    else (if a >= 0 then -(a / (-b)) else (-a) / (-b))
  }

  /** C#'s `%` on ints: the remainder takes the sign of the dividend. */
  function TruncRem(a: int, b: int): (r: int)
    requires b != 0
    ensures a == TruncDiv(a, b) * b + r
  {
    a - TruncDiv(a, b) * b
  }

  /** The 32 bits of an int32 read as an unsigned number. */
  function Unsigned32(x: int32): (u: nat)
    ensures u < 0x1_0000_0000
  {
    if x < 0 then x + 0x1_0000_0000 else x
  }

  /** Unchecked int arithmetic: keep the value modulo 2^32, as an int32. */
  function Wrap32(x: int): (r: int32)
    ensures INT32_MIN <= x <= INT32_MAX ==> r == x
    ensures (r - x) % 0x1_0000_0000 == 0
  {
    var m := x % 0x1_0000_0000;
    if m > INT32_MAX then m - 0x1_0000_0000 else m
  }

  /** `Math.Max(lo, Math.Min(hi, v))`. */
  function Clamp(v: int, lo: int, hi: int): (r: int)
    requires lo <= hi
    ensures lo <= r <= hi
    ensures lo <= v <= hi ==> r == v
    ensures v < lo ==> r == lo
    ensures v > hi ==> r == hi
  {
    if v < lo then lo else if v > hi then hi else v
  }

  /** An unchecked `(byte)` cast of an int: keep the low eight bits. */
  function WrapByte(v: int): (r: byte)
    ensures 0 <= v < 256 ==> r == v
  {
    v % 256
  }

  /** `Math.Round(double)` and the rounding inside `Convert.ToInt32(double)`:
      round to the nearest integer, ties to the even neighbour. */
  function RoundHalfEven(x: real): (r: int)
    ensures x - 0.5 <= r as real <= x + 0.5
    ensures (r as real == x - 0.5 || r as real == x + 0.5) ==> r % 2 == 0
  {
    var f := x.Floor;
    var d := x - f as real;
    if d < 0.5 then f
    else if d > 0.5 then f + 1
    else if f % 2 == 0 then f
    else f + 1
  }

  /** Multiplying by a non-negative number keeps the order. */
  lemma {:induction false} MulLeft(a: int, b: int, c: int)
    requires 0 <= a <= b && 0 <= c
    ensures a * c <= b * c
    decreases c
  {
    if c > 0 {
      MulLeft(a, b, c - 1);
      assert a * c == a * (c - 1) + a && b * c == b * (c - 1) + b;
    }
  }

  /** Rounding down to a multiple of w keeps the order. */
  lemma FloorMultipleMonotone(v: int, u: int, w: int)
    requires 0 <= v <= u && w > 0
    ensures v / w * w <= u / w * w
  {
    var p, q := v / w, u / w;
    assert v == p * w + v % w && u == q * w + u % w;
    if p > q {
      MulLeft(q + 1, p, w);
    }
    MulLeft(p, q, w);
  }

  /** A non-zero multiple of w is at least w in size. */
  lemma MultipleSize(x: int, w: nat)
    ensures x >= 1 ==> x * w >= w
    ensures x <= -1 ==> x * w + w <= 0
    ensures w == 0 ==> x * w == 0
  {
    if x >= 1 {
      MulLeft(1, x, w);
    } else if x <= -1 {
      MulLeft(1, -x, w);
    }
  }

  /** Division by w recovers the quotient and remainder of p = i·w + j. */
  lemma DivUnique(p: int, w: nat, i: nat, j: nat)
    requires j < w && p == i * w + j
    ensures p / w == i && p % w == j
  {
    var q, r := p / w, p % w;
    assert (q - i) * w == j - r;
    MultipleSize(q - i, w);
  }

  lemma RoundOfInteger(k: int)
    ensures RoundHalfEven(k as real) == k
  {
  }

  /** `Convert.ToInt32(double)`: round half to even, then fail outside the int range. */
  function ToInt32(x: real): (r: Result<int32>)
    ensures r.Ok? <==> INT32_MIN <= RoundHalfEven(x) <= INT32_MAX
    ensures r.Ok? ==> r.value == RoundHalfEven(x)
    ensures r.Err? ==> r.error == Overflow
  {
    var k := RoundHalfEven(x);
    if INT32_MIN <= k <= INT32_MAX then Ok(k) else Err(Overflow)
  }
}
