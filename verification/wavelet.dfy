/** The structural parts of the wavelet codec (Algorithms/Wavelets/Wavelet.cs):
    the filter lengths of each wavelet type, the quadrature-mirror high-pass
    filter, the shuffled inverse filters, the cyclic pair convolution, the
    even/odd de-interleave that orders coefficients, the threshold step and
    the size schedule of the forward and inverse passes. Doubles are
    modelled as reals; the filter values themselves are numerics and only
    their exact algebraic relations are stated. */
module Wavelet {
  import opened Common

  // ---------------------------------------------------------------------
  // Wavelet types and their filters

  /** WaveletType, kept as its underlying byte: the container reads it back
      with an unchecked cast, so any byte can arrive. */
  const Haar1: byte := 0
  const Haar2: byte := 1
  const D4: byte := 2
  const D6: byte := 3

  /** `GetCoefsByWaveletType`: the low-pass filter of each wavelet type, with
      the values of `Math.Sqrt(2)` and `Math.Sqrt(3)` taken as parameters. An
      unknown type throws ArgumentOutOfRange. */
  function CoefsByWaveletType(waveletType: byte, sqrt2: real, sqrt3: real): (r: Result<seq<real>>)
    requires sqrt2 > 0.0
    ensures r.Ok? <==> waveletType in {Haar1, Haar2, D4, D6}
    ensures r.Err? ==> r.error == ArgumentOutOfRange
    ensures r.Ok? && (waveletType == Haar1 || waveletType == Haar2) ==> |r.value| == 2
    ensures r.Ok? && waveletType == D4 ==> |r.value| == 4
    ensures r.Ok? && waveletType == D6 ==> |r.value| == 6
  {
    if waveletType == Haar1 then Ok([1.0 / 2.0, 1.0 / 2.0])
    else if waveletType == Haar2 then Ok([1.0 / sqrt2, 1.0 / sqrt2])
    else if waveletType == D4 then
      var d := 4.0 * sqrt2;
      Ok([(1.0 + sqrt3) / d, (3.0 + sqrt3) / d, (3.0 - sqrt3) / d, (1.0 - sqrt3) / d])
    else if waveletType == D6 then
      Ok([0.47046721 / sqrt2, 1.14111692 / sqrt2, 0.650365 / sqrt2,
          -0.19093442 / sqrt2, -0.12083221 / sqrt2, 0.0498175 / sqrt2])
    else Err(ArgumentOutOfRange)
  }

  /** The sum of the products of two filters, term by term. */
  function Dot(a: seq<real>, b: seq<real>): real
    requires |a| == |b|
  {
    if |a| == 0 then 0.0 else a[0] * b[0] + Dot(a[1..], b[1..])
  }

  /** The sum of products of two-coefficient filters. */
  lemma DotOfTwo(a: seq<real>, b: seq<real>)
    requires |a| == |b| == 2
    ensures Dot(a, b) == a[0] * b[0] + a[1] * b[1]
  {
    assert Dot(a[1..][1..], b[1..][1..]) == 0.0;
  }

  /** The sum of products of four-coefficient filters. */
  lemma DotOfFour(a: seq<real>, b: seq<real>)
    requires |a| == |b| == 4
    ensures Dot(a, b) == a[0] * b[0] + a[1] * b[1] + a[2] * b[2] + a[3] * b[3]
  {
    DotOfTwo(a[2..], b[2..]);
    assert a[1..][1..] == a[2..] && b[1..][1..] == b[2..];
  }

  /** Dividing both factors by q divides the product by q². */
  lemma ProductOfQuotients(x: real, y: real, q: real)
    requires q != 0.0
    ensures ((x / q) * (y / q)) * (q * q) == x * y
  {
    var u, v := x / q, y / q;
    assert u * q == x && v * q == y;
    assert (u * v) * (q * q) == (u * q) * (v * q);
  }

  /** With exact square roots, the Haar 1/√2 and Daubechies 4 filters have
      unit norm, and the Daubechies 4 filter is orthogonal to itself
      shifted by two: the relations that make their inverse exact. The
      Haar 0.5 filter has norm 1/2. */
  lemma FiltersOrthonormal(sqrt2: real, sqrt3: real)
    requires sqrt2 > 0.0 && sqrt3 > 0.0 && sqrt2 * sqrt2 == 2.0 && sqrt3 * sqrt3 == 3.0
    ensures var h := CoefsByWaveletType(Haar1, sqrt2, sqrt3).value; Dot(h, h) == 1.0 / 2.0
    ensures var h := CoefsByWaveletType(Haar2, sqrt2, sqrt3).value; Dot(h, h) == 1.0
    ensures var d := CoefsByWaveletType(D4, sqrt2, sqrt3).value;
      Dot(d, d) == 1.0 && d[0] * d[2] + d[1] * d[3] == 0.0
  {
    DotOfTwo(CoefsByWaveletType(Haar1, sqrt2, sqrt3).value, CoefsByWaveletType(Haar1, sqrt2, sqrt3).value);
    var h := CoefsByWaveletType(Haar2, sqrt2, sqrt3).value;
    DotOfTwo(h, h);
    ProductOfQuotients(1.0, 1.0, sqrt2);
    var d := CoefsByWaveletType(D4, sqrt2, sqrt3).value;
    DotOfFour(d, d);
    var q := 4.0 * sqrt2;
    assert q * q == 32.0;
    var a, b, c, e := 1.0 + sqrt3, 3.0 + sqrt3, 3.0 - sqrt3, 1.0 - sqrt3;
    assert d == [a / q, b / q, c / q, e / q];
    ProductOfQuotients(a, a, q);
    ProductOfQuotients(b, b, q);
    ProductOfQuotients(c, c, q);
    ProductOfQuotients(e, e, q);
    ProductOfQuotients(a, c, q);
    ProductOfQuotients(b, e, q);
    assert a * a + b * b + c * c + e * e == 32.0;
    assert a * c + b * e == 0.0;
  }

  // ---------------------------------------------------------------------
  // GetHighPassFilter

  /** x·(-1)^i. */
  function Signed(x: real, i: nat): real
  {
    if i % 2 == 0 then x else -x
  }

  /** The quadrature mirror of a low-pass filter: reversed, every other
      coefficient negated. */
  function HighPass(low: seq<real>): (r: seq<real>)
    ensures |r| == |low|
  {
    seq(|low|, i requires 0 <= i < |low| => Signed(low[|low| - 1 - i], i))
  }

  /** `GetHighPassFilter`: fills a fresh array from the back of the
      low-pass filter, multiplying by a factor `deg` that starts at 1 and
      flips sign each step. */
  method GetHighPassFilter(lowPassFilter: seq<real>) returns (r: seq<real>)
    ensures r == HighPass(lowPassFilter)
  {
    var n := |lowPassFilter|;
    var result := new real[n];
    var deg := 1.0;
    for i := 0 to n
      invariant deg == Signed(1.0, i)
      invariant forall k :: 0 <= k < i ==> result[k] == HighPass(lowPassFilter)[k]
    {
      result[i] := lowPassFilter[n - 1 - i] * deg;
      deg := deg * -1.0;
    }
    return result[..];
  }

  /** Every coefficient negated. */
  function Negated(a: seq<real>): (r: seq<real>)
    ensures |r| == |a| && forall i :: 0 <= i < |a| ==> r[i] == -a[i]
  {
    seq(|a|, i requires 0 <= i < |a| => -a[i])
  }

  /** Mirroring twice gives the filter back, negated when its length is even. */
  lemma HighPassTwice(low: seq<real>)
    ensures HighPass(HighPass(low)) == if |low| % 2 == 0 then Negated(low) else low
  {
    var n := |low|;
    var high := HighPass(low);
    var twice := HighPass(high);
    forall i | 0 <= i < n
      ensures twice[i] == Signed(low[i], n - 1)
    {
      assert twice[i] == Signed(high[n - 1 - i], i);
      assert high[n - 1 - i] == Signed(low[i], n - 1 - i);
      SignedSigned(low[i], n - 1 - i, i);
    }
    if n % 2 == 0 {
      assert twice == Negated(low);
    } else {
      assert twice == low;
    }
  }

  /** Two sign flips add their exponents. */
  lemma SignedSigned(x: real, a: nat, b: nat)
    ensures Signed(Signed(x, a), b) == Signed(x, a + b)
  {
  }

  /** The last term of a sum of products. */
  lemma {:induction false} DotLast(a: seq<real>, b: seq<real>)
    requires |a| == |b| > 0
    ensures Dot(a, b) == Dot(a[..|a| - 1], b[..|b| - 1]) + a[|a| - 1] * b[|b| - 1]
  {
    if |a| > 1 {
      DotLast(a[1..], b[1..]);
      assert a[1..][..|a| - 2] == a[..|a| - 1][1..];
      assert b[1..][..|b| - 2] == b[..|b| - 1][1..];
    }
  }

  /** Negating one side negates the sum of products. */
  lemma {:induction false} DotNegated(a: seq<real>, b: seq<real>)
    requires |a| == |b|
    ensures Dot(a, Negated(b)) == -Dot(a, b)
  {
    if |a| > 0 {
      assert Negated(b)[1..] == Negated(b[1..]);
      DotNegated(a[1..], b[1..]);
    }
  }

  /** The inside of a mirror is the negated mirror of the inside. */
  lemma MirrorInside(low: seq<real>)
    requires |low| >= 2
    ensures HighPass(low)[1..|low| - 1] == Negated(HighPass(low[1..|low| - 1]))
  {
    var n := |low|;
    var mid := low[1..n - 1];
    forall i | 0 <= i < n - 2
      ensures HighPass(low)[i + 1] == -HighPass(mid)[i]
    {
      assert mid[n - 3 - i] == low[n - 2 - i];
      assert HighPass(low)[i + 1] == Signed(low[n - 2 - i], i + 1);
      assert HighPass(mid)[i] == Signed(mid[n - 3 - i], i);
    }
  }

  /** The first and last coefficients of the mirror of an even-length filter. */
  lemma MirrorEnds(low: seq<real>)
    requires |low| % 2 == 0 && |low| > 0
    ensures HighPass(low)[0] == low[|low| - 1] && HighPass(low)[|low| - 1] == -low[0]
  {
    var n := |low|;
    assert HighPass(low)[0] == Signed(low[n - 1], 0);
    assert (n - 1) % 2 == 1;
    assert HighPass(low)[n - 1] == Signed(low[0], n - 1);
  }

  /** The tail of a sum of products, split into its inside and its last
      term. */
  lemma DotTail(a: seq<real>, b: seq<real>)
    requires |a| == |b| >= 2
    ensures Dot(a[1..], b[1..]) == Dot(a[1..|a| - 1], b[1..|b| - 1]) + a[|a| - 1] * b[|b| - 1]
  {
    var n := |a|;
    var a1, b1 := a[1..], b[1..];
    DotLast(a1, b1);
    assert a1[..n - 2] == a[1..n - 1] && b1[..n - 2] == b[1..n - 1];
  }

  /** An even-length filter and its mirror are orthogonal: the terms k and
      n - 1 - k cancel in pairs. */
  lemma {:induction false} MirrorOrthogonal(low: seq<real>)
    requires |low| % 2 == 0
    ensures Dot(low, HighPass(low)) == 0.0
    decreases |low|
  {
    var n := |low|;
    if n > 0 {
      var high := HighPass(low);
      var mid := low[1..n - 1];
      MirrorOrthogonal(mid);
      MirrorInside(low);
      DotNegated(mid, HighPass(mid));
      DotTail(low, high);
      MirrorEnds(low);
    }
  }

  // ---------------------------------------------------------------------
  // GetInverseCoefs

  /** x mod n for 0 <= x < 2n, without division. */
  function Wrapped(x: int, n: nat): int
  {
    if x >= n then x - n else x
  }

  lemma ModOfWrapped(x: int, n: nat)
    requires 0 <= x < 2 * n
    ensures x % n == Wrapped(x, n)
  {
    if x >= n {
      DivUnique(x, n, 1, x - n);
    } else {
      DivUnique(x, n, 0, x);
    }
  }

  /** Coefficient j of an inverse filter of even length n: pair
      p = j - j % 2 reads position (p - back + n) mod n, of the low-pass
      filter for even j and of the high-pass filter for odd j; back is 2
      for the inverse low-pass filter and 1 for the inverse high-pass one. */
  function InverseAt(lower: seq<real>, higher: seq<real>, back: nat, j: nat): real
    requires |lower| == |higher| && |lower| % 2 == 0 && 1 <= back <= 2 && j < |lower|
  {
    var n := |lower|;
    var k := Wrapped(j - j % 2 - back + n, n);
    if j % 2 == 0 then lower[k] else higher[k]
  }

  /** An inverse filter, coefficient by coefficient. */
  function Shuffled(lower: seq<real>, higher: seq<real>, back: nat): (r: seq<real>)
    requires |lower| == |higher| && |lower| % 2 == 0 && 1 <= back <= 2
    ensures |r| == |lower|
  {
    seq(|lower|, j requires 0 <= j < |lower| => InverseAt(lower, higher, back, j))
  }

  /** What `GetInverseCoefs` computes: filters of different lengths throw
      "Invalid program state"; an odd length writes one past the end of
      the inverse filters (IndexOutOfRange); otherwise the inverse low-pass
      and high-pass filters. */
  function InverseCoefs(lower: seq<real>, higher: seq<real>): (r: Result<(seq<real>, seq<real>)>)
    ensures r.Ok? <==> |lower| == |higher| && |lower| % 2 == 0
    ensures |lower| != |higher| ==> r == Err(InvalidState("Invalid program state"))
    ensures |lower| == |higher| && |lower| % 2 == 1 ==> r == Err(IndexOutOfRange)
    ensures r.Ok? ==> |r.value.0| == |r.value.1| == |lower|
  {
    if |lower| != |higher| then Err(InvalidState("Invalid program state"))
    else if |lower| % 2 == 1 then Err(IndexOutOfRange)
    else Ok((Shuffled(lower, higher, 2), Shuffled(lower, higher, 1)))
  }

  /** Coefficients i and i + 1 of an inverse filter, for even i, are the
      pair at (i - back + n) mod n. */
  lemma InverseAtPair(lower: seq<real>, higher: seq<real>, back: nat, i: nat)
    requires |lower| == |higher| && |lower| % 2 == 0 && 1 <= back <= 2 && i % 2 == 0 && i + 1 < |lower|
    ensures InverseAt(lower, higher, back, i) == lower[(i - back + |lower|) % |lower|]
    ensures InverseAt(lower, higher, back, i + 1) == higher[(i - back + |lower|) % |lower|]
  {
    ModOfWrapped(i - back + |lower|, |lower|);
    assert (i + 1) % 2 == 1;
  }

  /** One round of `GetInverseCoefs`: the four coefficients of pair i. */
  method InversePair(lowerCoefs: seq<real>, higherCoefs: seq<real>, iLowerCoefs: array<real>, iHigherCoefs: array<real>, i: nat)
    requires |lowerCoefs| == |higherCoefs| && |lowerCoefs| % 2 == 0 && i % 2 == 0 && i + 1 < |lowerCoefs|
    requires iLowerCoefs.Length == iHigherCoefs.Length == |lowerCoefs| && iLowerCoefs != iHigherCoefs
    modifies iLowerCoefs, iHigherCoefs
    ensures forall j :: 0 <= j < iLowerCoefs.Length ==>
      iLowerCoefs[j] == if j == i || j == i + 1 then InverseAt(lowerCoefs, higherCoefs, 2, j) else old(iLowerCoefs[j])
    ensures forall j :: 0 <= j < iHigherCoefs.Length ==>
      iHigherCoefs[j] == if j == i || j == i + 1 then InverseAt(lowerCoefs, higherCoefs, 1, j) else old(iHigherCoefs[j])
  {
    var n := |lowerCoefs|;
    InverseAtPair(lowerCoefs, higherCoefs, 2, i);
    InverseAtPair(lowerCoefs, higherCoefs, 1, i);
    iLowerCoefs[i] := lowerCoefs[(i - 2 + n) % n];
    iLowerCoefs[i + 1] := higherCoefs[(i - 2 + n) % n];
    iHigherCoefs[i] := lowerCoefs[(i - 1 + n) % n];
    iHigherCoefs[i + 1] := higherCoefs[(i - 1 + n) % n];
  }

  /** `GetInverseCoefs`: fills both inverse filters two coefficients at a
      time. The write of coefficient i + 1 is the one that throws on an odd
      length, after which the partly filled arrays are lost. */
  method GetInverseCoefs(lowerCoefs: seq<real>, higherCoefs: seq<real>) returns (r: Result<(seq<real>, seq<real>)>)
    ensures r == InverseCoefs(lowerCoefs, higherCoefs)
  {
    if |lowerCoefs| != |higherCoefs| {
      return Err(InvalidState("Invalid program state"));
    }
    var n := |lowerCoefs|;
    if n % 2 == 1 {
      // the loop reaches i = n - 1 and writes index n
      return Err(IndexOutOfRange);
    }
    var iLowerCoefs := new real[n];
    var iHigherCoefs := new real[n];
    var i := 0;
    while i < n
      invariant 0 <= i <= n && i % 2 == 0
      invariant forall j :: 0 <= j < i ==> iLowerCoefs[j] == InverseAt(lowerCoefs, higherCoefs, 2, j)
      invariant forall j :: 0 <= j < i ==> iHigherCoefs[j] == InverseAt(lowerCoefs, higherCoefs, 1, j)
    {
      InversePair(lowerCoefs, higherCoefs, iLowerCoefs, iHigherCoefs, i);
      i := i + 2;
    }
    assert iLowerCoefs[..] == Shuffled(lowerCoefs, higherCoefs, 2);
    assert iHigherCoefs[..] == Shuffled(lowerCoefs, higherCoefs, 1);
    return Ok((iLowerCoefs[..], iHigherCoefs[..]));
  }

  /** The inverse filters hold every coefficient of the forward pair
      exactly where the decoder expects it: the pair (lower[k], higher[k])
      sits at position (k + 2) mod n of the inverse low-pass filter for even
      k, and at (k + 1) mod n of the inverse high-pass filter for odd k. */
  lemma InverseCoefsPlacement(lower: seq<real>, higher: seq<real>, k: nat)
    requires |lower| == |higher| && |lower| % 2 == 0 && k < |lower|
    ensures var n := |lower|;
      var inverse := InverseCoefs(lower, higher).value;
      (k % 2 == 0 ==>
        (k + 2) % n + 1 < n && inverse.0[(k + 2) % n] == lower[k] && inverse.0[(k + 2) % n + 1] == higher[k]) &&
      (k % 2 == 1 ==>
        (k + 1) % n + 1 < n && inverse.1[(k + 1) % n] == lower[k] && inverse.1[(k + 1) % n + 1] == higher[k])
  {
    var n := |lower|;
    if k % 2 == 0 {
      PairPlacedAt(lower, higher, 2, k);
    } else {
      PairPlacedAt(lower, higher, 1, k);
    }
  }

  /** The pair k read back by the inverse filter with shift back sits at
      (k + back) mod n, when k + back is even. */
  lemma PairPlacedAt(lower: seq<real>, higher: seq<real>, back: nat, k: nat)
    requires |lower| == |higher| && |lower| % 2 == 0 && 1 <= back <= 2 && k < |lower| && (k + back) % 2 == 0
    ensures var n := |lower|;
      (k + back) % n + 1 < n &&
      Shuffled(lower, higher, back)[(k + back) % n] == lower[k] &&
      Shuffled(lower, higher, back)[(k + back) % n + 1] == higher[k]
  {
    var n := |lower|;
    ModOfWrapped(k + back, n);
    var j := Wrapped(k + back, n);
    if k + back >= n {
      assert j == k + back - n && j - back + n == k;
    } else {
      assert j == k + back && j - back + n == k + n;
    }
    assert j % 2 == 0 && (j + 1) % 2 == 1;
    assert Wrapped(j - back + n, n) == k;
    assert Shuffled(lower, higher, back)[j] == InverseAt(lower, higher, back, j);
    assert Shuffled(lower, higher, back)[j + 1] == InverseAt(lower, higher, back, j + 1);
  }

  // ---------------------------------------------------------------------
  // PairConvolution

  /** The index `(i + k - delta + m) % m` that PairConvolution reads, with
      C#'s truncating remainder: negative when the sum is negative and not
      a multiple of m. */
  function Tap(i: int, k: int, delta: int, m: int): (t: int)
    requires m > 0
    ensures -m < t < m
    ensures i + k - delta + m >= 0 ==> t == (i + k - delta + m) % m
    ensures i + k - delta + m < 0 ==> t <= 0
  {
    TruncRemRange(i + k - delta + m, m);
    TruncRem(i + k - delta + m, m)
  }

  /** C#'s remainder by a positive m lies strictly between -m and m, with
      the sign of the dividend. */
  lemma TruncRemRange(x: int, m: int)
    requires m > 0
    ensures -m < TruncRem(x, m) < m
    ensures x >= 0 ==> TruncRem(x, m) == x % m
    ensures x < 0 ==> TruncRem(x, m) == -((-x) % m)
  {
    if x >= 0 {
      var q, r := x / m, x % m;
      assert x == q * m + r;
      assert TruncDiv(x, m) == q;
    } else {
      var q, r := (-x) / m, (-x) % m;
      assert -x == q * m + r;
      assert TruncDiv(x, m) == -q;
      assert TruncRem(x, m) == x - (-q) * m;
    }
  }

  /** Every index read for the pair at i, up to tap K, lies inside the data. */
  predicate TapsInside(m: nat, delta: int, i: nat, K: nat)
  {
    m > 0 && forall k :: 0 <= k < K ==> Tap(i, k, delta, m) >= 0
  }

  /** Every index PairConvolution reads lies inside the data. */
  predicate AllTapsInside(m: nat, n: nat, delta: int)
  {
    forall i :: 0 <= i < m && i % 2 == 0 ==> TapsInside(m, delta, i, n)
  }

  /** The running sum after K taps: Σ_{k<K} data[Tap(i, k)]·coefs[k]. */
  function WindowSum(data: seq<real>, coefs: seq<real>, i: nat, delta: int, K: nat): real
    requires K <= |coefs| && TapsInside(|data|, delta, i, K)
  {
    if K == 0 then 0.0
    else WindowSum(data, coefs, i, delta, K - 1) + data[Tap(i, K - 1, delta, |data|)] * coefs[K - 1]
  }

  /** Entry j of the convolved line: the low-pass sum of the pair at j for
      even j, the high-pass sum of the pair at j - 1 for odd j. */
  function ConvolvedAt(data: seq<real>, lower: seq<real>, higher: seq<real>, delta: int, j: nat): real
    requires |lower| == |higher| && j < |data| && TapsInside(|data|, delta, j - j % 2, |lower|)
  {
    if j % 2 == 0 then WindowSum(data, lower, j, delta, |lower|)
    else WindowSum(data, higher, j - 1, delta, |lower|)
  }

  /** The convolved line, entry by entry. */
  function Convolved(data: seq<real>, lower: seq<real>, higher: seq<real>, delta: int): (r: seq<real>)
    requires |lower| == |higher| && |data| % 2 == 0 && AllTapsInside(|data|, |lower|, delta)
    ensures |r| == |data|
  {
    seq(|data|, j requires 0 <= j < |data| =>
      assert TapsInside(|data|, delta, j - j % 2, |lower|);
      ConvolvedAt(data, lower, higher, delta, j))
  }

  /** What `PairConvolution(data, lowerCoefs, higherCoefs, delta)` returns:
      filters of different lengths throw "Invalid program state"; a read
      before the start of the data or the write one past the end of an
      odd-length result throws IndexOutOfRange; otherwise the convolved line,
      as long as the data. */
  function PairConvolved(data: seq<real>, lower: seq<real>, higher: seq<real>, delta: int): (r: Result<seq<real>>)
    ensures r.Ok? <==> |lower| == |higher| && |data| % 2 == 0 && AllTapsInside(|data|, |lower|, delta)
    ensures |lower| != |higher| ==> r == Err(InvalidState("Invalid program state"))
    ensures |lower| == |higher| && r.Err? ==> r.error == IndexOutOfRange
    ensures r.Ok? ==> |r.value| == |data|
  {
    if |lower| != |higher| then Err(InvalidState("Invalid program state"))
    else if |data| % 2 == 0 && AllTapsInside(|data|, |lower|, delta) then Ok(Convolved(data, lower, higher, delta))
    else Err(IndexOutOfRange)
  }

  /** The inner loop of `PairConvolution`: both sums of the pair at i,
      or None when a read falls before the start of the data. */
  method PairSums(data: seq<real>, lowerCoefs: seq<real>, higherCoefs: seq<real>, i: nat, delta: int)
    returns (r: Option<(real, real)>)
    requires |lowerCoefs| == |higherCoefs| && i < |data|
    ensures r.Some? <==> TapsInside(|data|, delta, i, |lowerCoefs|)
    ensures r.Some? ==> r.value == (WindowSum(data, lowerCoefs, i, delta, |lowerCoefs|),
                                    WindowSum(data, higherCoefs, i, delta, |lowerCoefs|))
  {
    var m := |data|;
    var sumLower := 0.0;
    var sumHigher := 0.0;
    for k := 0 to |lowerCoefs|
      invariant TapsInside(m, delta, i, k)
      invariant sumLower == WindowSum(data, lowerCoefs, i, delta, k)
      invariant sumHigher == WindowSum(data, higherCoefs, i, delta, k)
    {
      var t := Tap(i, k, delta, m);
      if t < 0 {
        assert !TapsInside(m, delta, i, |lowerCoefs|) by { assert Tap(i, k, delta, m) < 0; }
        return None;
      }
      sumLower := sumLower + data[t] * lowerCoefs[k];
      sumHigher := sumHigher + data[t] * higherCoefs[k];
    }
    return Some((sumLower, sumHigher));
  }

  /** The first i entries of a line are those of the convolved line. */
  predicate FilledUpTo(data: seq<real>, lower: seq<real>, higher: seq<real>, delta: int, line: seq<real>, i: nat)
    requires |lower| == |higher|
  {
    i <= |line| == |data| &&
    forall j :: 0 <= j < i ==>
      TapsInside(|data|, delta, j - j % 2, |lower|) && line[j] == ConvolvedAt(data, lower, higher, delta, j)
  }

  /** A line whose every entry agrees with the convolved line is it. */
  lemma ConvolvedByEntries(data: seq<real>, lower: seq<real>, higher: seq<real>, delta: int, line: seq<real>)
    requires |lower| == |higher| && |data| % 2 == 0 && FilledUpTo(data, lower, higher, delta, line, |data|)
    ensures AllTapsInside(|data|, |lower|, delta)
    ensures line == Convolved(data, lower, higher, delta)
  {
    forall p | 0 <= p < |data| && p % 2 == 0
      ensures TapsInside(|data|, delta, p, |lower|)
    {
      assert p - p % 2 == p;
    }
  }

  /** One round of the outer loop of `PairConvolution`: both sums of the
      pair at i written to the result, which then agrees with the convolved
      line on two more entries. */
  method WritePair(result: array<real>, data: seq<real>, lowerCoefs: seq<real>, higherCoefs: seq<real>, delta: int,
                   i: nat, sums: (real, real))
    requires |lowerCoefs| == |higherCoefs| && i % 2 == 0 && i + 1 < |data|
    requires FilledUpTo(data, lowerCoefs, higherCoefs, delta, result[..], i)
    requires TapsInside(|data|, delta, i, |lowerCoefs|)
    requires sums == (WindowSum(data, lowerCoefs, i, delta, |lowerCoefs|), WindowSum(data, higherCoefs, i, delta, |lowerCoefs|))
    modifies result
    ensures result[..] == old(result[..])[i := sums.0][i + 1 := sums.1]
    ensures FilledUpTo(data, lowerCoefs, higherCoefs, delta, result[..], i + 2)
  {
    result[i] := sums.0;
    result[i + 1] := sums.1;
    assert i - i % 2 == i && i + 1 - (i + 1) % 2 == i;
    assert result[i] == ConvolvedAt(data, lowerCoefs, higherCoefs, delta, i);
    assert result[i + 1] == ConvolvedAt(data, lowerCoefs, higherCoefs, delta, i + 1);
  }

  /** `PairConvolution`: a fresh result line filled two entries at a time. */
  method PairConvolution(data: seq<real>, lowerCoefs: seq<real>, higherCoefs: seq<real>, delta: int)
    returns (r: Result<seq<real>>)
    ensures r == PairConvolved(data, lowerCoefs, higherCoefs, delta)
  {
    if |lowerCoefs| != |higherCoefs| {
      return Err(InvalidState("Invalid program state"));
    }
    var n := |lowerCoefs|;
    var m := |data|;
    var result := new real[m];
    var i := 0;
    while i < m
      invariant i % 2 == 0
      invariant FilledUpTo(data, lowerCoefs, higherCoefs, delta, result[..], i)
    {
      var sums := PairSums(data, lowerCoefs, higherCoefs, i, delta);
      if sums.None? {
        assert !TapsInside(m, delta, i, n);
        return Err(IndexOutOfRange);
      }
      if i + 1 >= m {
        // the high-pass sum is written one past the end of the line
        return Err(IndexOutOfRange);
      }
      WritePair(result, data, lowerCoefs, higherCoefs, delta, i, sums.value);
      i := i + 2;
    }
    ConvolvedByEntries(data, lowerCoefs, higherCoefs, delta, result[..]);
    return Ok(result[..]);
  }

  /** With equal filter lengths, an even-length line and a shift no larger
      than the line, every read is inside the data: the forward pass (shift
      0) and the inverse pass (shift n - 2) on lines of at least n - 2
      entries never throw. */
  lemma PairConvolutionDefined(data: seq<real>, lower: seq<real>, higher: seq<real>, delta: int)
    requires |lower| == |higher| && |data| % 2 == 0 && 0 <= delta <= |data|
    ensures PairConvolved(data, lower, higher, delta).Ok?
  {
  }

  /** As written, a line shorter than the shift is read before its start:
      with at least two entries and a shift between the line's length and
      that length plus the filter length, tap delta - m - 1 of the first
      pair is index -1, and the call throws. */
  lemma PairConvolutionShortLineFails(data: seq<real>, lower: seq<real>, higher: seq<real>, delta: int)
    requires |lower| == |higher| && |data| % 2 == 0 && 2 <= |data| < delta <= |data| + |lower|
    ensures PairConvolved(data, lower, higher, delta) == Err(IndexOutOfRange)
  {
    var m := |data|;
    var k := delta - m - 1;
    TruncRemRange(-1, m);
    DivUnique(1, m, 0, 1);
    assert Tap(0, k, delta, m) == -1;
    assert !AllTapsInside(m, |lower|, delta) by {
      assert !TapsInside(m, delta, 0, |lower|);
    }
  }

  /** The Daubechies 6 decoder's inverse pass (six taps, shift 4) on a line
      of two entries throws, though the forward pass on that line does not. */
  lemma D6InverseOnTwoFails(data: seq<real>, lower: seq<real>, higher: seq<real>)
    requires |data| == 2 && |lower| == |higher| == 6
    ensures PairConvolved(data, lower, higher, 0).Ok?
    ensures PairConvolved(data, lower, higher, |lower| - 2) == Err(IndexOutOfRange)
  {
    PairConvolutionDefined(data, lower, higher, 0);
    PairConvolutionShortLineFails(data, lower, higher, 4);
  }

  // The cyclic convolution the `+ m` in the index evidently intends: the
  // index taken modulo m, so that every shift wraps around the line.

  /** Σ_{k<K} data[(i + k - delta) mod m]·coefs[k], with a non-negative modulus. */
  function CyclicWindowSum(data: seq<real>, coefs: seq<real>, i: int, delta: int, K: nat): real
    requires K <= |coefs| && |data| > 0
  {
    if K == 0 then 0.0
    else CyclicWindowSum(data, coefs, i, delta, K - 1) + data[(i + K - 1 - delta) % |data|] * coefs[K - 1]
  }

  /** The pair convolution with a cyclic index: defined for every shift. */
  function CyclicPairConvolved(data: seq<real>, lower: seq<real>, higher: seq<real>, delta: int): (r: Result<seq<real>>)
    ensures r.Ok? <==> |lower| == |higher| && |data| % 2 == 0
    ensures r.Ok? ==> |r.value| == |data|
  {
    if |lower| != |higher| then Err(InvalidState("Invalid program state"))
    else if |data| % 2 == 1 then Err(IndexOutOfRange)
    else Ok(seq(|data|, j requires 0 <= j < |data| =>
      if j % 2 == 0 then CyclicWindowSum(data, lower, j, delta, |lower|)
      else CyclicWindowSum(data, higher, j - 1, delta, |lower|)))
  }

  /** Wherever the code as written reads inside the line, it reads the
      cyclic index. */
  lemma TapIsCyclic(i: int, k: int, delta: int, m: int)
    requires m > 0 && Tap(i, k, delta, m) >= 0
    ensures Tap(i, k, delta, m) == (i + k - delta) % m
  {
    var x := i + k - delta;
    TruncRemRange(x + m, m);
    if x + m >= 0 {
      var r := (x + m) % m;
      ModUnique(x + m, m, (x + m) / m, r);
      ModUnique(x, m, (x + m) / m - 1, r);
    } else {
      var u := -(x + m);
      assert u % m == 0;
      ModUnique(u, m, u / m, 0);
      ModUnique(x, m, -(u / m) - 1, 0);
    }
  }

  /** The remainder of p = q·w + r, for any integer quotient q. */
  lemma ModUnique(p: int, w: int, q: int, r: int)
    requires 0 <= r < w && p == q * w + r
    ensures p % w == r
  {
    var q', r' := p / w, p % w;
    assert p == q' * w + r';
    assert (q' - q) * w == r - r';
    MultipleSize(q' - q, w);
  }

  lemma {:induction false} WindowSumIsCyclic(data: seq<real>, coefs: seq<real>, i: nat, delta: int, K: nat)
    requires K <= |coefs| && TapsInside(|data|, delta, i, K)
    ensures WindowSum(data, coefs, i, delta, K) == CyclicWindowSum(data, coefs, i, delta, K)
  {
    if K > 0 {
      WindowSumIsCyclic(data, coefs, i, delta, K - 1);
      TapIsCyclic(i, K - 1, delta, |data|);
    }
  }

  /** The cyclic convolution agrees with the code as written wherever the
      latter returns. */
  lemma CyclicAgrees(data: seq<real>, lower: seq<real>, higher: seq<real>, delta: int)
    requires PairConvolved(data, lower, higher, delta).Ok?
    ensures CyclicPairConvolved(data, lower, higher, delta) == PairConvolved(data, lower, higher, delta)
  {
    var a, b := PairConvolved(data, lower, higher, delta).value, CyclicPairConvolved(data, lower, higher, delta).value;
    forall j | 0 <= j < |data|
      ensures a[j] == b[j]
    {
      var p := j - j % 2;
      assert TapsInside(|data|, delta, p, |lower|);
      WindowSumIsCyclic(data, lower, p, delta, |lower|);
      WindowSumIsCyclic(data, higher, p, delta, |lower|);
    }
    assert a == b;
  }

  // ---------------------------------------------------------------------
  // Reconstruction with a two-tap filter

  /** Every entry multiplied by c. */
  function Scaled(x: seq<real>, c: real): (r: seq<real>)
    ensures |r| == |x|
  {
    seq(|x|, i requires 0 <= i < |x| => x[i] * c)
  }

  /** Scaling by one changes nothing. */
  lemma ScaledByOne(x: seq<real>)
    ensures Scaled(x, 1.0) == x
  {
    assert forall i :: 0 <= i < |x| ==> Scaled(x, 1.0)[i] == x[i];
  }

  /** A two-tap window without shift reads the pair itself. */
  lemma TwoTapWindow(data: seq<real>, coefs: seq<real>, i: nat)
    requires |coefs| == 2 && i % 2 == 0 && i + 1 < |data|
    ensures TapsInside(|data|, 0, i, 2)
    ensures WindowSum(data, coefs, i, 0, 2) == data[i] * coefs[0] + data[i + 1] * coefs[1]
  {
    var m := |data|;
    ModOfWrapped(i + m, m);
    ModOfWrapped(i + 1 + m, m);
    assert Tap(i, 0, 0, m) == i && Tap(i, 1, 0, m) == i + 1;
    assert WindowSum(data, coefs, i, 0, 1) == data[i] * coefs[0];
  }

  /** The inverse filters of a two-tap pair [a, b], [b, -a]. */
  lemma TwoTapInverse(a: real, b: real)
    ensures HighPass([a, b]) == [b, -a]
    ensures InverseCoefs([a, b], [b, -a]) == Ok(([a, b], [b, -a]))
  {
    var low, high := [a, b], [b, -a];
    assert HighPass(low)[0] == Signed(low[1], 0) && HighPass(low)[1] == Signed(low[0], 1);
    assert Shuffled(low, high, 2)[0] == low[Wrapped(0, 2)];
    assert Shuffled(low, high, 2)[1] == high[Wrapped(0, 2)];
    assert Shuffled(low, high, 1)[0] == low[Wrapped(1, 2)];
    assert Shuffled(low, high, 1)[1] == high[Wrapped(1, 2)];
    assert Shuffled(low, high, 2) == [a, b] && Shuffled(low, high, 1) == [b, -a];
  }

  /** Decoding one pair of an encoded line with a two-tap filter: the
      forward pass took x to y, the inverse pass takes y to z. */
  lemma TwoTapPair(x0: real, x1: real, y0: real, y1: real, z0: real, z1: real, a: real, b: real, c: real)
    requires c == a * a + b * b
    requires y0 == x0 * a + x1 * b && y1 == x0 * b + x1 * -a
    requires z0 == y0 * a + y1 * b && z1 == y0 * b + y1 * -a
    ensures z0 == x0 * c && z1 == x1 * c
  {
  }

  /** The forward pass of a two-tap filter on one pair. */
  lemma TwoTapForward(x: seq<real>, y: seq<real>, a: real, b: real, p: nat)
    requires p % 2 == 0 && p + 1 < |x| && PairConvolved(x, [a, b], [b, -a], 0) == Ok(y)
    ensures y[p] == x[p] * a + x[p + 1] * b && y[p + 1] == x[p] * b + x[p + 1] * -a
  {
    TwoTapWindow(x, [a, b], p);
    TwoTapWindow(x, [b, -a], p);
    assert (p + 1) % 2 == 1 && p + 1 - (p + 1) % 2 == p;
  }

  /** A line x, its encoding y and the decoding z of y, related pair by
      pair by the two-tap filter [a, b]: z is x scaled by c = a² + b². */
  lemma TwoTapLine(x: seq<real>, y: seq<real>, z: seq<real>, a: real, b: real, c: real)
    requires |x| == |y| == |z| && |x| % 2 == 0 && c == a * a + b * b
    requires forall p :: 0 <= p && p % 2 == 0 && p + 1 < |x| ==>
      y[p] == x[p] * a + x[p + 1] * b && y[p + 1] == x[p] * b + x[p + 1] * -a
    requires forall p :: 0 <= p && p % 2 == 0 && p + 1 < |x| ==>
      z[p] == y[p] * a + y[p + 1] * b && z[p + 1] == y[p] * b + y[p + 1] * -a
    ensures z == Scaled(x, c)
  {
    forall j | 0 <= j < |x|
      ensures z[j] == x[j] * c
    {
      TwoTapDecoded(x, y, z, a, b, c, j);
    }
    ScaledByEntries(x, c, z);
  }

  /** The entry j of z once both passes are known on the pair holding j. */
  lemma TwoTapDecoded(x: seq<real>, y: seq<real>, z: seq<real>, a: real, b: real, c: real, j: nat)
    requires j < |x| == |y| == |z| && j - j % 2 + 1 < |x| && c == a * a + b * b
    requires var p := j - j % 2;
      y[p] == x[p] * a + x[p + 1] * b && y[p + 1] == x[p] * b + x[p + 1] * -a &&
      z[p] == y[p] * a + y[p + 1] * b && z[p + 1] == y[p] * b + y[p + 1] * -a
    ensures z[j] == x[j] * c
  {
    var p := j - j % 2;
    TwoTapPair(x[p], x[p + 1], y[p], y[p + 1], z[p], z[p + 1], a, b, c);
    PairCovers(x, z, c, j);
  }

  /** An entry lies in the pair starting at its even predecessor. */
  lemma PairCovers(x: seq<real>, z: seq<real>, c: real, j: nat)
    requires j < |x| == |z| && j - j % 2 + 1 < |x|
    requires z[j - j % 2] == x[j - j % 2] * c && z[j - j % 2 + 1] == x[j - j % 2 + 1] * c
    ensures z[j] == x[j] * c
  {
    if j % 2 == 1 {
      assert j == j - j % 2 + 1;
    }
  }

  /** A line equal entry by entry to x times c is Scaled(x, c). */
  lemma ScaledByEntries(x: seq<real>, c: real, z: seq<real>)
    requires |z| == |x| && forall j :: 0 <= j < |x| ==> z[j] == x[j] * c
    ensures z == Scaled(x, c)
  {
    assert forall j :: 0 <= j < |x| ==> z[j] == Scaled(x, c)[j];
  }

  /** The inverse pass undoes the forward pass of a two-tap filter [a, b]
      up to the factor a² + b²: exactly for Haar 1/√2, and halving every
      entry for Haar 0.5. */
  lemma TwoTapRoundTrip(x: seq<real>, a: real, b: real)
    requires |x| % 2 == 0
    ensures var low := [a, b];
      var high := HighPass(low);
      var inverse := InverseCoefs(low, high);
      var y := PairConvolved(x, low, high, 0);
      inverse.Ok? && y.Ok? &&
      PairConvolved(y.value, inverse.value.0, inverse.value.1, |inverse.value.0| - 2) == Ok(Scaled(x, a * a + b * b))
  {
    TwoTapInverse(a, b);
    PairConvolutionDefined(x, [a, b], [b, -a], 0);
    var y := PairConvolved(x, [a, b], [b, -a], 0).value;
    PairConvolutionDefined(y, [a, b], [b, -a], 0);
    var z := PairConvolved(y, [a, b], [b, -a], 0).value;
    forall p | 0 <= p && p % 2 == 0 && p + 1 < |x|
      ensures y[p] == x[p] * a + x[p + 1] * b && y[p + 1] == x[p] * b + x[p + 1] * -a
    {
      TwoTapForward(x, y, a, b, p);
    }
    forall p | 0 <= p && p % 2 == 0 && p + 1 < |x|
      ensures z[p] == y[p] * a + y[p + 1] * b && z[p + 1] == y[p] * b + y[p + 1] * -a
    {
      TwoTapForward(y, z, a, b, p);
    }
    TwoTapLine(x, y, z, a, b, a * a + b * b);
  }
}
