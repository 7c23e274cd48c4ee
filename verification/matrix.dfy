/** Matrix (Structures/Matrix.cs): a class wrapping a mutable two-dimensional
    array of doubles (modelled as reals), with shape-checked product,
    element-wise rounded quotient (`/`) and rounded product (`%`), and transpose.
    The value functions below say what each operator computes; the class
    methods are proved against them. */
module Matrices {
  import opened Common
  import opened Grids

  /** A matrix value, row by row. */
  type Mat = seq<seq<real>>

  /** Σ_{t < k} row[t] · col[t]. */
  function Dot(row: seq<real>, col: seq<real>, k: nat): real
    requires k <= |row| && k <= |col|
  {
    if k == 0 then 0.0 else Dot(row, col, k - 1) + row[k - 1] * col[k - 1]
  }

  /** Column j of a matrix value. */
  function Col(b: Mat, j: nat): (c: seq<real>)
    requires forall r :: 0 <= r < |b| ==> j < |b[r]|
    ensures |c| == |b| && forall r :: 0 <= r < |b| ==> c[r] == b[r][j]
  {
    seq(|b|, r requires 0 <= r < |b| => b[r][j])
  }

  /** The n×m product of an n×l and an l×m matrix. */
  function Product(a: Mat, b: Mat, n: nat, l: nat, m: nat): (c: Mat)
    requires IsRect(a, n, l) && IsRect(b, l, m)
    ensures IsRect(c, n, m)
    ensures forall i, j :: 0 <= i < n && 0 <= j < m ==> c[i][j] == Dot(a[i], Col(b, j), l)
  {
    seq(n, i requires 0 <= i < n => seq(m, j requires 0 <= j < m => Dot(a[i], Col(b, j), l)))
  }

  /** One entry of `a / b`: Math.Round(x / y). */
  function RoundedQuotient(x: real, y: real): real
    requires y != 0.0
  {
    RoundHalfEven(x / y) as real
  }

  /** One entry of `a % b`: Math.Round(x * y). */
  function RoundedProduct(x: real, y: real): real
  {
    RoundHalfEven(x * y) as real
  }

  /** `a / b`: every entry is Math.Round(a[i,j] / b[i,j]). */
  function Quotient(a: Mat, b: Mat, n: nat, m: nat): (c: Mat)
    requires IsRect(a, n, m) && IsRect(b, n, m)
    requires forall i, j :: 0 <= i < n && 0 <= j < m ==> b[i][j] != 0.0
    ensures IsRect(c, n, m)
    ensures forall i, j :: 0 <= i < n && 0 <= j < m ==>
      c[i][j] == RoundedQuotient(a[i][j], b[i][j])
  {
    seq(n, i requires 0 <= i < n =>
      seq(m, j requires 0 <= j < m && b[i][j] != 0.0 => RoundedQuotient(a[i][j], b[i][j])))
  }

  /** `a % b`: every entry is Math.Round(a[i,j] · b[i,j]). */
  function RoundProduct(a: Mat, b: Mat, n: nat, m: nat): (c: Mat)
    requires IsRect(a, n, m) && IsRect(b, n, m)
    ensures IsRect(c, n, m)
    ensures forall i, j :: 0 <= i < n && 0 <= j < m ==>
      c[i][j] == RoundedProduct(a[i][j], b[i][j])
  {
    seq(n, i requires 0 <= i < n =>
      seq(m, j requires 0 <= j < m => RoundedProduct(a[i][j], b[i][j])))
  }

  /** The m×n transpose of an n×m matrix. */
  function Transposed(a: Mat, n: nat, m: nat): (t: Mat)
    requires IsRect(a, n, m)
    ensures IsRect(t, m, n)
    ensures forall i, j :: 0 <= i < m && 0 <= j < n ==> t[i][j] == a[j][i]
  {
    seq(m, i requires 0 <= i < m => seq(n, j requires 0 <= j < n => a[j][i]))
  }

  /** Transposing twice gives back the matrix. */
  lemma TransposeInvolution(a: Mat, n: nat, m: nat)
    requires IsRect(a, n, m)
    ensures Transposed(Transposed(a, n, m), m, n) == a
  {
    RectExtensional(Transposed(Transposed(a, n, m), m, n), a, n, m);
  }

  /** Rounding the quotient and multiplying back stays within half a divisor
      (plus the final rounding) of the original entry: for every positive
      divisor q, |round(round(v/q)·q) − v| ≤ q/2 + 1/2. */
  lemma {:induction false} QuantizeDequantizeError(v: real, q: real)
    requires q > 0.0
    ensures v - q / 2.0 - 0.5 <= RoundedProduct(RoundedQuotient(v, q), q) <= v + q / 2.0 + 0.5
  {
    var k := RoundedQuotient(v, q);
    assert v / q - 0.5 <= k <= v / q + 0.5;
    ScaledNeighbour(v, q, k);
  }

  /** A k within half a unit of v/q is, scaled by q, within q/2 of v. */
  lemma ScaledNeighbour(v: real, q: real, k: real)
    requires q > 0.0
    requires v / q - 0.5 <= k <= v / q + 0.5
    ensures v - q / 2.0 <= k * q <= v + q / 2.0
  {
    var x := v / q;
    var lo, hi := x - 0.5, x + 0.5;
    ScaleBetween(lo, k, hi, q);
    assert lo * q == v - q / 2.0 && hi * q == v + q / 2.0;
  }

  lemma ScaleBetween(lo: real, k: real, hi: real, q: real)
    requires lo <= k <= hi && q > 0.0
    ensures lo * q <= k * q <= hi * q
  {
  }

  class Matrix {
    /** The wrapped array (`private readonly double[,] array`). */
    const arr: array2<real>

    /** `new Matrix(n, m)`: a fresh n×m matrix of zeros. */
    constructor Zero(n: nat, m: nat)
      ensures fresh(arr)
      ensures arr.Length0 == n && arr.Length1 == m
      ensures forall i, j :: 0 <= i < n && 0 <= j < m ==> arr[i, j] == 0.0
    {
      arr := new real[n, m]((_, _) => 0.0);
    }

    /** `new Matrix(double[,])`: wraps the given array without copying it. */
    constructor Wrap(a: array2<real>)
      ensures arr == a
    {
      arr := a;
    }

    /** Number of rows. */
    function N(): nat { arr.Length0 }

    /** Number of columns. */
    function M(): nat { arr.Length1 }

    /** The matrix's current value. */
    function Contents(): (g: Mat)
      reads arr
      ensures IsRect(g, N(), M())
    {
      Cells(arr)
    }

    /** The indexer's getter: out-of-range indices throw. */
    method Get(i: int, j: int) returns (r: Result<real>)
      ensures r.Ok? <==> 0 <= i < N() && 0 <= j < M()
      ensures r.Ok? ==> r.value == arr[i, j]
      ensures r.Err? ==> r.error == IndexOutOfRange
    {
      if 0 <= i < arr.Length0 && 0 <= j < arr.Length1 {
        r := Ok(arr[i, j]);
      } else {
        r := Err(IndexOutOfRange);
      }
    }

    /** The indexer's setter: writes one cell of the shared array (so every
        Matrix wrapping the same array sees it); out-of-range indices throw. */
    method Set(i: int, j: int, v: real) returns (ok: bool)
      modifies arr
      ensures ok <==> 0 <= i < N() && 0 <= j < M()
      ensures ok ==> arr[i, j] == v
      ensures forall p, q :: 0 <= p < N() && 0 <= q < M() && (p != i || q != j) ==>
        arr[p, q] == old(arr[p, q])
      ensures !ok ==> Contents() == old(Contents())
    {
      ok := 0 <= i < arr.Length0 && 0 <= j < arr.Length1;
      if ok {
        arr[i, j] := v;
      }
    }

    /** `a * b`: throws unless a.M == b.N; otherwise a fresh a.N × b.M product. */
    static method Multiply(a: Matrix, b: Matrix) returns (r: Result<Matrix>)
      ensures r.Err? <==> a.M() != b.N()
      ensures r.Err? ==> r.error == InvalidState("Can't multiply matrices")
      ensures r.Ok? ==> fresh(r.value.arr) && r.value.N() == a.N() && r.value.M() == b.M()
      ensures r.Ok? ==> r.value.Contents() == Product(a.Contents(), b.Contents(), a.N(), a.M(), b.M())
    {
      if a.M() != b.N() {
        return Err(InvalidState("Can't multiply matrices"));
      }
      var n, m, l := a.N(), b.M(), a.M();
      var c := new Matrix.Zero(n, m);
      ghost var A, B := a.Contents(), b.Contents();
      for i := 0 to n
        invariant forall p, q :: 0 <= p < i && 0 <= q < m ==> c.arr[p, q] == Dot(A[p], Col(B, q), l)
      {
        for j := 0 to m
          invariant forall p, q :: 0 <= p < n && 0 <= q < m && (p < i || (p == i && q < j)) ==>
            c.arr[p, q] == Dot(A[p], Col(B, q), l)
        {
          Accumulate(c, a, b, i, j);
        }
      }
      RectExtensional(c.Contents(), Product(A, B, n, l, m), n, m);
      return Ok(c);
    }

    /** The body of the product's innermost loop: `c[i,j] = 0` followed by
        `c[i,j] += a[i,k] * b[k,j]` for every k. */
    static method Accumulate(c: Matrix, a: Matrix, b: Matrix, i: nat, j: nat)
      requires c.arr != a.arr && c.arr != b.arr
      requires a.M() == b.N() && i < a.N() && j < b.M() && i < c.N() && j < c.M()
      modifies c.arr
      ensures c.arr[i, j] == Dot(a.Contents()[i], Col(b.Contents(), j), a.M())
      ensures forall p, q :: 0 <= p < c.N() && 0 <= q < c.M() && (p != i || q != j) ==>
        c.arr[p, q] == old(c.arr[p, q])
    {
      ghost var row, col := a.Contents()[i], Col(b.Contents(), j);
      c.arr[i, j] := 0.0;
      for k := 0 to a.M()
        invariant c.arr[i, j] == Dot(row, col, k)
        invariant forall p, q :: 0 <= p < c.N() && 0 <= q < c.M() && (p != i || q != j) ==>
          c.arr[p, q] == old(c.arr[p, q])
      {
        assert row[k] == a.arr[i, k] && col[k] == b.arr[k, j];
        AddTerm(c, a, b, i, j, k, row, col);
      }
    }

    /** `c[i,j] += a[i,k] * b[k,j]`: one more term of the dot product. */
    static method AddTerm(c: Matrix, a: Matrix, b: Matrix, i: nat, j: nat, k: nat, ghost row: seq<real>, ghost col: seq<real>)
      requires c.arr != a.arr && c.arr != b.arr
      requires i < a.N() && k < a.M() && k < b.N() && j < b.M() && i < c.N() && j < c.M()
      requires k < |row| && k < |col| && row[k] == a.arr[i, k] && col[k] == b.arr[k, j]
      requires c.arr[i, j] == Dot(row, col, k)
      modifies c.arr
      ensures c.arr[i, j] == Dot(row, col, k + 1)
      ensures forall p, q :: 0 <= p < c.N() && 0 <= q < c.M() && (p != i || q != j) ==>
        c.arr[p, q] == old(c.arr[p, q])
    {
      c.arr[i, j] := c.arr[i, j] + a.arr[i, k] * b.arr[k, j];
    }

    /** `a / b`: throws on any shape mismatch; otherwise a fresh matrix of
        rounded element-wise quotients. */
    static method Divide(a: Matrix, b: Matrix) returns (r: Result<Matrix>)
      requires forall i, j :: 0 <= i < b.N() && 0 <= j < b.M() ==> b.arr[i, j] != 0.0
      ensures r.Err? <==> a.N() != b.N() || a.M() != b.M()
      ensures r.Err? ==> r.error == InvalidState("Matrices sizes don't match")
      ensures r.Ok? ==> fresh(r.value.arr) && r.value.N() == a.N() && r.value.M() == a.M()
      ensures r.Ok? ==> r.value.Contents() == Quotient(a.Contents(), b.Contents(), a.N(), a.M())
    {
      if a.N() != b.N() || a.M() != b.M() {
        return Err(InvalidState("Matrices sizes don't match"));
      }
      var c := new Matrix.Zero(a.N(), a.M());
      for i := 0 to a.N()
        invariant forall p, q :: 0 <= p < i && 0 <= q < a.M() ==>
          c.arr[p, q] == RoundedQuotient(a.arr[p, q], b.arr[p, q])
      {
        for j := 0 to a.M()
          invariant forall p, q :: 0 <= p < a.N() && 0 <= q < a.M() && (p < i || (p == i && q < j)) ==>
            c.arr[p, q] == RoundedQuotient(a.arr[p, q], b.arr[p, q])
        {
          c.arr[i, j] := RoundedQuotient(a.arr[i, j], b.arr[i, j]);
        }
      }
      RectExtensional(c.Contents(), Quotient(a.Contents(), b.Contents(), a.N(), a.M()), a.N(), a.M());
      return Ok(c);
    }

    /** `a % b`: throws on any shape mismatch; otherwise a fresh matrix of
        rounded element-wise products. */
    static method RoundMultiply(a: Matrix, b: Matrix) returns (r: Result<Matrix>)
      ensures r.Err? <==> a.N() != b.N() || a.M() != b.M()
      ensures r.Err? ==> r.error == InvalidState("Matrices sizes don't match")
      ensures r.Ok? ==> fresh(r.value.arr) && r.value.N() == a.N() && r.value.M() == a.M()
      ensures r.Ok? ==> r.value.Contents() == RoundProduct(a.Contents(), b.Contents(), a.N(), a.M())
    {
      if a.N() != b.N() || a.M() != b.M() {
        return Err(InvalidState("Matrices sizes don't match"));
      }
      var c := new Matrix.Zero(a.N(), a.M());
      for i := 0 to a.N()
        invariant forall p, q :: 0 <= p < i && 0 <= q < a.M() ==>
          c.arr[p, q] == RoundedProduct(a.arr[p, q], b.arr[p, q])
      {
        for j := 0 to a.M()
          invariant forall p, q :: 0 <= p < a.N() && 0 <= q < a.M() && (p < i || (p == i && q < j)) ==>
            c.arr[p, q] == RoundedProduct(a.arr[p, q], b.arr[p, q])
        {
          c.arr[i, j] := RoundedProduct(a.arr[i, j], b.arr[i, j]);
        }
      }
      RectExtensional(c.Contents(), RoundProduct(a.Contents(), b.Contents(), a.N(), a.M()), a.N(), a.M());
      return Ok(c);
    }

    /** `Transpose()`: a fresh M×N matrix with r[i,j] = this[j,i]. */
    method Transpose() returns (r: Matrix)
      ensures fresh(r.arr) && r.N() == M() && r.M() == N()
      ensures r.Contents() == Transposed(Contents(), N(), M())
    {
      r := new Matrix.Zero(arr.Length1, arr.Length0);
      for i := 0 to arr.Length1
        invariant forall p, q :: 0 <= p < i && 0 <= q < arr.Length0 ==> r.arr[p, q] == arr[q, p]
      {
        for j := 0 to arr.Length0
          invariant forall p, q :: 0 <= p < arr.Length1 && 0 <= q < arr.Length0 && (p < i || (p == i && q < j)) ==>
            r.arr[p, q] == arr[q, p]
        {
          r.arr[i, j] := arr[j, i];
        }
      }
      RectExtensional(r.Contents(), Transposed(Contents(), N(), M()), M(), N());
    }
  }
}
