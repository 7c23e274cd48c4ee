/** Vector<T> (Structures/Vector.cs): a fixed-length sequence of elements with
    value equality. The algorithms also update one component and map every
    component (`v[k] = ...`, `v.Convert(f)`), so those are modelled too. */
module Vectors {
  import opened Common

  datatype Vector<+T> = Vector(elements: seq<T>) {

    /** The `Length` property. */
    function Length(): nat { |elements| }

    /** The indexer, which only reads; an index outside the vector throws. */
    function Index(i: int): (r: Result<T>)
      ensures r.Ok? <==> 0 <= i < Length()
      ensures r.Ok? ==> r.value == elements[i]
      ensures r.Err? ==> r.error == IndexOutOfRange
    {
      if 0 <= i < |elements| then Ok(elements[i]) else Err(IndexOutOfRange)
    }

    /** The indexer at a position known to be in range. */
    function At(i: nat): T
      requires i < Length()
    {
      elements[i]
    }

    /** `v[k] = x` as the algorithm files use it: only component k changes. */
    function Update(k: nat, x: T): (r: Vector<T>)
      requires k < Length()
      ensures r.Length() == Length()
      ensures r.At(k) == x
      ensures forall i :: 0 <= i < Length() && i != k ==> r.At(i) == At(i)
    {
      Vector(elements[k := x])
    }

    /** `v.Convert(f)`: apply f to every component, keeping length and order. */
    function Convert<U>(f: T -> U): (r: Vector<U>)
      ensures r.Length() == Length()
      ensures forall i :: 0 <= i < Length() ==> r.At(i) == f(At(i))
    {
      Vector(seq(|elements|, i requires 0 <= i < |elements| => f(elements[i])))
    }
  }

  /** A colour: a Vector<byte> of three components (B, G, R as read from a
      Bgr32 buffer, or Y, Cb, Cr after the colour transform). */
  type Color = v: Vector<byte> | |v.elements| == 3 witness Vector([0, 0, 0])

  /** The colour with components a, b, c, in that order. */
  function Rgb(a: byte, b: byte, c: byte): (r: Color)
    ensures r.At(0) == a && r.At(1) == b && r.At(2) == c
  {
    Vector([a, b, c])
  }

  /** A Vector<int> of three components: one coefficient per channel. */
  type Triple = v: Vector<int32> | |v.elements| == 3 witness Vector([0, 0, 0])

  /** `new Vector<T>(size)`: `size` default elements. */
  function Sized<T>(size: nat, default: T): (r: Vector<T>)
    ensures r.Length() == size
    ensures forall i :: 0 <= i < size ==> r.At(i) == default
  {
    Vector(seq(size, _ => default))
  }

  /** `new Vector<T>(IEnumerable<T>)`: a snapshot of the source's elements, in order. */
  function FromSeq<T>(s: seq<T>): (r: Vector<T>)
    ensures r.Length() == |s|
    ensures forall i :: 0 <= i < |s| ==> r.At(i) == s[i]
  {
    Vector(s)
  }

  /** The argument of `Equals(object)`: another vector, or any other object. */
  datatype Obj<T> = VectorObj(v: Vector<T>) | OtherObj

  /** What `Equals` decides: same length and pairwise equal elements. */
  ghost predicate SameElements<T>(a: Vector<T>, b: Vector<T>)
  {
    a.Length() == b.Length() && forall i :: 0 <= i < a.Length() ==> a.At(i) == b.At(i)
  }

  /** `Equals(object)`: false for a non-vector or a different length, otherwise an
      element-by-element comparison that returns at the first difference. */
  method Equals<T(==)>(self: Vector<T>, obj: Obj<T>) returns (r: bool)
    ensures r <==> obj.VectorObj? && self == obj.v
  {
    if !obj.VectorObj? {
      return false;
    }
    var other := obj.v;
    if self.Length() != other.Length() {
      return false;
    }
    var i := 0;
    while i < self.Length()
      invariant 0 <= i <= self.Length()
      invariant forall k :: 0 <= k < i ==> self.At(k) == other.At(k)
    {
      if self.At(i) != other.At(i) {
        return false;
      }
      i := i + 1;
    }
    EqualityIsElementwise(self, other);
    return true;
  }

  /** Element-wise equality is exactly value equality of vectors. */
  lemma EqualityIsElementwise<T>(a: Vector<T>, b: Vector<T>)
    ensures SameElements(a, b) <==> a == b
  {
    if SameElements(a, b) {
      assert forall i :: 0 <= i < |a.elements| ==> a.elements[i] == a.At(i);
      assert a.elements == b.elements;
    }
  }

  /** `Equals` is reflexive and symmetric. */
  lemma EqualsReflexiveSymmetric<T>(a: Vector<T>, b: Vector<T>)
    ensures SameElements(a, a)
    ensures SameElements(a, b) ==> SameElements(b, a)
  {
  }

  /** `string.Join(", ", elements)`, given how each element prints. */
  function Join(parts: seq<string>): (r: string)
    ensures |parts| == 0 ==> r == ""
    ensures |parts| == 1 ==> r == parts[0]
  {
    if |parts| == 0 then ""
    else if |parts| == 1 then parts[0]
    else Join(parts[..|parts| - 1]) + ", " + parts[|parts| - 1]
  }

  /** `ToString()`: the elements' texts joined with ", ". */
  function ToString<T>(v: Vector<T>, show: T -> string): string
  {
    Join(seq(v.Length(), i requires 0 <= i < v.Length() => show(v.At(i))))
  }

  /** Joining one more part appends the separator and that part. */
  lemma {:induction false} JoinSnoc(parts: seq<string>, p: string)
    requires |parts| > 0
    ensures Join(parts + [p]) == Join(parts) + ", " + p
    ensures |Join(parts + [p])| == |Join(parts)| + 2 + |p|
  {
    assert (parts + [p])[..|parts|] == parts;
  }
}
