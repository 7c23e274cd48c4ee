/** Two-dimensional C# arrays (`T[,]`) and their values as rows of cells. */
module Grids {

  /** g has h rows of w cells each. */
  ghost predicate IsRect<T>(g: seq<seq<T>>, h: nat, w: nat)
  {
    |g| == h && forall i :: 0 <= i < h ==> |g[i]| == w
  }

  /** The value held by a two-dimensional array, row by row. */
  function Cells<T>(a: array2<T>): (g: seq<seq<T>>)
    reads a
    ensures IsRect(g, a.Length0, a.Length1)
    ensures forall i, j :: 0 <= i < a.Length0 && 0 <= j < a.Length1 ==> g[i][j] == a[i, j]
  {
    seq(a.Length0, i requires 0 <= i < a.Length0 reads a =>
      seq(a.Length1, j requires 0 <= j < a.Length1 reads a => a[i, j]))
  }

  /** Two grids of the same shape that agree cell by cell are the same value. */
  lemma {:induction false} RectExtensional<T>(g: seq<seq<T>>, k: seq<seq<T>>, h: nat, w: nat)
    requires IsRect(g, h, w) && IsRect(k, h, w)
    requires forall i, j :: 0 <= i < h && 0 <= j < w ==> g[i][j] == k[i][j]
    ensures g == k
  {
    forall i | 0 <= i < h
      ensures g[i] == k[i]
    {
      assert forall j :: 0 <= j < w ==> g[i][j] == k[i][j];
    }
  }
}
