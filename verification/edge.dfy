/** Edge (Algorithms/LBG/Edge.cs): a weighted edge between two palette
    candidates, ordered by length only; and `List<Edge>.Sort()` as the
    specification of a sorted permutation. */
module Edges {
  import opened Common

  /** `new Edge(u, v, length)` stores its three fields unchanged. */
  datatype Edge = Edge(u: int32, v: int32, length: int32)

  /** `CompareTo(other)`: `Length.CompareTo(other.Length)`, which is -1, 0 or 1. */
  function CompareTo(a: Edge, b: Edge): (r: int)
    ensures r == -1 || r == 0 || r == 1
    ensures r < 0 <==> a.length < b.length
    ensures r == 0 <==> a.length == b.length
  {
    if a.length < b.length then -1 else if a.length == b.length then 0 else 1
  }

  /** The comparison is a total preorder that ignores the end points. */
  lemma CompareToIsTotalPreorder(a: Edge, b: Edge, c: Edge)
    ensures CompareTo(a, a) == 0
    ensures CompareTo(a, b) == -CompareTo(b, a)
    ensures CompareTo(a, b) <= 0 && CompareTo(b, c) <= 0 ==> CompareTo(a, c) <= 0
    ensures CompareTo(a, b) <= 0 || CompareTo(b, a) <= 0
    ensures CompareTo(a, Edge(b.u, b.v, a.length)) == 0
  {
  }

  /** Non-decreasing by `CompareTo`. */
  ghost predicate Sorted(s: seq<Edge>)
  {
    forall i, j :: 0 <= i < j < |s| ==> s[i].length <= s[j].length
  }

  /** Insert e before the first longer edge of a sorted list. */
  function Insert(e: Edge, s: seq<Edge>): (r: seq<Edge>)
    requires Sorted(s)
    ensures Sorted(r)
    ensures multiset(r) == multiset(s) + multiset{e}
    ensures |r| == |s| + 1
  {
    if |s| == 0 then [e]
    else if e.length <= s[0].length then [e] + s
    else
      var t := Insert(e, s[1..]);
      assert s == [s[0]] + s[1..];
      assert forall k :: 0 <= k < |t| ==> s[0].length <= t[k].length by {
        forall k | 0 <= k < |t|
          ensures s[0].length <= t[k].length
        {
          assert t[k] in multiset(t);
          assert t[k] == e || t[k] in multiset(s[1..]);
        }
      }
      [s[0]] + t
  }

  /** `List<Edge>.Sort()`: a permutation of the edges, non-decreasing in
      length. .NET's sort is unstable, so which of several equal-length
      edges comes first is not part of this contract. */
  function SortByLength(s: seq<Edge>): (r: seq<Edge>)
    ensures Sorted(r)
    ensures multiset(r) == multiset(s)
    ensures |r| == |s|
  {
    if |s| == 0 then []
    else
      assert s == s[..|s| - 1] + [s[|s| - 1]];
      Insert(s[|s| - 1], SortByLength(s[..|s| - 1]))
  }
}
