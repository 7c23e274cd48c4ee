/** DSU (Algorithms/LBG/DSU.cs): union–find over 0..size-1 with union by rank
    and path compression. The parent and rank arrays are specified by value:
    `Root` follows parent links up to the representative, `Compressed` is what
    `Get` leaves in the parent array and `Linked` what `Link` leaves in both. */
module DisjointSets {
  import opened Common

  /** The largest rank (0 for no elements). */
  function MaxRank(rk: seq<int>): (m: int)
    ensures forall i :: 0 <= i < |rk| ==> rk[i] <= m
  {
    if |rk| == 0 then 0
    else if rk[|rk| - 1] > MaxRank(rk[..|rk| - 1]) then rk[|rk| - 1]
    else MaxRank(rk[..|rk| - 1])
  }

  /** Every parent index is in range, ranks are non-negative, and a non-root's
      rank is strictly below its parent's, so parent links are acyclic. */
  ghost predicate Forest(p: seq<int>, rk: seq<int>)
  {
    |p| == |rk| &&
    forall i :: 0 <= i < |p| ==> 0 <= p[i] < |p| && 0 <= rk[i] && (p[i] != i ==> rk[i] < rk[p[i]])
  }

  /** The representative of x: follow parent links until a self-loop. */
  ghost function Root(p: seq<int>, rk: seq<int>, x: int): (r: int)
    requires Forest(p, rk) && 0 <= x < |p|
    ensures 0 <= r < |p| && p[r] == r
    ensures rk[x] <= rk[r]
    ensures p[x] != x ==> rk[x] < rk[r]
    ensures p[x] == x ==> r == x
    decreases MaxRank(rk) - rk[x]
  {
    if p[x] == x then x else Root(p, rk, p[x])
  }

  /** The representative does not depend on which rank function orders the forest. */
  lemma {:induction false} RootIgnoresRank(p: seq<int>, rk1: seq<int>, rk2: seq<int>, x: int)
    requires Forest(p, rk1) && Forest(p, rk2) && 0 <= x < |p|
    ensures Root(p, rk1, x) == Root(p, rk2, x)
    decreases MaxRank(rk1) - rk1[x]
  {
    if p[x] != x {
      RootIgnoresRank(p, rk1, rk2, p[x]);
    }
  }

  /** Repointing x straight at its own root keeps the forest and every root. */
  lemma {:induction false} ShortcutKeepsRoot(p: seq<int>, rk: seq<int>, x: int, y: int)
    requires Forest(p, rk) && 0 <= x < |p| && 0 <= y < |p|
    ensures Forest(p[x := Root(p, rk, x)], rk)
    ensures Root(p[x := Root(p, rk, x)], rk, y) == Root(p, rk, y)
    decreases MaxRank(rk) - rk[y]
  {
    var q := p[x := Root(p, rk, x)];
    assert Forest(q, rk) by {
      forall i | 0 <= i < |q|
        ensures 0 <= q[i] < |q| && 0 <= rk[i] && (q[i] != i ==> rk[i] < rk[q[i]])
      {
      }
    }
    if p[y] == y {
      if y == x {
        assert q == p;
      }
    } else if y == x {
      var r := Root(p, rk, x);
      assert q[r] == r;
    } else {
      ShortcutKeepsRoot(p, rk, x, p[y]);
    }
  }

  /** The parent array after `Get(x)`: every node on x's path points at the root. */
  ghost function Compressed(p: seq<int>, rk: seq<int>, x: int): (q: seq<int>)
    requires Forest(p, rk) && 0 <= x < |p|
    ensures |q| == |p|
    decreases MaxRank(rk) - rk[x]
  {
    if p[x] == x then p
    else
      var q := Compressed(p, rk, p[x]);
      q[x := Root(p, rk, x)]
  }

  /** Path compression keeps the forest and does not change any element's root;
      afterwards x points directly at its root. */
  lemma {:induction false} CompressedKeepsRoots(p: seq<int>, rk: seq<int>, x: int)
    requires Forest(p, rk) && 0 <= x < |p|
    ensures Forest(Compressed(p, rk, x), rk)
    ensures forall y :: 0 <= y < |p| ==> Root(Compressed(p, rk, x), rk, y) == Root(p, rk, y)
    ensures Compressed(p, rk, x)[x] == Root(p, rk, x)
    decreases MaxRank(rk) - rk[x]
  {
    if p[x] != x {
      var q := Compressed(p, rk, p[x]);
      CompressedKeepsRoots(p, rk, p[x]);
      assert Root(q, rk, x) == Root(p, rk, x);
      forall y | 0 <= y < |p|
        ensures Root(q[x := Root(q, rk, x)], rk, y) == Root(p, rk, y)
      {
        ShortcutKeepsRoot(q, rk, x, y);
      }
      ShortcutKeepsRoot(q, rk, x, x);
    }
  }

  /** Making root a a child of root b: elements under a now have root b,
      every other root is unchanged. */
  lemma {:induction false} HangKeepsOtherRoots(p: seq<int>, rk: seq<int>, rk2: seq<int>, a: int, b: int, y: int)
    requires Forest(p, rk) && 0 <= a < |p| && 0 <= b < |p| && p[a] == a && p[b] == b
    requires Forest(p[a := b], rk2) && Forest(p, rk2)
    requires 0 <= y < |p|
    ensures Root(p[a := b], rk2, y) == if Root(p, rk, y) == a then b else Root(p, rk, y)
    decreases MaxRank(rk2) - rk2[y]
  {
    RootIgnoresRank(p, rk, rk2, y);
    if p[y] != y {
      HangKeepsOtherRoots(p, rk, rk2, a, b, p[y]);
    }
  }

  /** Union by rank of two roots a and b: the lower-ranked root goes under
      the other; on equal ranks a goes under b and b's rank grows by one (even
      when a and b are the same element). */
  ghost function Hang(p: seq<int>, rk: seq<int>, a: int, b: int): (r: (seq<int>, seq<int>))
    requires |p| == |rk| && 0 <= a < |p| && 0 <= b < |p|
    ensures |r.0| == |p| && |r.1| == |rk|
  {
    if rk[a] == rk[b] then (p[a := b], rk[b := rk[b] + 1])
    else if rk[a] > rk[b] then (p[b := a], rk)
    else (p[a := b], rk)
  }

  /** The root that a and b share after `Hang`. */
  function Survivor(rk: seq<int>, a: int, b: int): int
    requires 0 <= a < |rk| && 0 <= b < |rk|
  {
    if rk[a] > rk[b] then a else b
  }

  /** Hanging one root under another keeps a forest, merges exactly the two
      sets under the surviving root, and never lowers a rank. */
  lemma HangMerges(p: seq<int>, rk: seq<int>, a: int, b: int)
    requires Forest(p, rk) && 0 <= a < |p| && 0 <= b < |p| && p[a] == a && p[b] == b
    ensures Forest(Hang(p, rk, a, b).0, Hang(p, rk, a, b).1)
    ensures forall z :: 0 <= z < |p| ==>
      Root(Hang(p, rk, a, b).0, Hang(p, rk, a, b).1, z) ==
        if Root(p, rk, z) == a || Root(p, rk, z) == b then Survivor(rk, a, b) else Root(p, rk, z)
    ensures forall i :: 0 <= i < |rk| ==> rk[i] <= Hang(p, rk, a, b).1[i]
  {
    var h := Hang(p, rk, a, b);
    var lo, hi := if rk[a] > rk[b] then b else a, Survivor(rk, a, b);
    assert h.0 == p[lo := hi];
    assert Forest(h.0, h.1) by {
      forall i | 0 <= i < |h.0|
        ensures 0 <= h.0[i] < |h.0| && 0 <= h.1[i] && (h.0[i] != i ==> h.1[i] < h.1[h.0[i]])
      {
      }
    }
    assert Forest(p, h.1) by {
      forall i | 0 <= i < |p|
        ensures 0 <= p[i] < |p| && 0 <= h.1[i] && (p[i] != i ==> h.1[i] < h.1[p[i]])
      {
      }
    }
    forall z | 0 <= z < |p|
      ensures Root(h.0, h.1, z) == if Root(p, rk, z) == a || Root(p, rk, z) == b then hi else Root(p, rk, z)
    {
      HangKeepsOtherRoots(p, rk, h.1, lo, hi, z);
    }
  }

  /** The parent and rank arrays after `Link(x, y)`: find both roots with path
      compression, then hang them together. */
  ghost function Linked(p: seq<int>, rk: seq<int>, x: int, y: int): (r: (seq<int>, seq<int>))
    requires Forest(p, rk) && 0 <= x < |p| && 0 <= y < |p|
    ensures |r.0| == |p| && |r.1| == |rk|
  {
    Hang(Found(p, rk, x, y), rk, Root(p, rk, x), Root(p, rk, y))
  }

  /** The parent array after `Get(x)` and then `Get(y)`: still a forest,
      with every root as before. */
  ghost function Found(p: seq<int>, rk: seq<int>, x: int, y: int): (q: seq<int>)
    requires Forest(p, rk) && 0 <= x < |p| && 0 <= y < |p|
    ensures |q| == |p| && Forest(q, rk)
    ensures forall z :: 0 <= z < |p| ==> Root(q, rk, z) == Root(p, rk, z)
  {
    CompressedKeepsRoots(p, rk, x);
    var p1 := Compressed(p, rk, x);
    CompressedKeepsRoots(p1, rk, y);
    Compressed(p1, rk, y)
  }

  /** What `Link(x, y)` guarantees: the result is again a forest, every element
      previously in x's or y's set now has the same root as x (and so as y),
      every other element keeps its root, ranks never decrease, and the shared
      root is one of the two old roots. */
  lemma LinkedJoins(p: seq<int>, rk: seq<int>, x: int, y: int)
    requires Forest(p, rk) && 0 <= x < |p| && 0 <= y < |p|
    ensures Forest(Linked(p, rk, x, y).0, Linked(p, rk, x, y).1)
    ensures Root(Linked(p, rk, x, y).0, Linked(p, rk, x, y).1, x) ==
            Root(Linked(p, rk, x, y).0, Linked(p, rk, x, y).1, y)
    ensures forall z :: 0 <= z < |p| && (Root(p, rk, z) == Root(p, rk, x) || Root(p, rk, z) == Root(p, rk, y)) ==>
      Root(Linked(p, rk, x, y).0, Linked(p, rk, x, y).1, z) == Root(Linked(p, rk, x, y).0, Linked(p, rk, x, y).1, x)
    ensures forall z :: 0 <= z < |p| && Root(p, rk, z) != Root(p, rk, x) && Root(p, rk, z) != Root(p, rk, y) ==>
      Root(Linked(p, rk, x, y).0, Linked(p, rk, x, y).1, z) == Root(p, rk, z)
    ensures forall i :: 0 <= i < |rk| ==> rk[i] <= Linked(p, rk, x, y).1[i]
    ensures Root(Linked(p, rk, x, y).0, Linked(p, rk, x, y).1, x) in {Root(p, rk, x), Root(p, rk, y)}
  {
    var q := Found(p, rk, x, y);
    var rx, ry := Root(p, rk, x), Root(p, rk, y);
    assert Root(q, rk, x) == rx && Root(q, rk, y) == ry;
    HangMerges(q, rk, rx, ry);
  }

  /** Linking two elements that already share a root changes no element's
      root but still raises that root's rank by one. */
  lemma LinkSameSet(p: seq<int>, rk: seq<int>, x: int, y: int)
    requires Forest(p, rk) && 0 <= x < |p| && 0 <= y < |p|
    requires Root(p, rk, x) == Root(p, rk, y)
    ensures Forest(Linked(p, rk, x, y).0, Linked(p, rk, x, y).1)
    ensures forall z :: 0 <= z < |p| ==> Root(Linked(p, rk, x, y).0, Linked(p, rk, x, y).1, z) == Root(p, rk, z)
    ensures Linked(p, rk, x, y).1 == rk[Root(p, rk, x) := rk[Root(p, rk, x)] + 1]
  {
    var r := Root(p, rk, x);
    var q := Found(p, rk, x, y);
    assert Root(q, rk, x) == r;
    HangSelf(q, rk, r);
  }

  /** Hanging a root under itself only raises its rank. */
  lemma HangSelf(q: seq<int>, rk: seq<int>, r: int)
    requires Forest(q, rk) && 0 <= r < |q| && q[r] == r
    ensures Forest(Hang(q, rk, r, r).0, Hang(q, rk, r, r).1)
    ensures forall z :: 0 <= z < |q| ==> Root(Hang(q, rk, r, r).0, Hang(q, rk, r, r).1, z) == Root(q, rk, z)
    ensures Hang(q, rk, r, r).1 == rk[r := rk[r] + 1]
  {
    var h := Hang(q, rk, r, r);
    HangMerges(q, rk, r, r);
    forall z | 0 <= z < |q|
      ensures Root(h.0, h.1, z) == Root(q, rk, z)
    {
      assert Root(h.0, h.1, z) == if Root(q, rk, z) == r then r else Root(q, rk, z);
    }
  }

  /** The representatives: the elements that are their own parent. */
  ghost function Roots(p: seq<int>): set<int>
  {
    set i | 0 <= i < |p| && p[i] == i
  }

  /** Initially every element is its own root: n sets. */
  lemma SingletonsCount(p: seq<int>)
    requires forall i :: 0 <= i < |p| ==> p[i] == i
    ensures |Roots(p)| == |p|
  {
    assert Roots(p) == Range(|p|);
  }

  /** When every element shares one root there is exactly one set. */
  lemma OneSetCount(p: seq<int>, rk: seq<int>)
    requires Forest(p, rk) && |p| > 0
    requires forall i :: 0 <= i < |p| ==> Root(p, rk, i) == Root(p, rk, 0)
    ensures |Roots(p)| == 1
  {
    var r := Root(p, rk, 0);
    forall i | i in Roots(p)
      ensures i == r
    {
      assert Root(p, rk, i) == i;
    }
    assert Roots(p) == {r};
  }

  /** Path compression creates and removes no root. */
  lemma {:induction false} CompressedKeepsRootSet(p: seq<int>, rk: seq<int>, x: int)
    requires Forest(p, rk) && 0 <= x < |p|
    ensures Roots(Compressed(p, rk, x)) == Roots(p)
    decreases MaxRank(rk) - rk[x]
  {
    if p[x] != x {
      CompressedKeepsRootSet(p, rk, p[x]);
      var q := Compressed(p, rk, p[x]);
      var r := Root(p, rk, x);
      assert x !in Roots(q) && r != x;
      assert Roots(q[x := r]) == Roots(q);
    }
  }

  /** `Link` on two different sets leaves one set fewer; on the same set the
      roots are unchanged. */
  lemma LinkedRootCount(p: seq<int>, rk: seq<int>, x: int, y: int)
    requires Forest(p, rk) && 0 <= x < |p| && 0 <= y < |p|
    ensures Root(p, rk, x) != Root(p, rk, y) ==> |Roots(Linked(p, rk, x, y).0)| == |Roots(p)| - 1
    ensures Root(p, rk, x) == Root(p, rk, y) ==> Roots(Linked(p, rk, x, y).0) == Roots(p)
  {
    CompressedKeepsRoots(p, rk, x);
    CompressedKeepsRootSet(p, rk, x);
    var p1 := Compressed(p, rk, x);
    CompressedKeepsRoots(p1, rk, y);
    CompressedKeepsRootSet(p1, rk, y);
    var p2 := Compressed(p1, rk, y);
    assert p2 == Found(p, rk, x, y);
    var a, b := Root(p, rk, x), Root(p, rk, y);
    assert b == Root(p1, rk, y);
    assert a in Roots(p2) && b in Roots(p2);
    if a != b {
      var lo, hi := if rk[a] > rk[b] then b else a, if rk[a] > rk[b] then a else b;
      assert Linked(p, rk, x, y).0 == p2[lo := hi];
      assert Roots(p2[lo := hi]) == Roots(p2) - {lo};
    } else {
      assert Linked(p, rk, x, y).0 == p2;
    }
  }

  /** `DSU`: the parent and rank arrays of C#. */
  class DSU {
    const parent: array<int>
    const rank: array<int>

    ghost predicate Valid()
      reads this, parent, rank
    {
      parent != rank && Forest(parent[..], rank[..])
    }

    /** `new DSU(size)`: every element its own root, every rank 0. */
    constructor (size: nat)
      ensures Valid()
      ensures parent.Length == size && rank.Length == size
      ensures forall i :: 0 <= i < size ==> parent[i] == i && rank[i] == 0
      ensures fresh(parent) && fresh(rank)
    {
      parent := new int[size](i => i);
      rank := new int[size](_ => 0);
    }

    /** `Get(x)`: the root of x, repointing every node on the way at it. */
    method Get(x: int) returns (r: int)
      requires Valid() && 0 <= x < parent.Length
      modifies parent
      ensures Valid()
      ensures r == Root(old(parent[..]), rank[..], x)
      ensures parent[..] == Compressed(old(parent[..]), rank[..], x)
      decreases MaxRank(rank[..]) - rank[x]
    {
      if parent[x] == x {
        return x;
      }
      ghost var p0 := parent[..];
      r := Get(parent[x]);
      CompressedKeepsRoots(p0, rank[..], parent[x]);
      CompressedKeepsRoots(p0, rank[..], x);
      parent[x] := r;
    }

    /** `Link(x, y)`: union by rank of the sets of x and y. */
    method Link(x: int, y: int)
      requires Valid() && 0 <= x < parent.Length && 0 <= y < parent.Length
      modifies parent, rank
      ensures Valid()
      ensures (parent[..], rank[..]) == Linked(old(parent[..]), old(rank[..]), x, y)
    {
      ghost var p0, rk0 := parent[..], rank[..];
      var rx := Get(x);
      CompressedKeepsRoots(p0, rk0, x);
      var ry := Get(y);
      assert rank[..] == rk0 && ry == Root(p0, rk0, y);
      assert parent[..] == Found(p0, rk0, x, y);
      HangRoots(rx, ry);
      LinkedJoins(p0, rk0, x, y);
    }

    /** The union-by-rank step of `Link` on two roots rx and ry. */
    method HangRoots(rx: int, ry: int)
      requires parent != rank && parent.Length == rank.Length
      requires 0 <= rx < parent.Length && 0 <= ry < parent.Length
      modifies parent, rank
      ensures (parent[..], rank[..]) == Hang(old(parent[..]), old(rank[..]), rx, ry)
    {
      if rank[rx] == rank[ry] {
        parent[rx] := ry;
        rank[ry] := rank[ry] + 1;
      } else if rank[rx] > rank[ry] {
        parent[ry] := rx;
      } else {
        parent[rx] := ry;
      }
    }
  }
}
