/** LbgAlgorithm (Algorithms/LBG/LbgAlgorithm.cs): palette reduction by the
    Linde–Buzo–Gray iteration, started from a palette that Kruskal's algorithm
    builds over bit-quantized colours. */
module Lbg {
  import opened Common
  import opened Vectors
  import Q = Quantization
  import opened Edges
  import opened DisjointSets

  /** `iterationsCount`: the number of assign-and-update rounds. */
  const IterationsCount: nat := 5

  function Square(x: int): nat { x * x }

  /** The squared distance over the first k components. */
  function PartialDistance(a: Color, b: Color, k: nat): nat
    requires k <= 3
  {
    if k == 0 then 0 else PartialDistance(a, b, k - 1) + Square(a.At(k - 1) - b.At(k - 1))
  }

  /** The squared Euclidean distance between two colours. */
  function SquaredDistance(a: Color, b: Color): nat
  {
    PartialDistance(a, b, 3)
  }

  /** It is symmetric, at most 3·255², and zero exactly for equal colours. */
  lemma DistanceIsMetricLike(a: Color, b: Color)
    ensures SquaredDistance(a, b) == SquaredDistance(b, a)
    ensures SquaredDistance(a, b) <= 3 * 255 * 255
    ensures SquaredDistance(a, b) == 0 <==> a == b
  {
    DistanceUnfolded(a, b);
    DistanceUnfolded(b, a);
    forall k | 0 <= k < 3
      ensures Square(a.At(k) - b.At(k)) == Square(b.At(k) - a.At(k))
      ensures Square(a.At(k) - b.At(k)) <= 255 * 255
      ensures Square(a.At(k) - b.At(k)) == 0 <==> a.At(k) == b.At(k)
    {
      SquareFacts(a.At(k) - b.At(k));
    }
    if SquaredDistance(a, b) == 0 {
      assert a.elements == [a.At(0), a.At(1), a.At(2)];
      assert b.elements == [b.At(0), b.At(1), b.At(2)];
    }
  }

  lemma DistanceUnfolded(a: Color, b: Color)
    ensures SquaredDistance(a, b) ==
      Square(a.At(0) - b.At(0)) + Square(a.At(1) - b.At(1)) + Square(a.At(2) - b.At(2))
  {
    assert PartialDistance(a, b, 1) == Square(a.At(0) - b.At(0));
    assert PartialDistance(a, b, 2) == PartialDistance(a, b, 1) + Square(a.At(1) - b.At(1));
  }

  lemma SquareFacts(d: int)
    requires -255 <= d <= 255
    ensures Square(d) == Square(-d)
    ensures Square(d) <= 255 * 255
    ensures Square(d) == 0 <==> d == 0
  {
    var e := if d < 0 then -d else d;
    assert Square(d) == e * e == Square(-d);
    ProductFacts(e);
  }

  lemma ProductFacts(e: int)
    requires 0 <= e <= 255
    ensures e * e <= 255 * 255
    ensures e * e == 0 <==> e == 0
  {
    MulLeft(e, 255, e);
    MulLeft(e, 255, 255);
    if e != 0 {
      MulLeft(1, e, e);
    }
  }

  /** `Distance(a, b)`: the component loop summing squared differences. */
  method Distance(a: Color, b: Color) returns (d: int)
    ensures d == SquaredDistance(a, b)
  {
    d := 0;
    for i := 0 to a.Length()
      invariant d == PartialDistance(a, b, i)
    {
      d := d + (a.At(i) - b.At(i)) * (a.At(i) - b.At(i));
    }
  }

  /** j is the first index of minimal distance from c. */
  ghost predicate IsNearest(c: Color, palette: seq<Color>, j: int)
  {
    0 <= j < |palette| &&
    (forall k :: 0 <= k < |palette| ==> SquaredDistance(c, palette[j]) <= SquaredDistance(c, palette[k])) &&
    (forall k :: 0 <= k < j ==> SquaredDistance(c, palette[j]) < SquaredDistance(c, palette[k]))
  }

  /** The site a colour is assigned to: scanning left to right and replacing
      the best only on a strictly smaller distance. */
  function Nearest(c: Color, palette: seq<Color>): (j: nat)
    requires |palette| > 0
    ensures IsNearest(c, palette, j)
  {
    if |palette| == 1 then 0
    else
      var j := Nearest(c, palette[..|palette| - 1]);
      if SquaredDistance(c, palette[|palette| - 1]) < SquaredDistance(c, palette[j]) then |palette| - 1 else j
  }

  /** There is only one first nearest site. */
  lemma NearestIsUnique(c: Color, palette: seq<Color>, j: int)
    requires IsNearest(c, palette, j)
    ensures j == Nearest(c, palette)
  {
  }

  /** The inner loop of `Build` and `EncodeByPalette`: start from site -1 at
      distance Int32.MaxValue and keep the first strictly closer site. */
  method NearestSite(color: Color, palette: seq<Color>) returns (best: int)
    ensures |palette| == 0 ==> best == -1
    ensures |palette| > 0 ==> best == Nearest(color, palette)
  {
    best := -1;
    var bestDistance := INT32_MAX;
    for j := 0 to |palette|
      invariant j == 0 ==> best == -1 && bestDistance == INT32_MAX
      invariant j > 0 ==> 0 <= best < j
      invariant j > 0 ==> best == Nearest(color, palette[..j])
      invariant j > 0 ==> bestDistance == SquaredDistance(color, palette[best])
    {
      var distance := Distance(color, palette[j]);
      DistanceIsMetricLike(color, palette[j]);
      if j > 0 {
        NearestSnoc(color, palette, j);
      }
      if distance < bestDistance {
        best := j;
        bestDistance := distance;
      }
    }
    assert palette[..|palette|] == palette;
  }

  /** Extending the palette prefix by entry j moves the nearest site to j
      exactly when j is strictly closer. */
  lemma NearestSnoc(c: Color, palette: seq<Color>, j: nat)
    requires 0 < j < |palette|
    ensures Nearest(c, palette[..j + 1]) ==
      var previous := Nearest(c, palette[..j]);
      if SquaredDistance(c, palette[j]) < SquaredDistance(c, palette[previous]) then j else previous
  {
    var prefix := palette[..j + 1];
    assert prefix[..j] == palette[..j] && prefix[j] == palette[j];
  }

  /** `EncodeByPalette(colors, palette)`: every colour replaced by its nearest
      palette entry. With an empty palette the first colour reads
      `palette[-1]` and throws. */
  method EncodeByPalette(colors: seq<Color>, palette: seq<Color>) returns (r: Result<seq<Color>>)
    ensures r.Ok? <==> |palette| > 0 || |colors| == 0
    ensures r.Err? ==> r.error == IndexOutOfRange
    ensures r.Ok? ==> |r.value| == |colors|
    ensures r.Ok? ==> forall i :: 0 <= i < |colors| ==> 0 < |palette| && r.value[i] == palette[Nearest(colors[i], palette)]
  {
    var result := new Color[|colors|];
    for i := 0 to |colors|
      invariant |palette| > 0 || i == 0
      invariant forall k :: 0 <= k < i ==> 0 < |palette| && result[k] == palette[Nearest(colors[k], palette)]
    {
      var best := NearestSite(colors[i], palette);
      if best < 0 {
        return Err(IndexOutOfRange);
      }
      result[i] := palette[best];
    }
    r := Ok(result[..]);
  }

  /** The sum of component k over a cluster, in list order. */
  function ComponentSum(cluster: seq<Color>, k: nat): nat
    requires k < 3
  {
    if |cluster| == 0 then 0 else ComponentSum(cluster[..|cluster| - 1], k) + cluster[|cluster| - 1].At(k)
  }

  /** If every member's component k lies in [lo, hi], the sum lies in
      [n·lo, n·hi]. */
  lemma {:induction false} ComponentSumBounds(cluster: seq<Color>, k: nat, lo: int, hi: int)
    requires k < 3 && 0 <= lo
    requires forall i :: 0 <= i < |cluster| ==> lo <= cluster[i].At(k) <= hi
    ensures |cluster| * lo <= ComponentSum(cluster, k) <= |cluster| * hi
  {
    if |cluster| > 0 {
      var n := |cluster|;
      var init := cluster[..n - 1];
      assert forall i :: 0 <= i < |init| ==> init[i] == cluster[i];
      ComponentSumBounds(init, k, lo, hi);
      assert ComponentSum(cluster, k) == ComponentSum(init, k) + cluster[n - 1].At(k);
      MulSucc(n, lo);
      MulSucc(n, hi);
    }
  }

  lemma MulSucc(n: int, x: int)
    ensures (n - 1) * x + x == n * x
  {
  }

  lemma DivBetween(s: int, n: int, lo: int, hi: int)
    requires n > 0 && 0 <= lo && n * lo <= s <= n * hi
    ensures lo <= s / n <= hi
  {
    var q, r := s / n, s % n;
    assert s == q * n + r && 0 <= r < n;
    if q < lo {
      assert 0 <= q;
      MulLeft(q, lo - 1, n);
    }
    if q > hi {
      MulLeft(hi + 1, q, n);
    }
  }

  /** The largest cluster whose component sums always fit in an int:
      Int32.MaxValue / 255. */
  const MaxExactCluster: nat := INT32_MAX / 255

  /** The mean of component k as `MeanVector` computes it: the sum is a
      32-bit int that wraps, the division truncates toward zero, and the byte
      cast keeps the low eight bits. */
  function ComponentMean(cluster: seq<Color>, k: nat): (m: byte)
    requires k < 3 && |cluster| > 0
  {
    WrapByte(TruncDiv(Wrap32(ComponentSum(cluster, k)), |cluster|))
  }

  /** For clusters of at most MaxExactCluster colours nothing wraps: each
      mean component lies between that component's smallest and largest
      value in the cluster, so a cluster of one repeated colour has that
      colour as its mean. */
  lemma MeanBetween(cluster: seq<Color>, k: nat, lo: int, hi: int)
    requires k < 3 && 0 < |cluster| <= MaxExactCluster && 0 <= lo
    requires forall i :: 0 <= i < |cluster| ==> lo <= cluster[i].At(k) <= hi
    ensures lo <= ComponentMean(cluster, k) <= hi
  {
    var n, sum := |cluster|, ComponentSum(cluster, k);
    SumFits(cluster, k);
    assert Wrap32(sum) == sum;
    ComponentSumBounds(cluster, k, lo, hi);
    DivBetween(sum, n, lo, hi);
    ComponentSumBounds(cluster, k, 0, 255);
    DivBetween(sum, n, 0, 255);
    assert TruncDiv(sum, n) == sum / n;
  }

  /** Up to MaxExactCluster colours, a component sum fits in an int. */
  lemma SumFits(cluster: seq<Color>, k: nat)
    requires k < 3 && |cluster| <= MaxExactCluster
    ensures 0 <= ComponentSum(cluster, k) <= INT32_MAX
  {
    ComponentSumBounds(cluster, k, 0, 255);
    MulLeft(|cluster|, MaxExactCluster, 255);
    assert MaxExactCluster * 255 == 2147483520;
  }

  /** The sum of n copies of one colour. */
  lemma {:induction false} RepeatedSum(c: Color, n: nat, k: nat)
    requires k < 3
    ensures ComponentSum(seq(n, _ => c), k) == n * c.At(k)
  {
    if n > 0 {
      assert seq(n, _ => c)[..n - 1] == seq(n - 1, _ => c);
      RepeatedSum(c, n - 1, k);
    }
  }

  /** Past MaxExactCluster the sum wraps: MaxExactCluster + 1 white
      colours average to 2, not 255. */
  lemma MeanWrapsPastLimit()
    ensures ComponentMean(seq(MaxExactCluster + 1, _ => Rgb(255, 255, 255)), 0) == 2
  {
    var n := MaxExactCluster + 1;
    assert n == 8421505;
    RepeatedSum(Rgb(255, 255, 255), n, 0);
    WhiteSumWraps();
  }

  /** The arithmetic of that example: 8421505 · 255 wraps to a negative int,
      whose truncated quotient -254 casts to the byte 2. */
  lemma WhiteSumWraps()
    ensures WrapByte(TruncDiv(Wrap32(8421505 * 255), 8421505)) == 2
  {
    assert 8421505 * 255 == 2147483775;
    assert Wrap32(2147483775) == -2147483521;
    assert 2147483521 / 8421505 == 254;
    assert TruncDiv(-2147483521, 8421505) == -254;
  }

  /** The mean colour of a non-empty cluster. */
  function Mean(cluster: seq<Color>): (m: Color)
    requires |cluster| > 0
    ensures forall k :: 0 <= k < 3 ==> m.At(k) == ComponentMean(cluster, k)
  {
    Rgb(ComponentMean(cluster, 0), ComponentMean(cluster, 1), ComponentMean(cluster, 2))
  }

  /** Adding to a wrapped sum wraps like adding to the exact sum. */
  lemma WrapAdd(a: int, b: int)
    ensures Wrap32(Wrap32(a) + b) == Wrap32(a + b)
  {
    var m := 0x1_0000_0000;
    var w := Wrap32(a);
    var q := (w - a) / m;
    assert w - a == q * m;
    assert (w + b) == (a + b) + q * m;
    assert (w + b) % m == (a + b) % m;
  }

  /** `MeanVector(cluster)`: sum each component over the cluster in an int,
      then divide by the count (truncating) and cast to byte. Its callers
      only pass non-empty clusters. */
  method MeanVector(cluster: seq<Color>) returns (r: Color)
    requires |cluster| > 0
    ensures r == Mean(cluster)
  {
    var sum := new int[3](_ => 0);
    for idx := 0 to |cluster|
      invariant forall k :: 0 <= k < 3 ==> sum[k] == Wrap32(ComponentSum(cluster[..idx], k))
    {
      var vector := cluster[idx];
      assert cluster[..idx + 1][..idx] == cluster[..idx];
      for i := 0 to 3
        invariant forall k :: 0 <= k < i ==> sum[k] == Wrap32(ComponentSum(cluster[..idx + 1], k))
        invariant forall k :: i <= k < 3 ==> sum[k] == Wrap32(ComponentSum(cluster[..idx], k))
      {
        WrapAdd(ComponentSum(cluster[..idx], i), vector.At(i));
        sum[i] := Wrap32(sum[i] + vector.At(i));
      }
    }
    assert cluster[..|cluster|] == cluster;
    r := Rgb(WrapByte(TruncDiv(sum[0], |cluster|)), WrapByte(TruncDiv(sum[1], |cluster|)), WrapByte(TruncDiv(sum[2], |cluster|)));
    assert r.elements == Mean(cluster).elements;
  }

  /** The colours assigned to site s, in their original order. */
  function SiteOf(colors: seq<Color>, palette: seq<Color>, s: nat): (r: seq<Color>)
    requires |palette| > 0
    ensures |r| <= |colors|
  {
    if |colors| == 0 then []
    else
      var c := colors[|colors| - 1];
      SiteOf(colors[..|colors| - 1], palette, s) + (if Nearest(c, palette) == s then [c] else [])
  }

  /** The sites partition the colours: each colour is in exactly the site of its
      nearest palette entry. */
  lemma {:induction false} SitesPartition(colors: seq<Color>, palette: seq<Color>, s: nat)
    requires |palette| > 0
    ensures forall c :: c in SiteOf(colors, palette, s) ==> c in colors && Nearest(c, palette) == s
    ensures forall i :: 0 <= i < |colors| && Nearest(colors[i], palette) == s ==> colors[i] in SiteOf(colors, palette, s)
  {
    if |colors| > 0 {
      var init := colors[..|colors| - 1];
      SitesPartition(init, palette, s);
      assert forall c :: c in init ==> c in colors;
      forall i | 0 <= i < |colors| && Nearest(colors[i], palette) == s
        ensures colors[i] in SiteOf(colors, palette, s)
      {
        if i < |colors| - 1 {
          assert colors[i] == init[i];
        }
      }
    }
  }

  /** One assignment pass of `Build`: clear the sites, then add every colour
      to the site of its nearest palette entry. */
  method AssignToSites(colors: seq<Color>, palette: seq<Color>) returns (sites: seq<seq<Color>>)
    requires |palette| > 0 || |colors| == 0
    ensures |sites| == |palette|
    ensures forall s :: 0 <= s < |palette| ==> sites[s] == SiteOf(colors, palette, s)
  {
    sites := seq(|palette|, _ => []);
    for i := 0 to |colors|
      invariant |sites| == |palette|
      invariant forall s :: 0 <= s < |palette| ==> sites[s] == SiteOf(colors[..i], palette, s)
    {
      var best := NearestSite(colors[i], palette);
      assert colors[..i + 1][..i] == colors[..i];
      sites := sites[best := sites[best] + [colors[i]]];
    }
    assert colors[..|colors|] == colors;
  }

  /** One update pass of `Build`: a site that received colours moves to their
      mean; an empty site keeps its palette entry. */
  method UpdatePalette(palette: seq<Color>, sites: seq<seq<Color>>) returns (next: seq<Color>)
    requires |sites| == |palette|
    ensures |next| == |palette|
    ensures forall i :: 0 <= i < |palette| ==> next[i] == if |sites[i]| > 0 then Mean(sites[i]) else palette[i]
  {
    next := palette;
    for i := 0 to |palette|
      invariant |next| == |palette|
      invariant forall k :: 0 <= k < i ==> next[k] == if |sites[k]| > 0 then Mean(sites[k]) else palette[k]
      invariant forall k :: i <= k < |palette| ==> next[k] == palette[k]
    {
      if |sites[i]| > 0 {
        var m := MeanVector(sites[i]);
        next := next[i := m];
      }
    }
  }

  /** The number of unordered pairs of n elements. */
  function Pairs(n: nat): nat
  {
    if n == 0 then 0 else Pairs(n - 1) + (n - 1)
  }

  lemma {:induction false} PairsFormula(n: nat)
    ensures 2 * Pairs(n) == n * (n - 1)
  {
    if n > 0 {
      PairsFormula(n - 1);
      assert n * (n - 1) == (n - 1) * (n - 2) + 2 * (n - 1);
    }
  }

  /** Some edge joins a to b. */
  ghost predicate HasEdge(edges: seq<Edge>, a: int, b: int)
  {
    exists k :: 0 <= k < |edges| && edges[k].u == a && edges[k].v == b
  }

  /** Appending an edge keeps every joined pair and joins its own ends. */
  lemma HasEdgeAppend(edges: seq<Edge>, e: Edge)
    ensures forall a, b :: HasEdge(edges, a, b) ==> HasEdge(edges + [e], a, b)
    ensures HasEdge(edges + [e], e.u, e.v)
  {
    forall a, b | HasEdge(edges, a, b)
      ensures HasEdge(edges + [e], a, b)
    {
      var k :| 0 <= k < |edges| && edges[k].u == a && edges[k].v == b;
      assert (edges + [e])[k] == edges[k];
    }
    assert (edges + [e])[|edges|] == e;
  }

  /** The edges (i, 0), ..., (i, j - 1), weighted by squared distance. */
  function Row(points: seq<Color>, i: nat, j: nat): (es: seq<Edge>)
    requires j <= i < |points| <= INT32_MAX
    ensures |es| == j
    ensures forall k :: 0 <= k < j ==>
      es[k].u == i && es[k].v == k && es[k].length == SquaredDistance(points[i], points[k])
  {
    if j == 0 then []
    else
      DistanceIsMetricLike(points[i], points[j - 1]);
      Row(points, i, j - 1) + [Edge(i, j - 1, SquaredDistance(points[i], points[j - 1]))]
  }

  /** Rows 0, ..., i - 1 one after another. */
  function Rows(points: seq<Color>, i: nat): (es: seq<Edge>)
    requires i <= |points| <= INT32_MAX
    ensures |es| == Pairs(i)
    ensures forall k :: 0 <= k < |es| ==>
      0 <= es[k].v < es[k].u < i && es[k].length == SquaredDistance(points[es[k].u], points[es[k].v])
  {
    if i == 0 then [] else Rows(points, i - 1) + Row(points, i - 1, i - 1)
  }

  /** The first i rows join every pair below i. */
  lemma {:induction false} RowsJoinAll(points: seq<Color>, i: nat)
    requires i <= |points| <= INT32_MAX
    ensures forall a, b :: 0 <= b < a < i ==> HasEdge(Rows(points, i), a, b)
  {
    if i > 0 {
      RowsJoinAll(points, i - 1);
      var prev, row := Rows(points, i - 1), Row(points, i - 1, i - 1);
      HasEdgeConcat(prev, row);
      var top := i - 1;
      forall b | 0 <= b < top
        ensures HasEdge(row, top, b)
      {
        assert row[b].u == top && row[b].v == b;
      }
    }
  }

  /** Concatenation keeps the pairs each part joins. */
  lemma HasEdgeConcat(xs: seq<Edge>, ys: seq<Edge>)
    ensures forall a, b :: HasEdge(xs, a, b) ==> HasEdge(xs + ys, a, b)
    ensures forall a, b :: HasEdge(ys, a, b) ==> HasEdge(xs + ys, a, b)
  {
    forall a, b | HasEdge(xs, a, b)
      ensures HasEdge(xs + ys, a, b)
    {
      var k :| 0 <= k < |xs| && xs[k].u == a && xs[k].v == b;
      assert (xs + ys)[k] == xs[k];
    }
    forall a, b | HasEdge(ys, a, b)
      ensures HasEdge(xs + ys, a, b)
    {
      var k :| 0 <= k < |ys| && ys[k].u == a && ys[k].v == b;
      assert (xs + ys)[|xs| + k] == ys[k];
    }
  }

  /** The edge list `SolveByKruskal` builds, in the order it builds it. */
  function PairEdges(points: seq<Color>): (es: seq<Edge>)
    requires |points| <= INT32_MAX
    ensures EdgesIn(es, |points|)
  {
    Rows(points, |points|)
  }

  /** The edge list of `SolveByKruskal`: one edge (i, j) for every j < i,
      weighted by the squared distance, n(n−1)/2 in all. */
  method AllPairs(points: seq<Color>) returns (edges: seq<Edge>)
    requires |points| <= INT32_MAX
    ensures edges == PairEdges(points)
    ensures 2 * |edges| == |points| * (|points| - 1)
    ensures forall k :: 0 <= k < |edges| ==>
      0 <= edges[k].v < edges[k].u < |points| &&
      edges[k].length == SquaredDistance(points[edges[k].u], points[edges[k].v])
    ensures forall a, b :: 0 <= b < a < |points| ==> HasEdge(edges, a, b)
  {
    edges := [];
    for i := 0 to |points|
      invariant edges == Rows(points, i)
    {
      for j := 0 to i
        invariant edges == Rows(points, i) + Row(points, i, j)
      {
        var d := Distance(points[i], points[j]);
        DistanceIsMetricLike(points[i], points[j]);
        edges := edges + [Edge(i, j, d)];
      }
    }
    PairsFormula(|points|);
    RowsJoinAll(points, |points|);
  }

  /** Sorting keeps every edge, so every pair is still joined by some edge. */
  lemma SortedKeepsPairs(edges: seq<Edge>, n: nat)
    requires forall k :: 0 <= k < |edges| ==> 0 <= edges[k].v < edges[k].u < n
    requires forall a, b :: 0 <= b < a < n ==> HasEdge(edges, a, b)
    ensures forall k :: 0 <= k < |SortByLength(edges)| ==> 0 <= SortByLength(edges)[k].v < SortByLength(edges)[k].u < n
    ensures forall a, b :: 0 <= b < a < n ==> HasEdge(SortByLength(edges), a, b)
  {
    var sorted := SortByLength(edges);
    SortedEdgesIn(edges, n);
    forall a, b | 0 <= b < a < n
      ensures HasEdge(sorted, a, b)
    {
      assert HasEdge(edges, a, b);
      var k :| 0 <= k < |edges| && edges[k].u == a && edges[k].v == b;
      assert edges[k] in multiset(sorted);
      var k' :| 0 <= k' < |sorted| && sorted[k'] == edges[k];
    }
  }

  /** Sorting keeps every edge's ends below n. */
  lemma SortedEdgesIn(edges: seq<Edge>, n: nat)
    requires EdgesIn(edges, n)
    ensures EdgesIn(SortByLength(edges), n)
  {
    var sorted := SortByLength(edges);
    forall k | 0 <= k < |sorted|
      ensures 0 <= sorted[k].v < sorted[k].u < n
    {
      assert sorted[k] in multiset(edges);
    }
  }

  /** The sorted edge list of `SolveByKruskal`. */
  ghost function SortedPairEdges(points: seq<Color>): (es: seq<Edge>)
    requires |points| <= INT32_MAX
    ensures EdgesIn(es, |points|)
  {
    SortedEdgesIn(PairEdges(points), |points|);
    SortByLength(PairEdges(points))
  }

  /** How many colours `SolveByKruskal` returns for n candidates: the loop
      stops when the component count reaches paletteSize, tested only after
      an edge has been processed, so it stops early only for
      1 <= paletteSize < n; otherwise every candidate ends up in one set. */
  function KruskalSize(paletteSize: int, n: nat): nat
  {
    if n == 0 then 0 else if 1 <= paletteSize < n then paletteSize else 1
  }

  /** With as many candidates as requested colours (at least two), Kruskal
      merges everything into one colour. */
  lemma ExactFitCollapses(paletteSize: int)
    requires paletteSize >= 2
    ensures KruskalSize(paletteSize, paletteSize) == 1
  {
  }

  /** Every forest has at least one root. */
  lemma RootsNonEmpty(p: seq<int>, rk: seq<int>)
    requires Forest(p, rk) && |p| > 0
    ensures |Roots(p)| >= 1
  {
    assert Root(p, rk, 0) in Roots(p);
  }

  /** Elements that share a root in (p0, rk0) share one in (p, rk). */
  ghost predicate Coarsens(p0: seq<int>, rk0: seq<int>, p: seq<int>, rk: seq<int>)
    requires Forest(p0, rk0) && Forest(p, rk) && |p0| == |p|
  {
    forall a, b :: (0 <= a < |p| && 0 <= b < |p| && Root(p0, rk0, a) == Root(p0, rk0, b)) ==>
      Root(p, rk, a) == Root(p, rk, b)
  }

  /** One step of the union loop: `if (dsu.Get(u) != dsu.Get(v)) dsu.Link(u, v)`.
      It reports whether it linked, which happens exactly when u and v were in
      different sets; it then leaves one set fewer. Sets that were joined
      stay joined, and afterwards u and v are joined. */
  method ProcessEdge(dsu: DSU, u: int, v: int) returns (linked: bool)
    requires dsu.Valid() && 0 <= u < dsu.parent.Length && 0 <= v < dsu.parent.Length
    modifies dsu.parent, dsu.rank
    ensures dsu.Valid()
    ensures linked <==> Root(old(dsu.parent[..]), old(dsu.rank[..]), u) != Root(old(dsu.parent[..]), old(dsu.rank[..]), v)
    ensures linked ==> |Roots(dsu.parent[..])| == |Roots(old(dsu.parent[..]))| - 1
    ensures !linked ==> Roots(dsu.parent[..]) == Roots(old(dsu.parent[..]))
    ensures Root(dsu.parent[..], dsu.rank[..], u) == Root(dsu.parent[..], dsu.rank[..], v)
    ensures Coarsens(old(dsu.parent[..]), old(dsu.rank[..]), dsu.parent[..], dsu.rank[..])
    ensures UnitesPair(old(dsu.parent[..]), old(dsu.rank[..]), dsu.parent[..], dsu.rank[..], u, v)
  {
    ghost var p0, rk := dsu.parent[..], dsu.rank[..];
    var ru := dsu.Get(u);
    CompressedKeepsRoots(p0, rk, u);
    CompressedKeepsRootSet(p0, rk, u);
    ghost var p1 := dsu.parent[..];
    var rv := dsu.Get(v);
    CompressedKeepsRoots(p1, rk, v);
    CompressedKeepsRootSet(p1, rk, v);
    ghost var p2 := dsu.parent[..];
    linked := ru != rv;
    SameRootsCoarsens(p0, rk, p2, rk);
    if linked {
      dsu.Link(u, v);
      LinkedJoins(p2, rk, u, v);
      LinkedRootCount(p2, rk, u, v);
      LinkedCoarsens(p2, rk, u, v);
      CoarsensTrans(p0, rk, p2, rk, dsu.parent[..], dsu.rank[..]);
      LinkedUnites(p2, rk, u, v);
      UnitesAfterFinding(p0, p2, rk, dsu.parent[..], dsu.rank[..], u, v);
    } else {
      SameRootsUnite(p0, rk, p2, rk, u, v);
    }
  }

  /** A forest with the same roots joins the same elements. */
  lemma SameRootsCoarsens(p0: seq<int>, rk0: seq<int>, p: seq<int>, rk: seq<int>)
    requires Forest(p0, rk0) && Forest(p, rk) && |p0| == |p|
    requires forall z :: 0 <= z < |p| ==> Root(p, rk, z) == Root(p0, rk0, z)
    ensures Coarsens(p0, rk0, p, rk)
  {
  }

  /** `Link` never separates two joined elements. */
  lemma LinkedCoarsens(p: seq<int>, rk: seq<int>, u: int, v: int)
    requires Forest(p, rk) && 0 <= u < |p| && 0 <= v < |p|
    ensures Forest(Linked(p, rk, u, v).0, Linked(p, rk, u, v).1)
    ensures Coarsens(p, rk, Linked(p, rk, u, v).0, Linked(p, rk, u, v).1)
  {
    LinkedJoins(p, rk, u, v);
  }

  /** Joining is transitive across successive forests. */
  lemma CoarsensTrans(p0: seq<int>, rk0: seq<int>, p1: seq<int>, rk1: seq<int>, p2: seq<int>, rk2: seq<int>)
    requires Forest(p0, rk0) && Forest(p1, rk1) && Forest(p2, rk2) && |p0| == |p1| == |p2|
    requires Coarsens(p0, rk0, p1, rk1) && Coarsens(p1, rk1, p2, rk2)
    ensures Coarsens(p0, rk0, p2, rk2)
  {
  }

  /** Processing edge (u, v) took (p0, rk0) to (p, rk): two elements share a
      root afterwards exactly when they did before, or each of them was in
      u's set or in v's set. */
  ghost predicate UnitesPair(p0: seq<int>, rk0: seq<int>, p: seq<int>, rk: seq<int>, u: int, v: int)
    requires Forest(p0, rk0) && Forest(p, rk) && |p0| == |p| && 0 <= u < |p| && 0 <= v < |p|
  {
    forall a, b :: 0 <= a < |p| && 0 <= b < |p| ==>
      (Root(p, rk, a) == Root(p, rk, b) <==>
        Root(p0, rk0, a) == Root(p0, rk0, b) ||
        (Root(p0, rk0, a) in {Root(p0, rk0, u), Root(p0, rk0, v)} &&
         Root(p0, rk0, b) in {Root(p0, rk0, u), Root(p0, rk0, v)}))
  }

  /** `Link(u, v)` unites the sets of u and v and no other. */
  lemma LinkedUnites(p: seq<int>, rk: seq<int>, u: int, v: int)
    requires Forest(p, rk) && 0 <= u < |p| && 0 <= v < |p|
    ensures Forest(Linked(p, rk, u, v).0, Linked(p, rk, u, v).1)
    ensures UnitesPair(p, rk, Linked(p, rk, u, v).0, Linked(p, rk, u, v).1, u, v)
  {
    LinkedJoins(p, rk, u, v);
  }

  /** When u and v already share a root, keeping every root unites nothing new. */
  lemma SameRootsUnite(p0: seq<int>, rk0: seq<int>, p: seq<int>, rk: seq<int>, u: int, v: int)
    requires Forest(p0, rk0) && Forest(p, rk) && |p0| == |p| && 0 <= u < |p| && 0 <= v < |p|
    requires Root(p0, rk0, u) == Root(p0, rk0, v)
    requires forall z :: 0 <= z < |p| ==> Root(p, rk, z) == Root(p0, rk0, z)
    ensures UnitesPair(p0, rk0, p, rk, u, v)
  {
  }

  /** Path compression before a union does not change what the union unites. */
  lemma UnitesAfterFinding(p0: seq<int>, p1: seq<int>, rk: seq<int>, p: seq<int>, rk': seq<int>, u: int, v: int)
    requires Forest(p0, rk) && Forest(p1, rk) && Forest(p, rk') && |p0| == |p1| == |p|
    requires 0 <= u < |p| && 0 <= v < |p|
    requires forall z :: 0 <= z < |p| ==> Root(p1, rk, z) == Root(p0, rk, z)
    requires UnitesPair(p1, rk, p, rk', u, v)
    ensures UnitesPair(p0, rk, p, rk', u, v)
  {
  }

  /** Every edge joins two elements below n, the larger one first. */
  ghost predicate EdgesIn(edges: seq<Edge>, n: nat)
  {
    forall k :: 0 <= k < |edges| ==> 0 <= edges[k].v < edges[k].u < n
  }

  /** Merge the class of u into the class of v. */
  function Relabel(lab: seq<int>, u: int, v: int): (r: seq<int>)
    requires 0 <= u < |lab| && 0 <= v < |lab|
    ensures |r| == |lab|
  {
    seq(|lab|, x requires 0 <= x < |lab| => if lab[x] == lab[u] then lab[v] else lab[x])
  }

  /** The classes after the first k edges, as labels: each element starts
      in a class of its own and every edge merges the classes of its ends. */
  function Labels(edges: seq<Edge>, k: nat, n: nat): (lab: seq<int>)
    requires k <= |edges| && EdgesIn(edges, n)
    ensures |lab| == n
  {
    if k == 0 then seq(n, x => x)
    else Relabel(Labels(edges, k - 1, n), edges[k - 1].u, edges[k - 1].v)
  }

  /** The ends of each of the first k edges share a label. */
  lemma {:induction false} LabelsJoinEdges(edges: seq<Edge>, k: nat, n: nat)
    requires k <= |edges| && EdgesIn(edges, n)
    ensures forall j :: 0 <= j < k ==> Labels(edges, k, n)[edges[j].u] == Labels(edges, k, n)[edges[j].v]
  {
    if k > 0 {
      LabelsJoinEdges(edges, k - 1, n);
      var lab := Labels(edges, k - 1, n);
      var r := Labels(edges, k, n);
      forall j | 0 <= j < k
        ensures r[edges[j].u] == r[edges[j].v]
      {
        if j < k - 1 {
          assert lab[edges[j].u] == lab[edges[j].v];
        }
      }
    }
  }

  /** The labels are the finest such classes: any labelling f that gives the
      ends of each of the first k edges one label is constant on every class.
      With `LabelsJoinEdges`, two elements share a label exactly when a path
      of the first k edges connects them. */
  lemma {:induction false} LabelsLeast(edges: seq<Edge>, k: nat, n: nat, f: seq<int>)
    requires k <= |edges| && EdgesIn(edges, n) && |f| == n
    requires forall j :: 0 <= j < k ==> f[edges[j].u] == f[edges[j].v]
    ensures forall a, b :: 0 <= a < n && 0 <= b < n && Labels(edges, k, n)[a] == Labels(edges, k, n)[b] ==> f[a] == f[b]
  {
    if k > 0 {
      LabelsLeast(edges, k - 1, n, f);
      var lab := Labels(edges, k - 1, n);
      var u, v := edges[k - 1].u, edges[k - 1].v;
      assert f[u] == f[v];
      forall a, b | 0 <= a < n && 0 <= b < n && Labels(edges, k, n)[a] == Labels(edges, k, n)[b]
        ensures f[a] == f[b]
      {
        if lab[a] == lab[u] && lab[b] != lab[u] {
          assert lab[b] == lab[v];
        } else if lab[a] != lab[u] && lab[b] == lab[u] {
          assert lab[a] == lab[v];
        }
      }
    }
  }

  /** How many of the first k edges merged two classes. */
  function Unions(edges: seq<Edge>, k: nat, n: nat): nat
    requires k <= |edges| && EdgesIn(edges, n)
  {
    if k == 0 then 0
    else
      var lab := Labels(edges, k - 1, n);
      Unions(edges, k - 1, n) + (if lab[edges[k - 1].u] != lab[edges[k - 1].v] then 1 else 0)
  }

  /** The number of classes after each prefix of the edges: entry j is
      n - Unions(edges, j, n). */
  ghost function Remaining(edges: seq<Edge>, n: nat): (c: seq<int>)
    requires EdgesIn(edges, n)
    ensures |c| == |edges| + 1
  {
    seq(|edges| + 1, j requires 0 <= j <= |edges| => n - Unions(edges, j, n))
  }

  /** Scanning the counts from index i: the first later index whose count
      is target, or the last index when there is none. */
  function StopAt(c: seq<int>, target: int, i: nat): (s: nat)
    requires i < |c|
    ensures i <= s < |c|
    decreases |c| - i
  {
    if i == |c| - 1 then i
    else if c[i + 1] == target then i + 1
    else StopAt(c, target, i + 1)
  }

  /** The scan stops at the first hit, or at the end when nothing hits. */
  lemma {:induction false} StopAtIsFirst(c: seq<int>, target: int, i: nat)
    requires i < |c|
    ensures forall j :: i < j < StopAt(c, target, i) ==> c[j] != target
    ensures StopAt(c, target, i) == |c| - 1 || c[StopAt(c, target, i)] == target
    decreases |c| - i
  {
    if i < |c| - 1 && c[i + 1] != target {
      StopAtIsFirst(c, target, i + 1);
    }
  }

  /** Where the union loop stops once it has processed i edges without
      stopping: just after the first later edge that brings the class count
      n - Unions to paletteSize, or at the end of the list. */
  ghost function StopFrom(edges: seq<Edge>, n: nat, paletteSize: int, i: nat): (s: nat)
    requires i <= |edges| && EdgesIn(edges, n)
    ensures i <= s <= |edges|
  {
    StopAt(Remaining(edges, n), paletteSize, i)
  }

  /** The number of edges the union loop processes. */
  ghost function KruskalStop(edges: seq<Edge>, n: nat, paletteSize: int): (s: nat)
    requires EdgesIn(edges, n)
    ensures s <= |edges|
  {
    StopFrom(edges, n, paletteSize, 0)
  }

  /** The union loop stops at the first edge that leaves paletteSize
      classes, and processes every edge when none does. */
  lemma KruskalStopIsFirst(edges: seq<Edge>, n: nat, paletteSize: int, i: nat)
    requires i <= |edges| && EdgesIn(edges, n)
    ensures forall j :: i < j < StopFrom(edges, n, paletteSize, i) ==> n - Unions(edges, j, n) != paletteSize
    ensures StopFrom(edges, n, paletteSize, i) == |edges| ||
            n - Unions(edges, StopFrom(edges, n, paletteSize, i), n) == paletteSize
  {
    var c := Remaining(edges, n);
    StopAtIsFirst(c, paletteSize, i);
    var s := StopFrom(edges, n, paletteSize, i);
    assert c[s] == n - Unions(edges, s, n);
    forall j | i < j < s
      ensures n - Unions(edges, j, n) != paletteSize
    {
      assert c[j] == n - Unions(edges, j, n);
    }
  }

  /** The forest's sets are the label classes. */
  ghost predicate SameSets(p: seq<int>, rk: seq<int>, lab: seq<int>)
  {
    Forest(p, rk) && |lab| == |p| &&
    forall a, b :: 0 <= a < |p| && 0 <= b < |p| ==> (Root(p, rk, a) == Root(p, rk, b) <==> lab[a] == lab[b])
  }

  /** A union that unites exactly the sets of u and v follows `Relabel`. */
  lemma UnionRelabel(p0: seq<int>, rk0: seq<int>, p: seq<int>, rk: seq<int>, lab: seq<int>, u: int, v: int)
    requires SameSets(p0, rk0, lab) && Forest(p, rk) && |p| == |p0| && 0 <= u < |p| && 0 <= v < |p|
    requires UnitesPair(p0, rk0, p, rk, u, v)
    ensures SameSets(p, rk, Relabel(lab, u, v))
  {
    var r := Relabel(lab, u, v);
    forall a, b | 0 <= a < |p| && 0 <= b < |p|
      ensures Root(p, rk, a) == Root(p, rk, b) <==> r[a] == r[b]
    {
      assert (Root(p0, rk0, a) in {Root(p0, rk0, u), Root(p0, rk0, v)}) <==> (lab[a] == lab[u] || lab[a] == lab[v]);
      assert (Root(p0, rk0, b) in {Root(p0, rk0, u), Root(p0, rk0, v)}) <==> (lab[b] == lab[u] || lab[b] == lab[v]);
    }
  }

  /** The first i edges have their ends in the same set. */
  ghost predicate EdgesJoined(p: seq<int>, rk: seq<int>, edges: seq<Edge>, i: nat)
  {
    Forest(p, rk) && i <= |edges| &&
    forall k :: 0 <= k < i ==>
      0 <= edges[k].u < |p| && 0 <= edges[k].v < |p| && Root(p, rk, edges[k].u) == Root(p, rk, edges[k].v)
  }

  /** Processing edge i keeps the first i edges joined and joins edge i. */
  lemma StepKeepsJoined(p0: seq<int>, rk0: seq<int>, p: seq<int>, rk: seq<int>, edges: seq<Edge>, i: nat)
    requires EdgesJoined(p0, rk0, edges, i) && Forest(p, rk) && |p| == |p0| && i < |edges|
    requires 0 <= edges[i].u < |p| && 0 <= edges[i].v < |p|
    requires Root(p, rk, edges[i].u) == Root(p, rk, edges[i].v)
    requires Coarsens(p0, rk0, p, rk)
    ensures EdgesJoined(p, rk, edges, i + 1)
  {
    forall k | 0 <= k < i + 1
      ensures Root(p, rk, edges[k].u) == Root(p, rk, edges[k].v)
    {
      if k < i {
        assert Root(p0, rk0, edges[k].u) == Root(p0, rk0, edges[k].v);
      }
    }
  }

  /** Once the ends of every edge share a root and every pair is an edge,
      there is a single set. */
  lemma AllPairsJoined(p: seq<int>, rk: seq<int>, edges: seq<Edge>, n: nat)
    requires Forest(p, rk) && |p| == n > 0
    requires forall k :: 0 <= k < |edges| ==> 0 <= edges[k].v < edges[k].u < n
    requires forall a, b :: 0 <= b < a < n ==> HasEdge(edges, a, b)
    requires EdgesJoined(p, rk, edges, |edges|)
    ensures |Roots(p)| == 1
  {
    forall x | 0 <= x < n
      ensures Root(p, rk, x) == Root(p, rk, 0)
    {
      if x > 0 {
        assert HasEdge(edges, x, 0);
        var k :| 0 <= k < |edges| && edges[k].u == x && edges[k].v == 0;
      }
    }
    OneSetCount(p, rk);
  }

  /** The state of the union loop after it processed the first i edges
      (done once it stopped at the count): the count is the number of sets,
      the sets are the classes of the first i edges, and the loop stops at
      `KruskalStop`. */
  ghost predicate Uniting(p: seq<int>, rk: seq<int>, edges: seq<Edge>, n: nat, paletteSize: int, i: nat, done: bool, count: int)
  {
    EdgesIn(edges, n) && i <= |edges| && |p| == n &&
    count == |Roots(p)| &&
    (done ==> count == paletteSize && i > 0) &&
    (!done && 1 <= paletteSize < n ==> count > paletteSize) &&
    SameSets(p, rk, Labels(edges, i, n)) &&
    count == n - Unions(edges, i, n) &&
    KruskalStop(edges, n, paletteSize) == if done then i else StopFrom(edges, n, paletteSize, i)
  }

  /** The first edge always merges two classes. */
  lemma {:induction false} UnionsPositive(edges: seq<Edge>, i: nat, n: nat)
    requires 0 < i <= |edges| && EdgesIn(edges, n)
    ensures Unions(edges, i, n) >= 1
  {
    if i > 1 {
      UnionsPositive(edges, i - 1, n);
    } else {
      assert Labels(edges, 0, n) == seq(n, x => x);
    }
  }

  /** One pass of the union loop: process edge i, count a union down, and
      stop when the count reaches paletteSize. */
  method UniteStep(dsu: DSU, edges: seq<Edge>, n: nat, paletteSize: int, i: nat, count: int) returns (count': int, stop: bool)
    requires dsu.Valid() && dsu.parent.Length == n && i < |edges|
    requires Uniting(dsu.parent[..], dsu.rank[..], edges, n, paletteSize, i, false, count)
    modifies dsu.parent, dsu.rank
    ensures dsu.Valid() && dsu.parent.Length == n
    ensures stop <==> count' == paletteSize
    ensures count' == count || count' == count - 1
    ensures Uniting(dsu.parent[..], dsu.rank[..], edges, n, paletteSize, i + 1, stop, count')
  {
    ghost var p0, rk0 := dsu.parent[..], dsu.rank[..];
    var linked := ProcessEdge(dsu, edges[i].u, edges[i].v);
    count' := if linked then count - 1 else count;
    stop := count' == paletteSize;
    UnitingStep(p0, rk0, dsu.parent[..], dsu.rank[..], edges, n, paletteSize, i, count, linked);
  }

  /** What processing edge i does to the loop state, given what
      `ProcessEdge` guarantees. */
  lemma UnitingStep(p0: seq<int>, rk0: seq<int>, p: seq<int>, rk: seq<int>, edges: seq<Edge>, n: nat, paletteSize: int,
                    i: nat, count: int, linked: bool)
    requires i < |edges| && Uniting(p0, rk0, edges, n, paletteSize, i, false, count)
    requires Forest(p, rk) && |p| == n
    requires linked <==> Root(p0, rk0, edges[i].u) != Root(p0, rk0, edges[i].v)
    requires linked ==> |Roots(p)| == |Roots(p0)| - 1
    requires !linked ==> Roots(p) == Roots(p0)
    requires UnitesPair(p0, rk0, p, rk, edges[i].u, edges[i].v)
    ensures var count' := if linked then count - 1 else count;
      Uniting(p, rk, edges, n, paletteSize, i + 1, count' == paletteSize, count')
  {
    UnionRelabel(p0, rk0, p, rk, Labels(edges, i, n), edges[i].u, edges[i].v);
    UnionsPositive(edges, i + 1, n);
  }

  /** The union loop of `SolveByKruskal`: walk the sorted edges, link the ends
      of every edge whose ends have different roots and count the sets down;
      stop as soon as the count equals paletteSize. It processes the first
      `KruskalStop` edges, and its sets are then exactly the classes those
      edges connect (`Labels`). */
  method UniteAlongEdges(dsu: DSU, edges: seq<Edge>, n: nat, paletteSize: int) returns (count: int)
    requires dsu.Valid() && dsu.parent.Length == n
    requires forall x :: 0 <= x < n ==> dsu.parent[x] == x
    requires EdgesIn(edges, n)
    requires forall a, b :: 0 <= b < a < n ==> HasEdge(edges, a, b)
    modifies dsu.parent, dsu.rank
    ensures dsu.Valid()
    ensures count == |Roots(dsu.parent[..])| == KruskalSize(paletteSize, n)
    ensures SameSets(dsu.parent[..], dsu.rank[..], Labels(edges, KruskalStop(edges, n, paletteSize), n))
    ensures count == n - Unions(edges, KruskalStop(edges, n, paletteSize), n)
  {
    count := n;
    UnitingStarts(dsu.parent[..], dsu.rank[..], edges, n, paletteSize);
    var i := 0;
    var done := false;
    while i < |edges| && !done
      invariant dsu.Valid() && dsu.parent.Length == n
      invariant Uniting(dsu.parent[..], dsu.rank[..], edges, n, paletteSize, i, done, count)
      decreases |edges| - i
    {
      count, done := UniteStep(dsu, edges, n, paletteSize, i, count);
      i := i + 1;
    }
    UnitingEnds(dsu.parent[..], dsu.rank[..], edges, n, paletteSize, i, done, count);
  }

  /** Before the first edge every element is a set of its own. */
  lemma UnitingStarts(p: seq<int>, rk: seq<int>, edges: seq<Edge>, n: nat, paletteSize: int)
    requires Forest(p, rk) && |p| == n && EdgesIn(edges, n)
    requires forall x :: 0 <= x < n ==> p[x] == x
    ensures Uniting(p, rk, edges, n, paletteSize, 0, false, n)
  {
    SingletonsCount(p);
    assert Labels(edges, 0, n) == seq(n, x => x);
  }

  /** When the loop ends, by the count or at the last edge, it has processed
      `KruskalStop` edges, and the count is `KruskalSize`. */
  lemma UnitingEnds(p: seq<int>, rk: seq<int>, edges: seq<Edge>, n: nat, paletteSize: int, i: nat, done: bool, count: int)
    requires Uniting(p, rk, edges, n, paletteSize, i, done, count)
    requires done || i == |edges|
    requires forall a, b :: 0 <= b < a < n ==> HasEdge(edges, a, b)
    ensures count == |Roots(p)| == KruskalSize(paletteSize, n)
    ensures KruskalStop(edges, n, paletteSize) == i
    ensures SameSets(p, rk, Labels(edges, KruskalStop(edges, n, paletteSize), n))
    ensures count == n - Unions(edges, KruskalStop(edges, n, paletteSize), n)
  {
    if !done && n > 0 {
      LabelsJoinEdges(edges, i, n);
      AllPairsJoined(p, rk, edges, n);
    }
    if done {
      RootsNonEmpty(p, rk);
      UnionsPositive(edges, i, n);
    }
  }

  /** The colours of several lists, one list after another. */
  ghost function Concat(gs: seq<seq<Color>>): seq<Color>
  {
    if |gs| == 0 then [] else Concat(gs[..|gs| - 1]) + gs[|gs| - 1]
  }

  /** Appending c to one list adds c to the concatenation's multiset. */
  lemma {:induction false} ConcatAppendTo(gs: seq<seq<Color>>, j: int, c: Color)
    requires 0 <= j < |gs|
    ensures multiset(Concat(gs[j := gs[j] + [c]])) == multiset(Concat(gs)) + multiset{c}
    decreases |gs|
  {
    var last := |gs| - 1;
    var hs := gs[j := gs[j] + [c]];
    if j == last {
      assert hs[..last] == gs[..last];
    } else {
      assert hs[..last] == gs[..last][j := gs[j] + [c]];
      ConcatAppendTo(gs[..last], j, c);
    }
  }

  /** A new list at the end adds its elements to the concatenation. */
  lemma ConcatSnoc(gs: seq<seq<Color>>, g: seq<Color>)
    ensures Concat(gs + [g]) == Concat(gs) + g
  {
    assert (gs + [g])[..|gs|] == gs;
  }

  /** The key index of an insertion-ordered dictionary: `slot` maps a key to
      its position and `keys` lists the keys in insertion order. */
  ghost predicate IndexOk(slot: map<int, nat>, keys: seq<int>)
  {
    |keys| == |slot| &&
    (forall j :: 0 <= j < |keys| ==> keys[j] in slot && slot[keys[j]] == j) &&
    (forall r :: r in slot ==> slot[r] < |keys| && keys[slot[r]] == r)
  }

  lemma IndexExtend(slot: map<int, nat>, keys: seq<int>, r: int)
    requires IndexOk(slot, keys) && r !in slot
    ensures IndexOk(slot[r := |keys|], keys + [r])
  {
    assert slot[r := |keys|].Keys == slot.Keys + {r};
  }

  /** A `Dictionary<int, List<Vector<byte>>>` whose lists are never empty. */
  ghost predicate Table(slot: map<int, nat>, keys: seq<int>, groups: seq<seq<Color>>)
  {
    IndexOk(slot, keys) && |keys| == |groups| &&
    forall j :: 0 <= j < |groups| ==> |groups[j]| > 0
  }

  /** `if (!d.ContainsKey(r)) d[r] = new List(); d[r].Add(c);` */
  method AddToGroup(slot: map<int, nat>, keys: seq<int>, groups: seq<seq<Color>>, r: int, c: Color)
    returns (slot': map<int, nat>, keys': seq<int>, groups': seq<seq<Color>>)
    requires Table(slot, keys, groups)
    ensures Table(slot', keys', groups')
    ensures slot'.Keys == slot.Keys + {r}
    ensures multiset(Concat(groups')) == multiset(Concat(groups)) + multiset{c}
    ensures r in slot ==> keys' == keys && groups' == groups[slot[r] := groups[slot[r]] + [c]]
    ensures r !in slot ==> keys' == keys + [r] && groups' == groups + [[c]]
  {
    if r in slot {
      slot', keys' := slot, keys;
      groups' := groups[slot[r] := groups[slot[r]] + [c]];
      AppendToGroup(slot, keys, groups, r, c);
    } else {
      slot', keys' := slot[r := |keys|], keys + [r];
      groups' := groups + [[c]];
      StartGroup(slot, keys, groups, r, c);
    }
  }

  /** The list of a key already present grows by c. */
  lemma AppendToGroup(slot: map<int, nat>, keys: seq<int>, groups: seq<seq<Color>>, r: int, c: Color)
    requires Table(slot, keys, groups) && r in slot
    ensures Table(slot, keys, groups[slot[r] := groups[slot[r]] + [c]])
    ensures multiset(Concat(groups[slot[r] := groups[slot[r]] + [c]])) == multiset(Concat(groups)) + multiset{c}
  {
    ConcatAppendTo(groups, slot[r], c);
  }

  /** A new key comes last, with the list [c]. */
  lemma StartGroup(slot: map<int, nat>, keys: seq<int>, groups: seq<seq<Color>>, r: int, c: Color)
    requires Table(slot, keys, groups) && r !in slot
    ensures Table(slot[r := |keys|], keys + [r], groups + [[c]])
    ensures slot[r := |keys|].Keys == slot.Keys + {r}
    ensures multiset(Concat(groups + [[c]])) == multiset(Concat(groups)) + multiset{c}
  {
    IndexExtend(slot, keys, r);
    ConcatSnoc(groups, [c]);
  }

  /** p gives every element the same root as ps. */
  ghost predicate SameRoots(p: seq<int>, ps: seq<int>, rk: seq<int>)
  {
    Forest(p, rk) && Forest(ps, rk) && |p| == |ps| &&
    forall y :: 0 <= y < |p| ==> Root(p, rk, y) == Root(ps, rk, y)
  }

  /** `dsu.Get(x)` on a forest with the roots of ps keeps those roots. */
  lemma CompressedSameRoots(p: seq<int>, ps: seq<int>, rk: seq<int>, x: int)
    requires SameRoots(p, ps, rk) && 0 <= x < |p|
    ensures SameRoots(Compressed(p, rk, x), ps, rk)
  {
    CompressedKeepsRoots(p, rk, x);
  }

  /** The roots of the first x elements all have a list. */
  ghost predicate Seen(ps: seq<int>, rk: seq<int>, slot: map<int, nat>, x: nat)
    requires Forest(ps, rk) && x <= |ps|
  {
    forall y :: 0 <= y < x ==> Root(ps, rk, y) in slot
  }

  /** Adding the root of element x to the keys extends `Seen` to x + 1. */
  lemma SeenStep(ps: seq<int>, rk: seq<int>, slot: map<int, nat>, slot': map<int, nat>, x: nat)
    requires Forest(ps, rk) && x < |ps| && Seen(ps, rk, slot, x) && slot.Keys <= Roots(ps)
    requires slot'.Keys == slot.Keys + {Root(ps, rk, x)}
    ensures Seen(ps, rk, slot', x + 1) && slot'.Keys <= Roots(ps)
  {
  }

  /** Once every element's root has a list, the keys are exactly the roots. */
  lemma SeenAll(ps: seq<int>, rk: seq<int>, slot: map<int, nat>)
    requires Forest(ps, rk) && Seen(ps, rk, slot, |ps|) && slot.Keys <= Roots(ps)
    ensures |slot| == |Roots(ps)|
  {
    forall r | r in Roots(ps)
      ensures r in slot
    {
      assert Root(ps, rk, r) == r;
    }
    assert slot.Keys == Roots(ps);
  }

  lemma PrefixSnoc<T>(s: seq<T>, x: nat)
    requires x < |s|
    ensures multiset(s[..x + 1]) == multiset(s[..x]) + multiset{s[x]}
  {
    assert s[..x + 1] == s[..x] + [s[x]];
  }

  /** The elements among the first t whose label no earlier element
      carries, in increasing order: one per class met so far, in the order
      the classes are first met. */
  function Leaders(lab: seq<int>, t: nat): (ls: seq<nat>)
    requires t <= |lab|
    ensures forall g :: 0 <= g < |ls| ==> ls[g] < t
  {
    if t == 0 then []
    else Leaders(lab, t - 1) + (if lab[t - 1] in lab[..t - 1] then [] else [t - 1])
  }

  /** The leaders carry pairwise different labels. */
  lemma {:induction false} LeadersDistinct(lab: seq<int>, t: nat)
    requires t <= |lab|
    ensures forall g, h :: 0 <= g < h < |Leaders(lab, t)| ==> lab[Leaders(lab, t)[g]] != lab[Leaders(lab, t)[h]]
  {
    if t > 0 {
      LeadersDistinct(lab, t - 1);
      var ls := Leaders(lab, t - 1);
      if lab[t - 1] !in lab[..t - 1] {
        forall g | 0 <= g < |ls|
          ensures lab[ls[g]] != lab[t - 1]
        {
          assert lab[ls[g]] == lab[..t - 1][ls[g]];
        }
      }
    }
  }

  /** Element x shares its label with one of the leaders among the first t. */
  ghost predicate HasLeader(lab: seq<int>, t: nat, x: nat)
    requires t <= |lab| && x < |lab|
  {
    exists g :: 0 <= g < |Leaders(lab, t)| && lab[Leaders(lab, t)[g]] == lab[x]
  }

  /** Every one of the first t elements shares its label with a leader. */
  lemma {:induction false} LeadersCover(lab: seq<int>, t: nat)
    requires t <= |lab|
    ensures forall x :: 0 <= x < t ==> HasLeader(lab, t, x)
  {
    if t > 0 {
      LeadersCover(lab, t - 1);
      var ls, ls' := Leaders(lab, t - 1), Leaders(lab, t);
      forall x | 0 <= x < t
        ensures HasLeader(lab, t, x)
      {
        var y := x;
        if x == t - 1 && lab[x] !in lab[..x] {
          assert ls'[|ls|] == x;
        } else {
          if x == t - 1 {
            y :| 0 <= y < x && lab[..x][y] == lab[x];
          }
          assert HasLeader(lab, t - 1, y);
          var g :| 0 <= g < |ls| && lab[ls[g]] == lab[y];
          assert ls'[g] == ls[g];
        }
      }
    }
  }

  /** The points among the first t whose label is l, in order. */
  function Members(points: seq<Color>, lab: seq<int>, t: nat, l: int): seq<Color>
    requires t <= |points| && t <= |lab|
  {
    if t == 0 then []
    else Members(points, lab, t - 1, l) + (if lab[t - 1] == l then [points[t - 1]] else [])
  }

  /** No point carries a label none of the first t elements carries. */
  lemma {:induction false} MembersOfUnseen(points: seq<Color>, lab: seq<int>, t: nat, l: int)
    requires t <= |points| && t <= |lab| && l !in lab[..t]
    ensures Members(points, lab, t, l) == []
  {
    if t > 0 {
      assert lab[..t - 1] <= lab[..t];
      assert lab[t - 1] == lab[..t][t - 1];
      MembersOfUnseen(points, lab, t - 1, l);
    }
  }

  /** The points grouped by label: one group per class, in the order the
      classes are first met, each holding its class's points in order. */
  function Grouped(points: seq<Color>, lab: seq<int>): (gs: seq<seq<Color>>)
    requires |points| == |lab|
    ensures |gs| == |Leaders(lab, |lab|)|
  {
    var ls := Leaders(lab, |lab|);
    seq(|ls|, g requires 0 <= g < |ls| => Members(points, lab, |lab|, lab[ls[g]]))
  }

  /** The grouping after the first x points: one key per class met so far,
      in the order first met, each list holding that class's points so far. */
  ghost predicate GroupsSoFar(points: seq<Color>, lab: seq<int>, x: nat, keys: seq<int>, groups: seq<seq<Color>>)
    requires x <= |points| == |lab|
  {
    |keys| == |Leaders(lab, x)| && |groups| == |keys| &&
    forall g :: 0 <= g < |keys| ==>
      keys[g] == lab[Leaders(lab, x)[g]] && groups[g] == Members(points, lab, x, keys[g])
  }

  /** Point x joins the list of a class already met. */
  lemma GroupsAppend(points: seq<Color>, lab: seq<int>, x: nat, keys: seq<int>, groups: seq<seq<Color>>, g0: nat)
    requires x < |points| == |lab| && GroupsSoFar(points, lab, x, keys, groups)
    requires g0 < |keys| && keys[g0] == lab[x]
    requires forall g, h :: 0 <= g < |keys| && 0 <= h < |keys| && keys[g] == keys[h] ==> g == h
    ensures GroupsSoFar(points, lab, x + 1, keys, groups[g0 := groups[g0] + [points[x]]])
  {
    var ls := Leaders(lab, x);
    assert lab[..x][ls[g0]] == lab[x];
    assert Leaders(lab, x + 1) == ls;
  }

  /** Point x starts a new list for a class not met before. */
  lemma GroupsStart(points: seq<Color>, lab: seq<int>, x: nat, keys: seq<int>, groups: seq<seq<Color>>)
    requires x < |points| == |lab| && GroupsSoFar(points, lab, x, keys, groups)
    requires lab[x] !in lab[..x]
    ensures GroupsSoFar(points, lab, x + 1, keys + [lab[x]], groups + [[points[x]]])
  {
    var ls := Leaders(lab, x);
    assert Leaders(lab, x + 1) == ls + [x];
    forall g | 0 <= g < |keys|
      ensures keys[g] != lab[x]
    {
      assert lab[..x][ls[g]] == keys[g];
    }
    MembersOfUnseen(points, lab, x, lab[x]);
  }

  /** After the last point the lists are `Grouped`. */
  lemma GroupsDone(points: seq<Color>, lab: seq<int>, keys: seq<int>, groups: seq<seq<Color>>)
    requires |points| == |lab| && GroupsSoFar(points, lab, |points|, keys, groups)
    ensures groups == Grouped(points, lab)
  {
  }

  /** The roots of all elements, as labels. */
  ghost function RootLabels(p: seq<int>, rk: seq<int>): (lab: seq<int>)
    requires Forest(p, rk)
    ensures |lab| == |p| && forall x :: 0 <= x < |p| ==> lab[x] == Root(p, rk, x)
  {
    seq(|p|, x requires 0 <= x < |p| => Root(p, rk, x))
  }

  /** Two labellings with the same classes meet their classes in the same order. */
  lemma {:induction false} LeadersSameClasses(lab1: seq<int>, lab2: seq<int>, t: nat)
    requires t <= |lab1| == |lab2|
    requires forall a, b :: 0 <= a < |lab1| && 0 <= b < |lab1| ==> (lab1[a] == lab1[b] <==> lab2[a] == lab2[b])
    ensures Leaders(lab1, t) == Leaders(lab2, t)
  {
    if t > 0 {
      LeadersSameClasses(lab1, lab2, t - 1);
      var x := t - 1;
      forall y | 0 <= y < x
        ensures lab1[..x][y] == lab1[x] <==> lab2[..x][y] == lab2[x]
      {
        assert lab1[..x][y] == lab1[y] && lab2[..x][y] == lab2[y];
      }
      assert lab1[x] in lab1[..x] <==> lab2[x] in lab2[..x];
    }
  }

  /** ... and give every class the same members. */
  lemma {:induction false} MembersSameClasses(points: seq<Color>, lab1: seq<int>, lab2: seq<int>, t: nat, y: nat)
    requires t <= |points| == |lab1| == |lab2| && y < |lab1|
    requires forall a, b :: 0 <= a < |lab1| && 0 <= b < |lab1| ==> (lab1[a] == lab1[b] <==> lab2[a] == lab2[b])
    ensures Members(points, lab1, t, lab1[y]) == Members(points, lab2, t, lab2[y])
  {
    if t > 0 {
      MembersSameClasses(points, lab1, lab2, t - 1, y);
    }
  }

  /** Grouping depends only on the classes, not on the label values. */
  lemma GroupedSameClasses(points: seq<Color>, lab1: seq<int>, lab2: seq<int>)
    requires |points| == |lab1| == |lab2|
    requires forall a, b :: 0 <= a < |lab1| && 0 <= b < |lab1| ==> (lab1[a] == lab1[b] <==> lab2[a] == lab2[b])
    ensures Grouped(points, lab1) == Grouped(points, lab2)
  {
    LeadersSameClasses(lab1, lab2, |lab1|);
    var ls := Leaders(lab1, |lab1|);
    forall g | 0 <= g < |ls|
      ensures Grouped(points, lab1)[g] == Grouped(points, lab2)[g]
    {
      MembersSameClasses(points, lab1, lab2, |lab1|, ls[g]);
    }
  }

  /** The grouping loop of `SolveByKruskal`: each candidate is added to the
      list of its root, a list being created the first time its root is seen.
      One list per set, none empty, and together they hold every candidate
      once. */
  method GroupByRoot(dsu: DSU, points: seq<Color>) returns (groups: seq<seq<Color>>)
    requires dsu.Valid() && dsu.parent.Length == |points|
    modifies dsu.parent
    ensures |groups| == |Roots(old(dsu.parent[..]))|
    ensures forall j :: 0 <= j < |groups| ==> |groups[j]| > 0
    ensures multiset(Concat(groups)) == multiset(points)
    ensures groups == Grouped(points, RootLabels(old(dsu.parent[..]), dsu.rank[..]))
  {
    ghost var ps, rk := dsu.parent[..], dsu.rank[..];
    ghost var lab := RootLabels(ps, rk);
    var slot: map<int, nat> := map[];
    var keys: seq<int> := [];
    groups := [];
    for x := 0 to |points|
      invariant dsu.Valid() && dsu.parent.Length == |points| && dsu.rank[..] == rk
      invariant SameRoots(dsu.parent[..], ps, rk)
      invariant Table(slot, keys, groups)
      invariant slot.Keys <= Roots(ps)
      invariant Seen(ps, rk, slot, x)
      invariant multiset(Concat(groups)) == multiset(points[..x])
      invariant GroupsSoFar(points, lab, x, keys, groups)
    {
      ghost var p0 := dsu.parent[..];
      var r := dsu.Get(x);
      CompressedSameRoots(p0, ps, rk, x);
      assert r == lab[x];
      ghost var slot0, keys0, groups0 := slot, keys, groups;
      slot, keys, groups := AddToGroup(slot, keys, groups, r, points[x]);
      SeenStep(ps, rk, slot0, slot, x);
      PrefixSnoc(points, x);
      GroupStep(ps, rk, points, lab, x, slot0, keys0, groups0);
    }
    SeenAll(ps, rk, slot);
    assert points[..|points|] == points;
    GroupsDone(points, lab, keys, groups);
  }

  /** One step of the grouping loop keeps `GroupsSoFar`: the root of point x
      has a list exactly when an earlier point has that root. */
  lemma GroupStep(ps: seq<int>, rk: seq<int>, points: seq<Color>, lab: seq<int>, x: nat,
                  slot: map<int, nat>, keys: seq<int>, groups: seq<seq<Color>>)
    requires Forest(ps, rk) && x < |points| == |ps| && lab == RootLabels(ps, rk)
    requires Table(slot, keys, groups) && Seen(ps, rk, slot, x)
    requires GroupsSoFar(points, lab, x, keys, groups)
    ensures lab[x] in slot ==>
      GroupsSoFar(points, lab, x + 1, keys, groups[slot[lab[x]] := groups[slot[lab[x]]] + [points[x]]])
    ensures lab[x] !in slot ==> GroupsSoFar(points, lab, x + 1, keys + [lab[x]], groups + [[points[x]]])
  {
    if lab[x] in slot {
      GroupsAppend(points, lab, x, keys, groups, slot[lab[x]]);
    } else {
      forall y | 0 <= y < x
        ensures lab[..x][y] != lab[x]
      {
        assert Root(ps, rk, y) in slot;
      }
      GroupsStart(points, lab, x, keys, groups);
    }
  }

  /** Single-linkage clustering as `SolveByKruskal` computes it: the classes
      that the union loop's edges connect, one list per class, in the order
      the classes' first candidates appear. */
  ghost function KruskalClusters(paletteSize: int, points: seq<Color>): seq<seq<Color>>
    requires |points| <= INT32_MAX
  {
    var edges := SortedPairEdges(points);
    Grouped(points, Labels(edges, KruskalStop(edges, |points|, paletteSize), |points|))
  }

  /** Grouping by root equals grouping by any labels with the same classes. */
  lemma RootGroupsRelabel(points: seq<Color>, p: seq<int>, rk: seq<int>, lab: seq<int>)
    requires SameSets(p, rk, lab) && |points| == |p|
    ensures Grouped(points, RootLabels(p, rk)) == Grouped(points, lab)
  {
    RootLabelsSameClasses(p, rk, lab);
    GroupedSameClasses(points, RootLabels(p, rk), lab);
  }

  /** Labels whose classes are the forest's sets have the classes of the roots. */
  lemma RootLabelsSameClasses(p: seq<int>, rk: seq<int>, lab: seq<int>)
    requires SameSets(p, rk, lab)
    ensures forall a, b :: 0 <= a < |lab| && 0 <= b < |lab| ==>
      (RootLabels(p, rk)[a] == RootLabels(p, rk)[b] <==> lab[a] == lab[b])
  {
    var roots := RootLabels(p, rk);
    forall a, b | 0 <= a < |lab| && 0 <= b < |lab|
      ensures roots[a] == roots[b] <==> lab[a] == lab[b]
    {
      assert roots[a] == Root(p, rk, a) && roots[b] == Root(p, rk, b);
    }
  }

  /** `SolveByKruskal(paletteSize, quantizedSet)`: Kruskal's algorithm over
      the complete graph of candidates, stopped when the number of sets
      reaches paletteSize; returns the mean of every set. */
  method SolveByKruskal(paletteSize: int, quantizedSet: seq<Color>) returns (result: seq<Color>, ghost clusters: seq<seq<Color>>)
    requires |quantizedSet| <= INT32_MAX
    ensures |result| == KruskalSize(paletteSize, |quantizedSet|)
    ensures |clusters| == |result|
    ensures forall g :: 0 <= g < |clusters| ==> |clusters[g]| > 0 && result[g] == Mean(clusters[g])
    ensures multiset(Concat(clusters)) == multiset(quantizedSet)
    ensures clusters == KruskalClusters(paletteSize, quantizedSet)
  {
    var edges := AllPairs(quantizedSet);
    SortedKeepsPairs(edges, |quantizedSet|);
    edges := SortByLength(edges);     // edges.Sort()
    var dsu := new DSU(|quantizedSet|);
    var count := UniteAlongEdges(dsu, edges, |quantizedSet|, paletteSize);
    assert edges == SortedPairEdges(quantizedSet);
    ghost var p1, rk1 := dsu.parent[..], dsu.rank[..];
    RootGroupsRelabel(quantizedSet, p1, rk1, Labels(edges, KruskalStop(edges, |quantizedSet|, paletteSize), |quantizedSet|));
    var groups := GroupByRoot(dsu, quantizedSet);
    assert dsu.rank[..] == rk1;
    result := MeanOfEach(groups);
    clusters := groups;
  }

  /** `result.Values.Select(MeanVector).ToArray()`: the mean of each list, in order. */
  method MeanOfEach(groups: seq<seq<Color>>) returns (result: seq<Color>)
    requires forall g :: 0 <= g < |groups| ==> |groups[g]| > 0
    ensures |result| == |groups|
    ensures forall g :: 0 <= g < |groups| ==> result[g] == Mean(groups[g])
  {
    result := [];
    for g := 0 to |groups|
      invariant |result| == g
      invariant forall k :: 0 <= k < g ==> result[k] == Mean(groups[k])
    {
      var m := MeanVector(groups[g]);
      result := result + [m];
    }
  }

  /** `QuantizationVectorFunc(x)`: the same bit count for all three channels. */
  function QuantizationVector(x: byte): (v: Color)
    ensures forall k :: 0 <= k < 3 ==> v.At(k) == x
  {
    Rgb(x, x, x)
  }

  /** Every colour quantized with `rate` bits per channel, in order. */
  function QuantizedAll(colors: seq<Color>, rate: byte): (r: seq<Color>)
    ensures |r| == |colors|
    ensures forall i :: 0 <= i < |colors| ==> r[i] == Q.QuantizedColor(colors[i], QuantizationVector(rate))
  {
    seq(|colors|, i requires 0 <= i < |colors| => Q.QuantizedColor(colors[i], QuantizationVector(rate)))
  }

  /** `CreateQuantizedSet(colors, rate)`: a `HashSet<Vector<byte>>` of the
      quantized colours. Vector's hash code is its array's reference hash, so
      equal vectors are merged only when two hash codes happen to collide:
      the contract promises every quantized colour, nothing else, and no more
      entries than colours. The body keeps every entry (no collision). */
  method CreateQuantizedSet(colors: seq<Color>, rate: byte) returns (candidates: seq<Color>)
    ensures |candidates| <= |colors|
    ensures forall i :: 0 <= i < |colors| ==> Q.QuantizedColor(colors[i], QuantizationVector(rate)) in candidates
    ensures forall c :: c in candidates ==> c in QuantizedAll(colors, rate)
  {
    var bits := QuantizationVector(rate);
    candidates := [];
    for i := 0 to |colors|
      invariant candidates == QuantizedAll(colors[..i], rate)
    {
      var v := Q.QuantizeVector(colors[i], bits);
      assert v.elements == Q.QuantizedColor(colors[i], bits).elements;
      candidates := candidates + [v];
    }
    assert colors[..|colors|] == colors;
  }

  /** What `CreateQuantizedSet(colors, rate)` may return: every quantized
      colour, nothing else, and no more entries than colours. */
  ghost predicate IsQuantizedSet(colors: seq<Color>, rate: byte, s: seq<Color>)
  {
    |s| <= |colors| &&
    (forall i :: 0 <= i < |colors| ==> Q.QuantizedColor(colors[i], QuantizationVector(rate)) in s) &&
    (forall c :: c in s ==> c in QuantizedAll(colors, rate))
  }

  /** The search `GetInitialPalette` went through: the rate it settled on,
      the sets it built while searching (tried[k] at rate k + 1), the set it
      ran Kruskal on, and the clusters Kruskal returned. */
  datatype InitialSearch = InitialSearch(rate: nat, tried: seq<seq<Color>>, quantizedSet: seq<Color>, clusters: seq<seq<Color>>)

  /** The rate rule and the result of `GetInitialPalette`: rates 1, 2, ...
      are tried while their set has fewer than paletteSize entries, up to
      rate 7; the rate is the first whose set is large enough, or 8 when none
      is. The palette is the mean of every Kruskal cluster of a fresh set at
      that rate. */
  ghost predicate InitialPaletteFrom(paletteSize: int, colors: seq<Color>, palette: seq<Color>, t: InitialSearch)
  {
    1 <= t.rate <= 8 &&
    |t.tried| == (if t.rate == 8 then 7 else t.rate) &&
    (forall k :: 0 <= k < |t.tried| ==> IsQuantizedSet(colors, k + 1, t.tried[k])) &&
    (forall k :: 0 <= k < t.rate - 1 ==> |t.tried[k]| < paletteSize) &&
    (t.rate <= 7 ==> |t.tried[t.rate - 1]| >= paletteSize) &&
    IsQuantizedSet(colors, t.rate, t.quantizedSet) &&
    |t.quantizedSet| <= INT32_MAX &&
    t.clusters == KruskalClusters(paletteSize, t.quantizedSet) &&
    |palette| == |t.clusters| &&
    forall g :: 0 <= g < |palette| ==> |t.clusters[g]| > 0 && palette[g] == Mean(t.clusters[g])
  }

  /** `GetInitialPalette(paletteSize, colors)`: the smallest bit rate 1..7
      whose quantized set has at least paletteSize entries (rate 8, the
      identity, if none has), then Kruskal on a fresh set at that rate. */
  method GetInitialPalette(paletteSize: int, colors: seq<Color>) returns (palette: seq<Color>, ghost t: InitialSearch)
    requires |colors| <= INT32_MAX
    ensures InitialPaletteFrom(paletteSize, colors, palette, t)
    ensures |colors| == 0 ==> |t.quantizedSet| == 0
    ensures |colors| > 0 ==> 1 <= |t.quantizedSet| <= |colors|
    ensures |palette| == KruskalSize(paletteSize, |t.quantizedSet|)
  {
    var rate, tried := ChooseRate(paletteSize, colors);
    var quantizedSet := CreateQuantizedSet(colors, rate);
    if |colors| > 0 {
      assert Q.QuantizedColor(colors[0], QuantizationVector(rate)) in quantizedSet;
    }
    ghost var clusters;
    palette, clusters := SolveByKruskal(paletteSize, quantizedSet);
    t := InitialSearch(rate as nat, tried, quantizedSet, clusters);
  }

  /** The rate loop of `GetInitialPalette`: try rates 1, 2, ... up to 7 and
      stop at the first whose quantized set has at least paletteSize
      entries; the loop counter ends at 8 when none has. The sets it builds
      are returned as ghost `tried`. */
  method ChooseRate(paletteSize: int, colors: seq<Color>) returns (rate: byte, ghost tried: seq<seq<Color>>)
    ensures 1 <= rate <= 8
    ensures |tried| == (if rate == 8 then 7 else rate as int)
    ensures forall k :: 0 <= k < |tried| ==> IsQuantizedSet(colors, k + 1, tried[k])
    ensures forall k :: 0 <= k < rate as int - 1 ==> |tried[k]| < paletteSize
    ensures rate <= 7 ==> |tried[rate - 1]| >= paletteSize
  {
    rate := 1;
    tried := [];
    while rate <= 7
      invariant 1 <= rate <= 8 && |tried| == rate as int - 1
      invariant forall k :: 0 <= k < |tried| ==> IsQuantizedSet(colors, k + 1, tried[k]) && |tried[k]| < paletteSize
    {
      var candidates := CreateQuantizedSet(colors, rate);
      TriedStep(colors, tried, rate, candidates);
      tried := tried + [candidates];
      if |candidates| >= paletteSize {
        return;
      }
      rate := rate + 1;
    }
  }


  /** Appending the set built at rate |tried| + 1 keeps every tried set at its rate. */
  lemma TriedStep(colors: seq<Color>, tried: seq<seq<Color>>, rate: byte, s: seq<Color>)
    requires |tried| + 1 == rate as int && IsQuantizedSet(colors, rate, s)
    requires forall k :: 0 <= k < |tried| ==> IsQuantizedSet(colors, k + 1, tried[k])
    ensures forall k :: 0 <= k < |tried| + 1 ==> IsQuantizedSet(colors, k + 1, (tried + [s])[k])
  {
    forall k | 0 <= k < |tried| + 1
      ensures IsQuantizedSet(colors, k + 1, (tried + [s])[k])
    {
      if k < |tried| {
        assert (tried + [s])[k] == tried[k];
      }
    }
  }

  /** One assign-and-update round as a value: every entry moves to the mean
      of the colours nearest to it; an entry no colour is nearest to stays. */
  function Refine(colors: seq<Color>, palette: seq<Color>): (next: seq<Color>)
    ensures |next| == |palette|
  {
    if |palette| == 0 then []
    else
      seq(|palette|, s requires 0 <= s < |palette| =>
        if |SiteOf(colors, palette, s)| > 0 then Mean(SiteOf(colors, palette, s)) else palette[s])
  }

  /** The palette after k rounds. */
  function Refined(colors: seq<Color>, palette: seq<Color>, k: nat): (r: seq<Color>)
    ensures |r| == |palette|
  {
    if k == 0 then palette else Refine(colors, Refined(colors, palette, k - 1))
  }

  /** Component c of every colour in cs lies in [lo, hi]. */
  ghost predicate InBox(cs: seq<Color>, c: nat, lo: int, hi: int)
    requires c < 3
  {
    forall i :: 0 <= i < |cs| ==> lo <= cs[i].At(c) <= hi
  }

  /** The rounds never move an entry out of a box that holds every colour
      and every initial entry, as long as the sums cannot wrap (at most
      MaxExactCluster colours). */
  lemma {:induction false} RefinedStaysInBox(colors: seq<Color>, palette: seq<Color>, k: nat, c: nat, lo: int, hi: int)
    requires c < 3 && 0 <= lo && |colors| <= MaxExactCluster
    requires InBox(colors, c, lo, hi) && InBox(palette, c, lo, hi)
    ensures InBox(Refined(colors, palette, k), c, lo, hi)
  {
    if k > 0 {
      RefinedStaysInBox(colors, palette, k - 1, c, lo, hi);
      RefineStaysInBox(colors, Refined(colors, palette, k - 1), c, lo, hi);
    }
  }

  /** One round keeps the box. */
  lemma RefineStaysInBox(colors: seq<Color>, palette: seq<Color>, c: nat, lo: int, hi: int)
    requires c < 3 && 0 <= lo && |colors| <= MaxExactCluster
    requires InBox(colors, c, lo, hi) && InBox(palette, c, lo, hi)
    ensures InBox(Refine(colors, palette), c, lo, hi)
  {
    var next := Refine(colors, palette);
    forall s | 0 <= s < |next|
      ensures lo <= next[s].At(c) <= hi
    {
      var site := SiteOf(colors, palette, s);
      if |site| > 0 {
        SitesPartition(colors, palette, s);
        forall i | 0 <= i < |site|
          ensures lo <= site[i].At(c) <= hi
        {
          assert site[i] in colors;
        }
        MeanBetween(site, c, lo, hi);
      }
    }
  }

  /** `Build(paletteSize, colors, out palette)`: the initial palette, which
      must have exactly paletteSize entries ("WTF" otherwise), then five
      rounds of assigning colours to their nearest entry and moving each
      entry to its colours' mean; finally every colour is replaced by its
      nearest entry. By `KruskalSize`, Build fails exactly when the initial
      palette does not come out at paletteSize entries. */
  method Build(paletteSize: int, colors: seq<Color>) returns (r: Result<seq<Color>>, palette: seq<Color>, ghost initial: seq<Color>, ghost t: InitialSearch)
    requires |colors| <= INT32_MAX
    ensures InitialPaletteFrom(paletteSize, colors, initial, t)
    ensures |colors| == 0 ==> |t.quantizedSet| == 0
    ensures |colors| > 0 ==> 1 <= |t.quantizedSet| <= |colors|
    ensures |initial| == KruskalSize(paletteSize, |t.quantizedSet|)
    ensures r.Err? <==> paletteSize != |initial|
    ensures r.Err? ==> r.error == InvalidState("WTF")
    ensures r.Ok? ==> palette == Refined(colors, initial, IterationsCount)
    ensures r.Ok? ==> |palette| == paletteSize && |r.value| == |colors|
    ensures r.Ok? ==> forall i :: 0 <= i < |colors| ==> 0 < |palette| && r.value[i] == palette[Nearest(colors[i], palette)]
  {
    palette, t := GetInitialPalette(paletteSize, colors);
    initial := palette;
    if paletteSize != |palette| {
      r := Err(InvalidState("WTF"));
      return;
    }
    palette := RefineRounds(colors, palette);
    r := EncodeByPalette(colors, palette);
  }

  /** The `for (it ...)` loop of `Build`: `iterationsCount` rounds of
      assigning every colour to its site and moving the entries. */
  method RefineRounds(colors: seq<Color>, initial: seq<Color>) returns (palette: seq<Color>)
    requires |initial| > 0 || |colors| == 0
    ensures palette == Refined(colors, initial, IterationsCount)
  {
    palette := initial;
    for it := 0 to IterationsCount
      invariant palette == Refined(colors, initial, it)
    {
      var sites := AssignToSites(colors, palette);
      var next := UpdatePalette(palette, sites);
      RoundIsRefine(colors, palette, sites, next);
      palette := next;
    }
  }

  /** Assigning to sites and then updating the entries is one `Refine`. */
  lemma RoundIsRefine(colors: seq<Color>, palette: seq<Color>, sites: seq<seq<Color>>, next: seq<Color>)
    requires |palette| > 0 || |colors| == 0
    requires |sites| == |palette| && forall s :: 0 <= s < |palette| ==> sites[s] == SiteOf(colors, palette, s)
    requires |next| == |palette|
    requires forall i :: 0 <= i < |palette| ==> next[i] == if |sites[i]| > 0 then Mean(sites[i]) else palette[i]
    ensures next == Refine(colors, palette)
  {
  }
}
