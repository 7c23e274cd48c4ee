/** MedianCut (Algorithms/MedianCutting/MedianCut.cs): palette reduction by
    repeatedly cutting colour boxes at the median of their longest axis,
    using cumulative per-component histograms. */
module MedianCuts {
  import opened Common
  import opened Vectors
  import opened Grids
  import opened Segments
  import opened Cubes

  // ---------------------------------------------------------------------
  // The palette-size check `(palletSize & (palletSize - 1)) != 0`.
  // ---------------------------------------------------------------------

  /** u is a power of two. */
  predicate IsPow2(u: nat)
  {
    u == 1 || (u > 1 && u % 2 == 0 && IsPow2(u / 2))
  }

  lemma {:induction false} Pow2IsPow2(k: nat)
    ensures IsPow2(Pow2(k))
  {
    if k > 0 {
      Pow2IsPow2(k - 1);
      assert Pow2(k) / 2 == Pow2(k - 1);
    }
  }

  /** No power of two lies strictly between 2^k and 2^(k+1). */
  lemma {:induction false} Pow2Gap(u: nat, k: nat)
    requires IsPow2(u) && Pow2(k) < u
    ensures u >= Pow2(k + 1)
  {
    if k > 0 {
      Pow2Gap(u / 2, k - 1);
    }
  }

  /** Bitwise AND of two non-negative integers, bit by bit from the lowest. */
  function BitAnd(a: nat, b: nat): nat
  {
    if a == 0 || b == 0 then 0
    else 2 * BitAnd(a / 2, b / 2) + (if a % 2 == 1 && b % 2 == 1 then 1 else 0)
  }

  /** `(palletSize & (palletSize - 1)) == 0`, in 32-bit two's complement. */
  predicate SizeCheckPasses(p: int32)
  {
    BitAnd(Unsigned32(p), Unsigned32(Wrap32(p - 1))) == 0
  }

  lemma {:induction false} BitAndSelf(q: nat)
    ensures BitAnd(q, q) == q
  {
    if q > 0 {
      BitAndSelf(q / 2);
    }
  }

  /** u & (u - 1) clears the lowest set bit: it is zero exactly for powers of two. */
  lemma {:induction false} BitAndPredecessor(u: nat)
    requires u >= 1
    ensures BitAnd(u, u - 1) == 0 <==> IsPow2(u)
  {
    if u > 1 {
      if u % 2 == 0 {
        assert (u - 1) / 2 == u / 2 - 1;
        BitAndPredecessor(u / 2);
      } else {
        assert (u - 1) / 2 == u / 2;
        BitAndSelf(u / 2);
      }
    }
  }

  lemma SizeCheckPositive(p: int32)
    requires p > 0
    ensures SizeCheckPasses(p) <==> IsPow2(p)
  {
    assert Unsigned32(Wrap32(p - 1)) == p - 1;
    BitAndPredecessor(p);
  }

  lemma SizeCheckMinValue()
    ensures SizeCheckPasses(INT32_MIN)
  {
    var u: nat := 0x8000_0000;
    assert Unsigned32(INT32_MIN) == u && Unsigned32(Wrap32(INT32_MIN - 1)) == u - 1;
    Pow2Words();
    Pow2IsPow2(31);
    BitAndPredecessor(u);
  }

  lemma SizeCheckNegative(p: int32)
    requires INT32_MIN < p < 0
    ensures !SizeCheckPasses(p)
  {
    var u := Unsigned32(p);
    assert Unsigned32(Wrap32(p - 1)) == u - 1;
    BitAndPredecessor(u);
    if IsPow2(u) {
      Pow2Words();
      Pow2Gap(u, 31);
    }
  }

  /** The check lets through exactly 0, the powers of two, and int.MinValue
      (whose predecessor wraps around to int.MaxValue). */
  lemma SizeCheckExactly(p: int32)
    ensures SizeCheckPasses(p) <==> p == 0 || p == INT32_MIN || (p > 0 && IsPow2(p))
  {
    if p > 0 {
      SizeCheckPositive(p);
    } else if p == INT32_MIN {
      SizeCheckMinValue();
    } else if p < 0 {
      SizeCheckNegative(p);
    }
  }

  // ---------------------------------------------------------------------
  // GetStatistics: cumulative histograms and the bounding cube.
  // ---------------------------------------------------------------------

  /** How many colours have component k equal to j. */
  function CountEq(colors: seq<Color>, k: nat, j: int): (n: nat)
    requires k < 3
    ensures n <= |colors|
  {
    if |colors| == 0 then 0
    else CountEq(colors[..|colors| - 1], k, j) + (if colors[|colors| - 1].At(k) == j then 1 else 0)
  }

  /** How many colours have component k at most j. */
  function CountAtMost(colors: seq<Color>, k: nat, j: int): (n: nat)
    requires k < 3
    ensures n <= |colors|
  {
    if |colors| == 0 then 0
    else CountAtMost(colors[..|colors| - 1], k, j) + (if colors[|colors| - 1].At(k) <= j then 1 else 0)
  }

  /** `Math.Min` over component k, starting from 300. */
  function MinComponent(colors: seq<Color>, k: nat): int
    requires k < 3
  {
    if |colors| == 0 then 300
    else
      var m := MinComponent(colors[..|colors| - 1], k);
      if colors[|colors| - 1].At(k) < m then colors[|colors| - 1].At(k) else m
  }

  /** `Math.Max` over component k, starting from 0. */
  function MaxComponent(colors: seq<Color>, k: nat): int
    requires k < 3
  {
    if |colors| == 0 then 0
    else
      var m := MaxComponent(colors[..|colors| - 1], k);
      if colors[|colors| - 1].At(k) > m then colors[|colors| - 1].At(k) else m
  }

  /** The statistics GetStatistics returns: counts[i][j] is the number of
      colours whose component i is at most j. */
  function Histogram(colors: seq<Color>): (h: seq<seq<int>>)
    ensures |h| == 3 && forall i :: 0 <= i < 3 ==> |h[i]| == 256
  {
    seq(3, i requires 0 <= i < 3 => seq(256, j => CountAtMost(colors, i, j)))
  }

  /** The cube GetStatistics returns: component-wise min/max box. */
  function InitialCube(colors: seq<Color>): Cube
  {
    Cube(Segment(MinComponent(colors, 0), MaxComponent(colors, 0)),
         Segment(MinComponent(colors, 1), MaxComponent(colors, 1)),
         Segment(MinComponent(colors, 2), MaxComponent(colors, 2)))
  }

  /** A prefix sum step: colours with component at most j are those at most
      j - 1 plus those equal to j. */
  lemma {:induction false} CountAtMostStep(colors: seq<Color>, k: nat, j: int)
    requires k < 3
    ensures CountAtMost(colors, k, j) == CountAtMost(colors, k, j - 1) + CountEq(colors, k, j)
  {
    if |colors| > 0 {
      CountAtMostStep(colors[..|colors| - 1], k, j);
    }
  }

  /** Below the smallest byte nothing is counted. */
  lemma {:induction false} CountBelowZero(colors: seq<Color>, k: nat)
    requires k < 3
    ensures CountAtMost(colors, k, -1) == 0
  {
    if |colors| > 0 {
      CountBelowZero(colors[..|colors| - 1], k);
    }
  }

  /** The cumulative histogram is non-decreasing and ends at the colour count. */
  lemma {:induction false} HistogramFacts(colors: seq<Color>, k: nat, j1: int, j2: int)
    requires k < 3 && j1 <= j2
    ensures CountAtMost(colors, k, j1) <= CountAtMost(colors, k, j2)
    ensures CountAtMost(colors, k, 255) == |colors|
  {
    if |colors| > 0 {
      HistogramFacts(colors[..|colors| - 1], k, j1, j2);
    }
  }

  /** Every colour lies in the initial cube; with no colours the cube is
      [300, 0] on every axis, an empty box. */
  lemma {:induction false} InitialCubeContainsAll(colors: seq<Color>, x: nat)
    requires x < |colors|
    ensures InitialCube(colors).Contains(colors[x])
    ensures forall k :: 0 <= k < 3 ==> 0 <= InitialCube(colors).Axis(k).start <= InitialCube(colors).Axis(k).end < 256
  {
    forall k | 0 <= k < 3
      ensures MinComponent(colors, k) <= colors[x].At(k) <= MaxComponent(colors, k)
      ensures 0 <= MinComponent(colors, k) <= MaxComponent(colors, k) < 256
    {
      ComponentBounds(colors, k, x);
    }
  }

  lemma {:induction false} ComponentBounds(colors: seq<Color>, k: nat, x: nat)
    requires k < 3 && x < |colors|
    ensures MinComponent(colors, k) <= colors[x].At(k) <= MaxComponent(colors, k)
    ensures 0 <= MinComponent(colors, k) <= MaxComponent(colors, k) < 256
  {
    var last := |colors| - 1;
    if x < last {
      ComponentBounds(colors[..last], k, x);
    } else if last > 0 {
      ComponentBounds(colors[..last], k, 0);
    }
  }

  lemma PrefixCounts(colors: seq<Color>, n: nat, k: nat, j: int)
    requires n < |colors| && k < 3
    ensures CountEq(colors[..n + 1], k, j) == CountEq(colors[..n], k, j) + (if colors[n].At(k) == j then 1 else 0)
    ensures MinComponent(colors[..n + 1], k) == if colors[n].At(k) < MinComponent(colors[..n], k) then colors[n].At(k) else MinComponent(colors[..n], k)
    ensures MaxComponent(colors[..n + 1], k) == if colors[n].At(k) > MaxComponent(colors[..n], k) then colors[n].At(k) else MaxComponent(colors[..n], k)
  {
    assert colors[..n + 1][..n] == colors[..n];
  }

  /** The body of the counting loop for one colour: bump its three counters
      and widen the running minimum and maximum. */
  method Tally(counts: array2<int>, mins: array<int>, maxs: array<int>, colors: seq<Color>, n: nat)
    requires counts.Length0 == 3 && counts.Length1 == 256 && mins.Length == 3 && maxs.Length == 3 && mins != maxs
    requires n < |colors|
    requires forall i, j :: 0 <= i < 3 && 0 <= j < 256 ==> counts[i, j] == CountEq(colors[..n], i, j)
    requires forall i :: 0 <= i < 3 ==> mins[i] == MinComponent(colors[..n], i) && maxs[i] == MaxComponent(colors[..n], i)
    modifies counts, mins, maxs
    ensures forall i, j :: 0 <= i < 3 && 0 <= j < 256 ==> counts[i, j] == CountEq(colors[..n + 1], i, j)
    ensures forall i :: 0 <= i < 3 ==> mins[i] == MinComponent(colors[..n + 1], i) && maxs[i] == MaxComponent(colors[..n + 1], i)
  {
    for i := 0 to 3
      invariant forall i', j :: 0 <= i' < 3 && 0 <= j < 256 ==>
        counts[i', j] == CountEq(colors[..n], i', j) + (if i' < i && colors[n].At(i') == j then 1 else 0)
      invariant forall i' :: 0 <= i' < i ==>
        mins[i'] == MinComponent(colors[..n + 1], i') && maxs[i'] == MaxComponent(colors[..n + 1], i')
      invariant forall i' :: i <= i' < 3 ==>
        mins[i'] == MinComponent(colors[..n], i') && maxs[i'] == MaxComponent(colors[..n], i')
    {
      PrefixCounts(colors, n, i, 0);
      var c := colors[n].At(i);
      counts[i, c] := counts[i, c] + 1;
      maxs[i] := if maxs[i] > c then maxs[i] else c;    // Math.Max
      mins[i] := if mins[i] < c then mins[i] else c;    // Math.Min
    }
    forall i, j | 0 <= i < 3 && 0 <= j < 256
      ensures counts[i, j] == CountEq(colors[..n + 1], i, j)
    {
      PrefixCounts(colors, n, i, j);
    }
  }

  /** The prefix-sum loop for row i: `counts[i][j] += counts[i][j - 1]`. */
  method Accumulate(counts: array2<int>, colors: seq<Color>, i: nat)
    requires counts.Length0 == 3 && counts.Length1 == 256 && i < 3
    requires forall j :: 0 <= j < 256 ==> counts[i, j] == CountEq(colors, i, j)
    modifies counts
    ensures forall j :: 0 <= j < 256 ==> counts[i, j] == CountAtMost(colors, i, j)
    ensures forall i', j :: 0 <= i' < 3 && i' != i && 0 <= j < 256 ==> counts[i', j] == old(counts[i', j])
  {
    CountAtMostStep(colors, i, 0);
    CountBelowZero(colors, i);
    for j := 1 to 256
      invariant forall j' :: 0 <= j' < 256 ==>
        counts[i, j'] == if j' < j then CountAtMost(colors, i, j') else CountEq(colors, i, j')
      invariant forall i', j' :: 0 <= i' < 3 && i' != i && 0 <= j' < 256 ==> counts[i', j'] == old(counts[i', j'])
    {
      CountAtMostStep(colors, i, j);
      counts[i, j] := counts[i, j] + counts[i, j - 1];
    }
  }

  /** `GetStatistics(colors, out cube)`: count every component value, note
      the component-wise minimum (from 300) and maximum (from 0), then turn
      each count row into prefix sums in place. */
  method GetStatistics(colors: seq<Color>) returns (counts: array2<int>, cube: Cube)
    ensures fresh(counts) && counts.Length0 == 3 && counts.Length1 == 256
    ensures Cells(counts) == Histogram(colors)
    ensures cube == InitialCube(colors)
  {
    counts := new int[3, 256]((i, j) => 0);
    var mins := new int[3](_ => 300);
    var maxs := new int[3](_ => 0);
    for n := 0 to |colors|
      invariant forall i, j :: 0 <= i < 3 && 0 <= j < 256 ==> counts[i, j] == CountEq(colors[..n], i, j)
      invariant forall i :: 0 <= i < 3 ==> mins[i] == MinComponent(colors[..n], i) && maxs[i] == MaxComponent(colors[..n], i)
    {
      Tally(counts, mins, maxs, colors, n);
    }
    assert colors[..|colors|] == colors;
    cube := Cube(Segment(mins[0], maxs[0]), Segment(mins[1], maxs[1]), Segment(mins[2], maxs[2]));
    for i := 0 to 3
      invariant forall i', j :: 0 <= i' < 3 && 0 <= j < 256 ==>
        counts[i', j] == if i' < i then CountAtMost(colors, i', j) else CountEq(colors, i', j)
    {
      Accumulate(counts, colors, i);
    }
    RectExtensional(Cells(counts), Histogram(colors), 3, 256);
  }

  // ---------------------------------------------------------------------
  // BinarySearch, SplitCube, GetCubeMedian.
  // ---------------------------------------------------------------------

  /** The `while (l + 1 < r)` loop of BinarySearch, as a recursion on (l, r). */
  function SearchFrom(row: seq<int>, l: int, h: int, toFind: int): int
    requires 0 <= l < |row| && 0 <= h < |row|
    decreases h - l
  {
    if l + 1 < h then
      var m := (l + h) / 2;
      if row[m] < toFind then SearchFrom(row, m, h, toFind) else SearchFrom(row, l, m, toFind)
    else l
  }

  /** The loop keeps l < r, with row[l] below the target unless l is still
      Start and row[r] at or above it unless r is still End; it stops with
      r == l + 1. */
  lemma {:induction false} SearchFromBrackets(row: seq<int>, l: int, h: int, toFind: int, start: int, end: int)
    requires 0 <= l < h < |row| && start <= l && h <= end
    requires l == start || row[l] < toFind
    requires h == end || row[h] >= toFind
    ensures l <= SearchFrom(row, l, h, toFind) < h
    ensures var i := SearchFrom(row, l, h, toFind);
            (i == start || row[i] < toFind) && (i + 1 == end || row[i + 1] >= toFind)
    decreases h - l
  {
    if l + 1 < h {
      var m := (l + h) / 2;
      if row[m] < toFind {
        SearchFromBrackets(row, m, h, toFind, start, end);
      } else {
        SearchFromBrackets(row, l, m, toFind, start, end);
      }
    }
  }

  /** The value BinarySearch looks for: the mean of the two end counts, their
      sum taken as an unchecked int (it wraps once it passes Int32.MaxValue)
      and halved with truncation. */
  function Target(row: seq<int>, segment: Segment): int
    requires 0 <= segment.start < |row| && 0 <= segment.end < |row|
  {
    TruncDiv(Wrap32(row[segment.start] + row[segment.end]), 2)
  }

  /** While the two end counts stay below 2^30 (fewer than 2^30 colours), the
      sum does not wrap and the target is the exact (floored) mean of the two
      counts. */
  lemma TargetIsMean(row: seq<int>, segment: Segment)
    requires 0 <= segment.start < |row| && 0 <= segment.end < |row|
    requires 0 <= row[segment.start] < 0x4000_0000 && 0 <= row[segment.end] < 0x4000_0000
    ensures Target(row, segment) == (row[segment.start] + row[segment.end]) / 2
    ensures 2 * Target(row, segment) <= row[segment.start] + row[segment.end] <= 2 * Target(row, segment) + 1
  {
    var sum := row[segment.start] + row[segment.end];
    assert Wrap32(sum) == sum;
  }

  /** From 2^30 colours on the sum can wrap: on the cumulative counts
      [2^30, 2^30, 2^30 + 2] the target is negative and the search stops at 0,
      where the exact mean 2^30 + 1 would stop it at 1. */
  lemma SearchWrapsPastLimit()
    ensures var row := [0x4000_0000, 0x4000_0000, 0x4000_0002];
            Target(row, Segment(0, 2)) == -1073741823 &&
            Search(row, Segment(0, 2)) == Ok(0) &&
            SearchFrom(row, 0, 2, (row[0] + row[2]) / 2) == 1
  {
    var row := [0x4000_0000, 0x4000_0000, 0x4000_0002];
    assert Wrap32(0x8000_0002) == -2147483646;
    assert TruncDiv(-2147483646, 2) == -1073741823;
    assert SearchFrom(row, 0, 1, -1073741823) == 0;
    assert SearchFrom(row, 1, 2, 0x4000_0001) == 1;
  }

  /** `BinarySearch(array, segment)`. Reading array[Start] and array[End]
      throws unless both are in range. On a non-empty segment with more than
      one value the result l satisfies Start <= l < End, with the counts
      crossing the target between l and l + 1; otherwise it is Start. On a
      cumulative histogram that makes l the median cut of the segment. */
  function Search(row: seq<int>, segment: Segment): (r: Result<int>)
    ensures r.Ok? <==> 0 <= segment.start < |row| && 0 <= segment.end < |row|
    ensures r.Err? ==> r.error == IndexOutOfRange
    ensures r.Ok? && segment.start >= segment.end ==> r.value == segment.start
    ensures r.Ok? && segment.start < segment.end ==>
      segment.start <= r.value < segment.end &&
      (r.value == segment.start || row[r.value] < Target(row, segment)) &&
      (r.value + 1 == segment.end || row[r.value + 1] >= Target(row, segment))
  {
    if 0 <= segment.start < |row| && 0 <= segment.end < |row| then
      var toFind := Target(row, segment);
      if segment.start < segment.end then
        SearchFromBrackets(row, segment.start, segment.end, toFind, segment.start, segment.end);
        Ok(SearchFrom(row, segment.start, segment.end, toFind))
      else
        Ok(SearchFrom(row, segment.start, segment.end, toFind))
    else
      Err(IndexOutOfRange)
  }

  /** The search loop itself, over row `axis` of the statistics. */
  method BinarySearch(stats: array2<int>, axis: nat, segment: Segment) returns (r: Result<int>)
    requires axis < stats.Length0
    ensures r == Search(Cells(stats)[axis], segment)
  {
    ghost var row := Cells(stats)[axis];
    if !(0 <= segment.start < stats.Length1 && 0 <= segment.end < stats.Length1) {
      return Err(IndexOutOfRange);
    }
    var l, h := segment.start, segment.end;
    var toFind := TruncDiv(Wrap32(stats[axis, l] + stats[axis, h]), 2);
    assert toFind == Target(row, segment);
    while l + 1 < h
      invariant 0 <= l < stats.Length1 && 0 <= h < stats.Length1
      invariant SearchFrom(row, l, h, toFind) == SearchFrom(row, segment.start, segment.end, toFind)
      decreases h - l
    {
      var m := (l + h) / 2;
      if stats[axis, m] < toFind {
        l := m;
      } else {
        h := m;
      }
    }
    r := Ok(l);
  }

  /** The axis SplitCube cuts: the longest one, ties going to x, then y. */
  function LongestAxis(cube: Cube): (k: nat)
    ensures k < 3
    ensures forall i :: 0 <= i < 3 ==> cube.Axis(i).Length() <= cube.Axis(k).Length()
    ensures forall i :: 0 <= i < k ==> cube.Axis(i).Length() < cube.Axis(k).Length()
  {
    if cube.ox.Length() >= cube.oy.Length() && cube.ox.Length() >= cube.oz.Length() then 0
    else if cube.oy.Length() >= cube.ox.Length() && cube.oy.Length() >= cube.oz.Length() then 1
    else 2
  }

  /** `SplitCube(stats, cube, out cube1, out cube2)`: cut the longest axis
      [S, E] at its median index into [S, index] and [index + 1, E], the
      other two segments staying as they are. */
  function SplitCube(stats: seq<seq<int>>, cube: Cube): (r: Result<(Cube, Cube)>)
    requires |stats| == 3
    ensures var k := LongestAxis(cube);
            var s := Search(stats[k], cube.Axis(k));
            (r.Ok? <==> s.Ok?) &&
            (r.Err? ==> r.error == IndexOutOfRange) &&
            (r.Ok? ==> r.value.0 == cube.WithAxis(k, Segment(cube.Axis(k).start, s.value)) &&
                       r.value.1 == cube.WithAxis(k, Segment(s.value + 1, cube.Axis(k).end)))
  {
    var k := LongestAxis(cube);
    var index :- Search(stats[k], cube.Axis(k));
    Ok((cube.WithAxis(k, Segment(cube.Axis(k).start, index)),
        cube.WithAxis(k, Segment(index + 1, cube.Axis(k).end))))
  }

  /** Splitting covers: every colour of a cube lies in exactly one half; and
      when the cut axis is not empty, the halves hold nothing else. */
  lemma SplitCubePartitions(stats: seq<seq<int>>, cube: Cube, color: Color)
    requires |stats| == 3 && SplitCube(stats, cube).Ok?
    ensures var (c1, c2) := SplitCube(stats, cube).value;
            (cube.Contains(color) ==> c1.Contains(color) != c2.Contains(color)) &&
            (cube.Axis(LongestAxis(cube)).start <= cube.Axis(LongestAxis(cube)).end ==>
              (c1.Contains(color) || c2.Contains(color)) ==> cube.Contains(color))
  {
    var k := LongestAxis(cube);
    SplitPartitionsCube(cube, k, Search(stats[k], cube.Axis(k)).value, color);
  }

  /** The two halves' lengths along the cut axis add up to the cube's. */
  lemma SplitCubeLengths(stats: seq<seq<int>>, cube: Cube)
    requires |stats| == 3 && SplitCube(stats, cube).Ok?
    ensures var k := LongestAxis(cube);
            SplitCube(stats, cube).value.0.Axis(k).Length() + SplitCube(stats, cube).value.1.Axis(k).Length() ==
            cube.Axis(k).Length()
  {
    var k := LongestAxis(cube);
    SplitLengths(cube.Axis(k), Search(stats[k], cube.Axis(k)).value);
  }

  /** `GetCubeMedian(stats, cube)`: the median index along each axis, as
      bytes. As written, the third component searches stats[2] over cube.Oy,
      not cube.Oz: the cube's Oz segment is never consulted. */
  function CubeMedian(stats: seq<seq<int>>, cube: Cube): (r: Result<Color>)
    requires |stats| == 3 && forall i :: 0 <= i < 3 ==> |stats[i]| == 256
    ensures r.Ok? <==> 0 <= cube.ox.start < 256 && 0 <= cube.ox.end < 256 && 0 <= cube.oy.start < 256 && 0 <= cube.oy.end < 256
    ensures r.Err? ==> r.error == IndexOutOfRange
    ensures r.Ok? && cube.ox.start <= cube.ox.end ==> cube.ox.Holds(r.value.At(0))
    ensures r.Ok? && cube.oy.start <= cube.oy.end ==> cube.oy.Holds(r.value.At(1)) && cube.oy.Holds(r.value.At(2))
  {
    var indexR :- Search(stats[0], cube.ox);
    var indexG :- Search(stats[1], cube.oy);
    var indexB :- Search(stats[2], cube.oy);
    Ok(Rgb(WrapByte(indexR), WrapByte(indexG), WrapByte(indexB)))
  }

  /** The median does not depend on the cube's third segment. */
  lemma MedianIgnoresOz(stats: seq<seq<int>>, cube: Cube, oz: Segment)
    requires |stats| == 3 && forall i :: 0 <= i < 3 ==> |stats[i]| == 256
    ensures CubeMedian(stats, cube) == CubeMedian(stats, cube.(oz := oz))
  {
  }

  // ---------------------------------------------------------------------
  // Build.
  // ---------------------------------------------------------------------


  const PowerOfTwoMessage := "Pallet size must be power of 2"

  /** Some cube of the list contains the colour. */
  ghost predicate Covered(cubes: seq<Cube>, color: Color)
  {
    exists j :: 0 <= j < |cubes| && cubes[j].Contains(color)
  }

  /** No colour lies in two cubes of the list. */
  ghost predicate Disjoint(cubes: seq<Cube>)
  {
    forall i, j, color :: 0 <= i < |cubes| && 0 <= j < |cubes| && i != j && cubes[i].Contains(color) ==>
      !cubes[j].Contains(color)
  }

  /** No cube occurs twice in the list. */
  predicate Distinct(cubes: seq<Cube>)
  {
    forall i, j :: 0 <= i < j < |cubes| ==> cubes[i] != cubes[j]
  }

  /** A list stays free of repeats exactly when the added cube is new. */
  lemma DistinctSnoc(s: seq<Cube>, c: Cube)
    ensures Distinct(s + [c]) <==> Distinct(s) && c !in s
  {
    if Distinct(s) && c !in s {
      forall i, j | 0 <= i < j < |s + [c]|
        ensures (s + [c])[i] != (s + [c])[j]
      {
        if j == |s| {
          assert (s + [c])[i] == s[i];
        }
      }
    }
    if Distinct(s + [c]) {
      forall i | 0 <= i < |s|
        ensures s[i] != c
      {
        assert (s + [c])[i] == s[i] && (s + [c])[|s|] == c;
      }
      forall i, j | 0 <= i < j < |s|
        ensures s[i] != s[j]
      {
        assert (s + [c])[i] == s[i] && (s + [c])[j] == s[j];
      }
    }
  }

  /** The number of cubes Build ends with for a size that passes the check. */
  function CubeCount(p: int32): (n: nat)
    ensures p > 1 ==> n == p
    ensures n >= 1
  {
    if p <= 1 then 1 else p
  }

  /** Every cube of the list can be cut: its median search succeeds. */
  predicate AllSplit(stats: seq<seq<int>>, cubes: seq<Cube>)
    requires |stats| == 3
  {
    forall j :: 0 <= j < |cubes| ==> SplitCube(stats, cubes[j]).Ok?
  }

  /** The halves of the cubes, in order: entries 2j and 2j + 1 are the two
      halves of cube j. */
  function Halves(stats: seq<seq<int>>, cubes: seq<Cube>): (h: seq<Cube>)
    requires |stats| == 3 && AllSplit(stats, cubes)
    ensures |h| == 2 * |cubes|
    ensures forall j :: 0 <= j < |cubes| ==>
      h[2 * j] == SplitCube(stats, cubes[j]).value.0 && h[2 * j + 1] == SplitCube(stats, cubes[j]).value.1
    decreases |cubes|
  {
    if |cubes| == 0 then []
    else
      var halves := SplitCube(stats, cubes[|cubes| - 1]).value;
      Halves(stats, cubes[..|cubes| - 1]) + [halves.0, halves.1]
  }

  /** One round of the while loop as a value: the cubes are cut in order; a
      failed search throws IndexOutOfRange and a half already among the new
      cubes throws. A round that succeeds doubles the cubes. */
  function Round(stats: seq<seq<int>>, cubes: seq<Cube>): (r: Result<seq<Cube>>)
    requires |stats| == 3
    ensures r.Ok? ==> |r.value| == 2 * |cubes|
    ensures r.Err? ==> r.error == IndexOutOfRange || r.error == InvalidState("")
    decreases |cubes|
  {
    if |cubes| == 0 then Ok([])
    else
      var before :- Round(stats, cubes[..|cubes| - 1]);
      var halves :- SplitCube(stats, cubes[|cubes| - 1]);
      if halves.0 in before || halves.1 in before + [halves.0] then Err(InvalidState(""))
      else Ok(before + [halves.0, halves.1])
  }

  /** A round succeeds exactly when every cube can be cut and no half
      repeats another; it then yields the halves in order. */
  lemma {:induction false} RoundIsHalves(stats: seq<seq<int>>, cubes: seq<Cube>)
    requires |stats| == 3
    ensures Round(stats, cubes).Ok? <==> AllSplit(stats, cubes) && Distinct(Halves(stats, cubes))
    ensures Round(stats, cubes).Ok? ==> AllSplit(stats, cubes) && Round(stats, cubes).value == Halves(stats, cubes)
    decreases |cubes|
  {
    if |cubes| > 0 {
      var n := |cubes|;
      var init := cubes[..n - 1];
      RoundIsHalves(stats, init);
      assert forall j :: 0 <= j < n - 1 ==> init[j] == cubes[j];
      if AllSplit(stats, cubes) {
        assert AllSplit(stats, init);
        var halves := SplitCube(stats, cubes[n - 1]).value;
        assert Halves(stats, cubes) == Halves(stats, init) + [halves.0] + [halves.1];
        DistinctSnoc(Halves(stats, init), halves.0);
        DistinctSnoc(Halves(stats, init) + [halves.0], halves.1);
      }
    }
  }

  /** A failed prefix of a round is the failure of the whole round. */
  lemma {:induction false} RoundFailureSticks(stats: seq<seq<int>>, cubes: seq<Cube>, m: nat)
    requires |stats| == 3 && m <= |cubes| && Round(stats, cubes[..m]).Err?
    ensures Round(stats, cubes) == Round(stats, cubes[..m])
    decreases |cubes| - m
  {
    if m < |cubes| {
      var next := cubes[..m + 1];
      assert next[..m] == cubes[..m];
      RoundFailureSticks(stats, cubes, m + 1);
    } else {
      assert cubes[..m] == cubes;
    }
  }

  /** Cutting never adds a colour: a colour in either half is in the cube,
      and never in both halves. Even when the cut axis is empty, the other
      two axes are then empty as well, and so are both halves. */
  lemma HalvesInside(stats: seq<seq<int>>, cube: Cube, color: Color)
    requires |stats| == 3 && SplitCube(stats, cube).Ok?
    ensures var halves := SplitCube(stats, cube).value;
            (halves.0.Contains(color) || halves.1.Contains(color) ==> cube.Contains(color)) &&
            !(halves.0.Contains(color) && halves.1.Contains(color))
  {
    var k := LongestAxis(cube);
    var halves := SplitCube(stats, cube).value;
    if cube.Axis(k).start <= cube.Axis(k).end {
      SplitCubePartitions(stats, cube, color);
    } else {
      var i := if k == 0 then 1 else 0;
      assert cube.Axis(i).Length() <= cube.Axis(k).Length();
      EmptyCube(halves.0, i, color);
      EmptyCube(halves.1, i, color);
    }
  }

  /** Entry i of the halves is half i % 2 of cube i / 2. */
  lemma HalfAt(stats: seq<seq<int>>, cubes: seq<Cube>, i: nat)
    requires |stats| == 3 && AllSplit(stats, cubes) && i < 2 * |cubes|
    ensures i / 2 < |cubes|
    ensures Halves(stats, cubes)[i] ==
      if i % 2 == 0 then SplitCube(stats, cubes[i / 2]).value.0 else SplitCube(stats, cubes[i / 2]).value.1
  {
    var j := i / 2;
    if i % 2 == 0 {
      assert i == 2 * j;
    } else {
      assert i == 2 * j + 1;
    }
  }

  /** A round loses no colour and adds none. */
  lemma HalvesCover(stats: seq<seq<int>>, cubes: seq<Cube>, color: Color)
    requires |stats| == 3 && AllSplit(stats, cubes)
    ensures Covered(Halves(stats, cubes), color) <==> Covered(cubes, color)
  {
    var h := Halves(stats, cubes);
    if Covered(h, color) {
      var i :| 0 <= i < |h| && h[i].Contains(color);
      HalfAt(stats, cubes, i);
      HalvesInside(stats, cubes[i / 2], color);
    }
    if Covered(cubes, color) {
      var j :| 0 <= j < |cubes| && cubes[j].Contains(color);
      SplitCubePartitions(stats, cubes[j], color);
      if !h[2 * j].Contains(color) {
        assert h[2 * j + 1].Contains(color);
      }
    }
  }

  /** Cutting disjoint cubes gives disjoint cubes. */
  lemma HalvesDisjoint(stats: seq<seq<int>>, cubes: seq<Cube>)
    requires |stats| == 3 && AllSplit(stats, cubes) && Disjoint(cubes)
    ensures Disjoint(Halves(stats, cubes))
  {
    var h := Halves(stats, cubes);
    forall i, i', color | 0 <= i < |h| && 0 <= i' < |h| && i != i' && h[i].Contains(color)
      ensures !h[i'].Contains(color)
    {
      HalfAt(stats, cubes, i);
      HalfAt(stats, cubes, i');
      HalvesInside(stats, cubes[i / 2], color);
      HalvesInside(stats, cubes[i' / 2], color);
      if i / 2 == i' / 2 {
        assert i % 2 != i' % 2;
      }
    }
  }

  /** The while loop of Build as a value: while there are fewer than
      palletSize cubes, run one more round; a round that throws ends it. */
  function Doubling(stats: seq<seq<int>>, cubes: seq<Cube>, palletSize: int): (r: Result<seq<Cube>>)
    requires |stats| == 3 && |cubes| > 0
    ensures r.Ok? ==> |r.value| >= palletSize && |r.value| >= |cubes|
    ensures r.Err? ==> r.error == IndexOutOfRange || r.error == InvalidState("")
    decreases palletSize - |cubes|
  {
    if |cubes| >= palletSize then Ok(cubes)
    else
      var next :- Round(stats, cubes);
      Doubling(stats, next, palletSize)
  }

  /** The rounds together lose no colour, add none, and keep disjoint
      cubes disjoint. */
  lemma {:induction false} DoublingPartitions(stats: seq<seq<int>>, cubes: seq<Cube>, palletSize: int)
    requires |stats| == 3 && |cubes| > 0 && Doubling(stats, cubes, palletSize).Ok?
    ensures forall color :: Covered(Doubling(stats, cubes, palletSize).value, color) <==> Covered(cubes, color)
    ensures Disjoint(cubes) ==> Disjoint(Doubling(stats, cubes, palletSize).value)
    decreases palletSize - |cubes|
  {
    if |cubes| < palletSize {
      RoundIsHalves(stats, cubes);
      forall color
        ensures Covered(Halves(stats, cubes), color) <==> Covered(cubes, color)
      {
        HalvesCover(stats, cubes, color);
      }
      if Disjoint(cubes) {
        HalvesDisjoint(stats, cubes);
      }
      DoublingPartitions(stats, Round(stats, cubes).value, palletSize);
    }
  }

  /** Cutting cube c after a successful prefix of the round. */
  lemma RoundStep(stats: seq<seq<int>>, cubes: seq<Cube>, c: nat)
    requires |stats| == 3 && c < |cubes| && Round(stats, cubes[..c]).Ok?
    ensures var before := Round(stats, cubes[..c]).value;
            var split := SplitCube(stats, cubes[c]);
            Round(stats, cubes[..c + 1]) ==
              if split.Err? then Err(IndexOutOfRange)
              else if split.value.0 in before || split.value.1 in before + [split.value.0] then Err(InvalidState(""))
              else Ok(before + [split.value.0, split.value.1])
  {
    assert cubes[..c + 1][..c] == cubes[..c];
  }

  /** A round that succeeds keeps every colour in some cube, and a round
      whose first cube cannot be cut throws IndexOutOfRange. */
  lemma RoundCovers(stats: seq<seq<int>>, cubes: seq<Cube>)
    requires |stats| == 3
    ensures Round(stats, cubes).Ok? ==> forall color :: Covered(cubes, color) ==> Covered(Round(stats, cubes).value, color)
    ensures |cubes| > 0 && SplitCube(stats, cubes[0]).Err? ==> Round(stats, cubes) == Err(IndexOutOfRange)
  {
    RoundIsHalves(stats, cubes);
    if Round(stats, cubes).Ok? {
      forall color | Covered(cubes, color)
        ensures Covered(Round(stats, cubes).value, color)
      {
        HalvesCover(stats, cubes, color);
      }
    }
    if |cubes| > 0 && SplitCube(stats, cubes[0]).Err? {
      assert cubes[..1][..0] == [];
      RoundFailureSticks(stats, cubes, 1);
    }
  }

  /** Starting from one cube that holds all the colours, the rounds keep
      every colour in some cube. */
  lemma DoublingCovers(stats: seq<seq<int>>, initialCube: Cube, palletSize: int, colors: seq<Color>)
    requires |stats| == 3 && Doubling(stats, [initialCube], palletSize).Ok?
    requires forall x :: 0 <= x < |colors| ==> initialCube.Contains(colors[x])
    ensures forall x :: 0 <= x < |colors| ==> Covered(Doubling(stats, [initialCube], palletSize).value, colors[x])
  {
    DoublingPartitions(stats, [initialCube], palletSize);
    forall x | 0 <= x < |colors|
      ensures Covered([initialCube], colors[x])
    {
      assert [initialCube][0].Contains(colors[x]);
    }
  }

  /** Doubling from 2^k cubes, no more than the target, ends with exactly
      CubeCount(palletSize) cubes when palletSize is a power of two. */
  lemma {:induction false} DoublingCount(stats: seq<seq<int>>, cubes: seq<Cube>, palletSize: int32, k: nat)
    requires |stats| == 3 && (palletSize <= 1 || IsPow2(palletSize))
    requires |cubes| == Pow2(k) <= CubeCount(palletSize)
    requires Doubling(stats, cubes, palletSize).Ok?
    ensures |Doubling(stats, cubes, palletSize).value| == CubeCount(palletSize)
    decreases palletSize - |cubes|
  {
    if |cubes| < palletSize {
      Pow2Gap(palletSize, k);
      DoublingCount(stats, Round(stats, cubes).value, palletSize, k + 1);
    }
  }

  /** One round of the while loop: replace every cube by its two halves,
      refusing a half that is already in the new list. */
  method SplitAll(stats: seq<seq<int>>, cubes: seq<Cube>) returns (r: Result<seq<Cube>>)
    requires |stats| == 3
    ensures r == Round(stats, cubes)
    ensures r.Ok? <==> AllSplit(stats, cubes) && Distinct(Halves(stats, cubes))
    ensures r.Ok? ==> AllSplit(stats, cubes) && r.value == Halves(stats, cubes)
    ensures r.Ok? ==> |r.value| == 2 * |cubes|
    ensures r.Ok? ==> forall color :: Covered(cubes, color) ==> Covered(r.value, color)
    ensures r.Err? ==> r.error == IndexOutOfRange || r.error == InvalidState("")
    ensures |cubes| > 0 && SplitCube(stats, cubes[0]).Err? ==> r == Err(IndexOutOfRange)
  {
    RoundIsHalves(stats, cubes);
    RoundCovers(stats, cubes);
    var newCubes: seq<Cube> := [];
    for c := 0 to |cubes|
      invariant Round(stats, cubes[..c]) == Ok(newCubes)
    {
      RoundStep(stats, cubes, c);
      var split := SplitCube(stats, cubes[c]);
      if split.Err? {
        RoundFailureSticks(stats, cubes, c + 1);
        return Err(split.error);
      }
      var (cube1, cube2) := split.value;
      if cube1 in newCubes || cube2 in newCubes + [cube1] {
        RoundFailureSticks(stats, cubes, c + 1);
        return Err(InvalidState(""));
      }
      newCubes := newCubes + [cube1, cube2];
    }
    assert cubes[..|cubes|] == cubes;
    return Ok(newCubes);
  }

  /** The index of the first cube containing the colour
      (`Keys.First(cube => cube.Contains(color))`); one always exists. */
  method FirstContaining(cubes: seq<Cube>, color: Color) returns (j: nat)
    requires Covered(cubes, color)
    ensures j < |cubes| && cubes[j].Contains(color)
    ensures forall t :: 0 <= t < j ==> !cubes[t].Contains(color)
  {
    ghost var w :| 0 <= w < |cubes| && cubes[w].Contains(color);
    j := 0;
    while !cubes[j].Contains(color)
      invariant j <= w
      invariant forall t :: 0 <= t < j ==> !cubes[t].Contains(color)
      decreases w - j
    {
      j := j + 1;
    }
  }

  /** The while loop of Build: split every cube until there are palletSize
      of them. For a power of two the count climbs 1, 2, 4, ... and stops at
      exactly palletSize; every colour stays in some cube. */
  method SplitRounds(stats: seq<seq<int>>, initialCube: Cube, palletSize: int32, colors: seq<Color>)
    returns (r: Result<seq<Cube>>)
    requires |stats| == 3 && (palletSize <= 1 || IsPow2(palletSize))
    requires forall x :: 0 <= x < |colors| ==> initialCube.Contains(colors[x])
    ensures r == Doubling(stats, [initialCube], palletSize)
    ensures r.Ok? ==> |r.value| == CubeCount(palletSize)
    ensures r.Ok? ==> forall x :: 0 <= x < |colors| ==> Covered(r.value, colors[x])
    ensures r.Err? ==> r.error == IndexOutOfRange || r.error == InvalidState("")
    ensures palletSize > 1 && SplitCube(stats, initialCube).Err? ==> r == Err(IndexOutOfRange)
    ensures palletSize <= 1 ==> r == Ok([initialCube])
  {
    var list := [initialCube];
    while |list| < palletSize
      invariant |list| > 0
      invariant Doubling(stats, list, palletSize) == Doubling(stats, [initialCube], palletSize)
      decreases palletSize - |list|
    {
      var next := SplitAll(stats, list);
      if next.Err? {
        r := Err(next.error);
        assert Doubling(stats, list, palletSize) == r;
        break;
      }
      assert Doubling(stats, list, palletSize) == Doubling(stats, next.value, palletSize);
      list := next.value;
    }
    if |list| >= palletSize {
      r := Ok(list);
      assert Doubling(stats, list, palletSize) == r;
      DoublingCount(stats, [initialCube], palletSize, 0);
      DoublingCovers(stats, initialCube, palletSize, colors);
    }
    RoundCovers(stats, [initialCube]);
  }

  /** Cube j is the first one the palletDict loop cannot take: it repeats
      an earlier cube or its median search fails, while every earlier cube
      is new and has a median. */
  ghost predicate FirstBadCube(stats: seq<seq<int>>, cubes: seq<Cube>, j: int)
    requires |stats| == 3 && forall i :: 0 <= i < 3 ==> |stats[i]| == 256
  {
    0 <= j < |cubes| && (cubes[j] in cubes[..j] || CubeMedian(stats, cubes[j]).Err?) &&
    forall t :: 0 <= t < j ==> cubes[t] !in cubes[..t] && CubeMedian(stats, cubes[t]).Ok?
  }

  /** A list is free of repeats when no cube occurs before its own place. */
  lemma DistinctByPrefixes(cubes: seq<Cube>)
    requires forall t :: 0 <= t < |cubes| ==> cubes[t] !in cubes[..t]
    ensures Distinct(cubes)
  {
    forall i, j | 0 <= i < j < |cubes|
      ensures cubes[i] != cubes[j]
    {
      assert cubes[..j][i] == cubes[i];
    }
  }

  /** The palletDict loop: one median per cube, in the order the cubes come.
      It succeeds exactly when no cube repeats and every median search
      succeeds; otherwise the first cube that fails decides the exception. */
  method Medians(stats: seq<seq<int>>, cubes: seq<Cube>) returns (r: Result<seq<Color>>)
    requires |stats| == 3 && forall i :: 0 <= i < 3 ==> |stats[i]| == 256
    ensures r.Ok? <==> Distinct(cubes) && forall t :: 0 <= t < |cubes| ==> CubeMedian(stats, cubes[t]).Ok?
    ensures r.Ok? ==> |r.value| == |cubes| && forall t :: 0 <= t < |cubes| ==> CubeMedian(stats, cubes[t]) == Ok(r.value[t])
    ensures r.Err? ==>
      exists j :: (FirstBadCube(stats, cubes, j) && r.error == if cubes[j] in cubes[..j] then InvalidState("") else IndexOutOfRange)
    ensures |cubes| > 0 && CubeMedian(stats, cubes[0]).Err? ==> r == Err(IndexOutOfRange)
  {
    var keys: seq<Cube> := [];
    var values: seq<Color> := [];
    for j := 0 to |cubes|
      invariant keys == cubes[..j] && |values| == j
      invariant forall t :: 0 <= t < j ==> cubes[t] !in cubes[..t] && CubeMedian(stats, cubes[t]) == Ok(values[t])
    {
      if cubes[j] in keys {
        assert FirstBadCube(stats, cubes, j);
        var i :| 0 <= i < j && keys[i] == cubes[j];
        assert cubes[i] == cubes[j];
        return Err(InvalidState(""));
      }
      var median := CubeMedian(stats, cubes[j]);
      if median.Err? {
        assert FirstBadCube(stats, cubes, j);
        return Err(median.error);
      }
      keys := keys + [cubes[j]];
      values := values + [median.value];
    }
    DistinctByPrefixes(cubes);
    return Ok(values);
  }

  /** v is the palette entry of the first cube that contains the colour. */
  ghost predicate EntryOfFirstCube(color: Color, v: Color, cubes: seq<Cube>, palette: seq<Color>)
    requires |palette| == |cubes|
  {
    exists j :: 0 <= j < |cubes| && cubes[j].Contains(color) && v == palette[j] &&
      forall t :: 0 <= t < j ==> !cubes[t].Contains(color)
  }

  /** With disjoint cubes the first cube containing a colour is the only
      one, so its entry is the entry of every cube that contains it. */
  lemma FirstCubeIsOnly(color: Color, v: Color, cubes: seq<Cube>, palette: seq<Color>, j: nat)
    requires |palette| == |cubes| && Disjoint(cubes)
    requires EntryOfFirstCube(color, v, cubes, palette)
    requires j < |cubes| && cubes[j].Contains(color)
    ensures v == palette[j]
  {
    var w :| 0 <= w < |cubes| && cubes[w].Contains(color) && v == palette[w] &&
      forall t :: 0 <= t < w ==> !cubes[t].Contains(color);
    assert w == j;
  }

  /** The final Select: each colour becomes the entry of the first cube
      that contains it. */
  method MapToPalette(colors: seq<Color>, cubes: seq<Cube>, palette: seq<Color>) returns (result: seq<Color>)
    requires |palette| == |cubes|
    requires forall x :: 0 <= x < |colors| ==> Covered(cubes, colors[x])
    ensures |result| == |colors|
    ensures forall i :: 0 <= i < |colors| ==> EntryOfFirstCube(colors[i], result[i], cubes, palette)
  {
    result := [];
    ghost var choice: seq<nat> := [];
    for i := 0 to |colors|
      invariant |result| == |choice| == i
      invariant forall i' :: 0 <= i' < i ==>
        choice[i'] < |cubes| && cubes[choice[i']].Contains(colors[i']) && result[i'] == palette[choice[i']] &&
        forall t :: 0 <= t < choice[i'] ==> !cubes[t].Contains(colors[i'])
    {
      var j := FirstContaining(cubes, colors[i]);
      result := result + [palette[j]];
      choice := choice + [j];
    }
    forall i | 0 <= i < |colors|
      ensures EntryOfFirstCube(colors[i], result[i], cubes, palette)
    {
      assert cubes[choice[i]].Contains(colors[i]) && result[i] == palette[choice[i]];
    }
  }

  /** Whatever the rounds end with splits the colours: each colour lies
      in exactly one cube. */
  lemma RoundsSplitColors(colors: seq<Color>, palletSize: int)
    requires Doubling(Histogram(colors), [InitialCube(colors)], palletSize).Ok?
    ensures var cubes := Doubling(Histogram(colors), [InitialCube(colors)], palletSize).value;
            Disjoint(cubes) && forall i :: 0 <= i < |colors| ==> Covered(cubes, colors[i])
  {
    DoublingPartitions(Histogram(colors), [InitialCube(colors)], palletSize);
    forall i | 0 <= i < |colors|
      ensures InitialCube(colors).Contains(colors[i])
    {
      InitialCubeContainsAll(colors, i);
    }
    DoublingCovers(Histogram(colors), InitialCube(colors), palletSize, colors);
  }

  /** `Build(palletSize, colors, out pallet)`. The size check fails for
      anything but 0, a power of two or int.MinValue; the cubes then double
      until there are palletSize of them (one for a size of at most 1), and
      they split the colours: each colour lies in exactly one cube. Each
      cube's median becomes a palette entry, and each colour is replaced by
      the entry of its cube. A repeated cube throws, and so does a search
      outside the 256 histogram entries, which happens at once when there
      are no colours (the initial cube is [300, 0]). */
  method Build(palletSize: int32, colors: seq<Color>) returns (r: Result<seq<Color>>, palette: seq<Color>, ghost cubes: seq<Cube>)
    ensures !SizeCheckPasses(palletSize) ==> r == Err(InvalidState(PowerOfTwoMessage))
    ensures r.Ok? ==> SizeCheckPasses(palletSize)
    ensures SizeCheckPasses(palletSize) ==>
      var rounds := Doubling(Histogram(colors), [InitialCube(colors)], palletSize);
      (rounds.Err? ==> r == Err(rounds.error)) &&
      (rounds.Ok? ==> (r.Ok? <==> Distinct(rounds.value) &&
                                  forall t :: 0 <= t < |rounds.value| ==> CubeMedian(Histogram(colors), rounds.value[t]).Ok?))
    ensures r.Ok? ==> Doubling(Histogram(colors), [InitialCube(colors)], palletSize) == Ok(cubes)
    ensures r.Ok? ==> |palette| == |cubes| == CubeCount(palletSize)
    ensures r.Ok? ==> Disjoint(cubes) && forall i :: 0 <= i < |colors| ==> Covered(cubes, colors[i])
    ensures r.Ok? ==> forall j :: 0 <= j < |cubes| ==> CubeMedian(Histogram(colors), cubes[j]) == Ok(palette[j])
    ensures r.Ok? ==> |r.value| == |colors|
    ensures r.Ok? ==> forall i :: 0 <= i < |colors| ==> EntryOfFirstCube(colors[i], r.value[i], cubes, palette)
    ensures r.Err? && SizeCheckPasses(palletSize) ==> r.error == IndexOutOfRange || r.error == InvalidState("")
    ensures |colors| == 0 && SizeCheckPasses(palletSize) ==> r == Err(IndexOutOfRange)
  {
    palette, cubes := [], [];
    if !SizeCheckPasses(palletSize) {
      r := Err(InvalidState(PowerOfTwoMessage));
      return;
    }
    SizeCheckExactly(palletSize);
    var counts, initialCube := GetStatistics(colors);
    var stats := Cells(counts);
    forall x | 0 <= x < |colors|
      ensures initialCube.Contains(colors[x])
    {
      InitialCubeContainsAll(colors, x);
    }
    var split := SplitRounds(stats, initialCube, palletSize, colors);
    if split.Err? {
      r := Err(split.error);
      return;
    }
    var list := split.value;
    RoundsSplitColors(colors, palletSize);
    var medians := Medians(stats, list);
    if medians.Err? {
      r := Err(medians.error);
      return;
    }
    palette, cubes := medians.value, list;
    var result := MapToPalette(colors, list, palette);
    r := Ok(result);
  }
}
