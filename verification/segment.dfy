/** Segment (Algorithms/MedianCutting/Segment.cs): a closed range of
    component values [Start, End] along one axis of a colour cube. */
module Segments {

  /** The constructor stores both ends as given; nothing requires
      Start <= End, so a segment may be empty. The ends are unbounded
      integers here: the values the median cut puts in them lie in
      0..300, far from the limits of a .NET int. */
  datatype Segment = Segment(start: int, end: int) {

    /** The `Length` property: how many integers the segment holds. */
    function Length(): (n: int)
      ensures n >= 1 <==> start <= end
      ensures n == 0 <==> end == start - 1
    {
      end - start + 1
    }

    /** x lies in [start, end]. */
    predicate Holds(x: int)
    {
      start <= x <= end
    }

    /** The integers the segment holds. */
    function Points(): set<int>
    {
      Interval(start, end)
    }
  }

  /** The integers lo..hi. */
  function Interval(lo: int, hi: int): (r: set<int>)
    ensures forall x :: x in r <==> lo <= x <= hi
    decreases hi - lo
  {
    if hi < lo then {} else Interval(lo, hi - 1) + {hi}
  }

  lemma {:induction false} PointsCount(lo: int, hi: int)
    requires hi >= lo - 1
    ensures |Interval(lo, hi)| == hi - lo + 1
    decreases hi - lo
  {
    if hi >= lo {
      PointsCount(lo, hi - 1);
      assert hi !in Interval(lo, hi - 1);
    }
  }

  /** A non-negative length is the number of integers the segment holds. */
  lemma LengthIsPointCount(s: Segment)
    requires s.Length() >= 0
    ensures s.Length() == |s.Points()|
  {
    PointsCount(s.start, s.end);
  }

  /** Cutting [S, E] after `index` gives [S, index] and [index + 1, E]; the
      two lengths add up to the original one, whatever index is. */
  lemma SplitLengths(s: Segment, index: int)
    ensures Segment(s.start, index).Length() + Segment(index + 1, s.end).Length() == s.Length()
  {
  }

  /** Every value of [S, E] lies in exactly one of the two halves; when
      S <= index <= E the halves hold nothing else. */
  lemma SplitPartitions(s: Segment, index: int, x: int)
    ensures s.Holds(x) ==> (Segment(s.start, index).Holds(x) != Segment(index + 1, s.end).Holds(x))
    ensures s.start <= index <= s.end ==>
      (Segment(s.start, index).Holds(x) || Segment(index + 1, s.end).Holds(x)) ==> s.Holds(x)
  {
  }
}
