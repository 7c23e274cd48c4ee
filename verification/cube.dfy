/** Cube (Algorithms/MedianCutting/Cube.cs): a box of colours, one segment
    per component. */
module Cubes {
  import opened Vectors
  import opened Segments

  /** The constructor stores the three segments as given. */
  datatype Cube = Cube(ox: Segment, oy: Segment, oz: Segment) {

    /** The segment along component k. */
    function Axis(k: nat): Segment
      requires k < 3
    {
      if k == 0 then ox else if k == 1 then oy else oz
    }

    /** The cube with its segment along component k replaced by s. */
    function WithAxis(k: nat, s: Segment): (c: Cube)
      requires k < 3
      ensures c.Axis(k) == s
      ensures forall i :: 0 <= i < 3 && i != k ==> c.Axis(i) == Axis(i)
    {
      if k == 0 then Cube(s, oy, oz) else if k == 1 then Cube(ox, s, oz) else Cube(ox, oy, s)
    }

    /** `Contains(color)`: every component lies in its segment. It reads
        components 0..2 only and changes nothing. */
    predicate Contains(color: Color)
      ensures Contains(color) <==> forall k :: 0 <= k < 3 ==> Axis(k).Holds(color.At(k))
    {
      ox.Holds(color.At(0)) && oy.Holds(color.At(1)) && oz.Holds(color.At(2))
    }
  }

  /** A cube with an empty segment contains no colour. */
  lemma EmptyCube(c: Cube, k: nat, color: Color)
    requires k < 3 && c.Axis(k).end < c.Axis(k).start
    ensures !c.Contains(color)
  {
    assert !c.Axis(k).Holds(color.At(k));
  }

  /** Cutting a cube along axis k after `index`: every colour of the cube
      lies in exactly one half, and when index lies in the segment the halves
      hold nothing else. */
  lemma SplitPartitionsCube(c: Cube, k: nat, index: int, color: Color)
    requires k < 3
    ensures var c1 := c.WithAxis(k, Segment(c.Axis(k).start, index));
            var c2 := c.WithAxis(k, Segment(index + 1, c.Axis(k).end));
            (c.Contains(color) ==> c1.Contains(color) != c2.Contains(color)) &&
            (c.Axis(k).start <= index <= c.Axis(k).end ==>
              (c1.Contains(color) || c2.Contains(color)) ==> c.Contains(color))
  {
    SplitPartitions(c.Axis(k), index, color.At(k));
    var c1 := c.WithAxis(k, Segment(c.Axis(k).start, index));
    var c2 := c.WithAxis(k, Segment(index + 1, c.Axis(k).end));
    assert c1.Contains(color) <==>
      (Segment(c.Axis(k).start, index).Holds(color.At(k)) && forall i :: 0 <= i < 3 && i != k ==> c.Axis(i).Holds(color.At(i)));
    assert c2.Contains(color) <==>
      (Segment(index + 1, c.Axis(k).end).Holds(color.At(k)) && forall i :: 0 <= i < 3 && i != k ==> c.Axis(i).Holds(color.At(i)));
  }
}
