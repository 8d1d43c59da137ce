/** The polygon-operations widget's point and polygon: AlgoPoint arithmetic
    and the AlgoPolygon container with its in-place Graham-scan hull. */
module AlgoPolygons {
  import opened Planar
  import opened LowestPoint
  import opened GrahamStack

  /** AlgoPoint: `+`, `-`, `* scalar`, `dot`, `cross`, `dist2` are
      Planar's Add, Sub, Scale, Dot, Cross and Dist2. */
  type AlgoPoint = Point

  /** The operators are componentwise vector algebra: subtraction undoes
      addition, scaling distributes over addition, the cross product is
      antisymmetric and vanishes on equal vectors, and dist2 is the
      non-negative self dot product; the default point is (0, 0). */
  lemma AlgoPointAlgebra(a: AlgoPoint, b: AlgoPoint, s: real)
    ensures Sub(Add(a, b), b) == a && Add(a, b) == Add(b, a)
    ensures Scale(Add(a, b), s) == Add(Scale(a, s), Scale(b, s))
    ensures Cross(a, b) == -Cross(b, a) && Cross(a, a) == 0.0
    ensures Dist2(a) == Dot(a, a) >= 0.0
    ensures Origin.x == 0.0 && Origin.y == 0.0
  {
    assert (a.x + b.x) * s == a.x * s + b.x * s;
    assert (a.y + b.y) * s == a.y * s + b.y * s;
  }

  /** The angular `std::sort` of all points but the pivot, left abstract:
      a function of the pivot and the list. */
  type PivotSort = (AlgoPoint, seq<AlgoPoint>) -> seq<AlgoPoint>

  /** What is known of the sort: it reorders its input. */
  ghost predicate Permutes(sort: PivotSort)
  {
    forall c, s :: multiset(sort(c, s)) == multiset(s)
  }

  /** The points after the lowest one has been swapped to the front and the
      rest sorted around it. */
  function PivotSorted(s: seq<AlgoPoint>, sort: PivotSort): (r: seq<AlgoPoint>)
    requires |s| >= 1 && Permutes(sort)
    ensures multiset(r) == multiset(s) && |r| == |s| && r[0] == s[Lowest(s)]
  {
    var m := Lowest(s);
    var w := Swap(s, m);
    assert w == [w[0]] + w[1..];
    var r := [w[0]] + sort(w[0], w[1..]);
    assert multiset(r) == multiset([w[0]]) + multiset(w[1..]);
    assert |multiset(r)| == |r|;
    r
  }

  /** `std::swap(points[0], points[m])`. */
  function Swap(s: seq<AlgoPoint>, m: nat): (w: seq<AlgoPoint>)
    requires m < |s|
    ensures |w| == |s| && w[0] == s[m] && multiset(w) == multiset(s)
  {
    var w := s[0 := s[m]][m := s[0]];
    if m != 0 then
      assert s == s[..1] + s[1..m] + [s[m]] + s[m + 1..];
      assert w == [s[m]] + s[1..m] + s[..1] + s[m + 1..];
      w
    else w
  }

  /** `computeConvexHull` on a point list: unchanged below 3 points,
      otherwise the stack scan of the pivot-sorted points. */
  function ConvexHull(s: seq<AlgoPoint>, sort: PivotSort): seq<AlgoPoint>
    requires Permutes(sort)
  {
    if |s| < 3 then s
    else
      var sorted := PivotSorted(s, sort);
      Scan([sorted[0], sorted[1]], sorted[2..])
  }

  /** For 3 or more points the hull starts at the lowest input point (least
      y, then least x), keeps between 2 and n input points, and every three
      consecutive hull points turn strictly left; below 3 points the list
      is left alone. */
  lemma ConvexHullFacts(s: seq<AlgoPoint>, sort: PivotSort)
    requires Permutes(sort)
    ensures |s| < 3 ==> ConvexHull(s, sort) == s
    ensures |s| >= 3 ==>
      var h := ConvexHull(s, sort);
      2 <= |h| <= |s| && h[0] == s[Lowest(s)] && IsLowest(h[0], s) && LeftTurns(h) &&
      forall q :: q in h ==> q in s
  {
    if |s| >= 3 {
      var sorted := PivotSorted(s, sort);
      PairLeftTurns(sorted[0], sorted[1]);
      ScanFacts([sorted[0], sorted[1]], sorted[2..]);
      ScanProvenance([sorted[0], sorted[1]], sorted[2..]);
      LowestFacts(s);
      var h := ConvexHull(s, sort);
      forall q | q in h
        ensures q in s
      {
        assert q in sorted by {
          if q !in [sorted[0], sorted[1]] {
            var i :| 0 <= i < |sorted[2..]| && sorted[2..][i] == q;
            assert sorted[i + 2] == q;
          }
        }
        assert q in multiset(sorted);
      }
    }
  }

  /** A hull of a non-empty list is non-empty. */
  lemma ConvexHullEmpty(s: seq<AlgoPoint>, sort: PivotSort)
    requires Permutes(sort)
    ensures ConvexHull(s, sort) == [] <==> s == []
  {
    ConvexHullFacts(s, sort);
  }

  /** AlgoPolygon: a point list the widget edits in place. */
  class AlgoPolygon {
    var points: seq<AlgoPoint>

    /** A new polygon has no points. */
    constructor ()
      ensures points == []
    {
      points := [];
    }

    /** `addPoint`: exactly one point appended at the end. */
    method AddPoint(p: AlgoPoint)
      modifies this
      ensures points == old(points) + [p]
      ensures |points| == |old(points)| + 1 && points[..|old(points)|] == old(points)
    {
      points := points + [p];
    }

    /** `clear`: no points left. */
    method Clear()
      modifies this
      ensures points == [] && Empty()
    {
      points := [];
    }

    /** `size`. */
    function Size(): (n: nat)
      reads this
      ensures n == |points|
    {
      |points|
    }

    /** `empty`: exactly when the size is 0. */
    function Empty(): (e: bool)
      reads this
      ensures e <==> Size() == 0
    {
      |points| == 0
    }

    /** `computeConvexHull`: below 3 points nothing happens; otherwise the
        lowest point is swapped to the front, the rest sorted around it,
        and the stack scan's hull replaces the points. */
    method ComputeConvexHull(sort: PivotSort)
      requires Permutes(sort)
      modifies this
      ensures points == ConvexHull(old(points), sort)
    {
      if |points| < 3 {
        return;
      }
      ghost var input := points;
      var minIdx := LowestIndex(points);
      points := Swap(points, minIdx);
      var pivot := points[0];
      points := [pivot] + sort(pivot, points[1..]);
      assert points == PivotSorted(input, sort);
      var hull := StackScan(points);
      points := hull;
    }
  }
}
