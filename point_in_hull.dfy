/** The point-in-hull widget: the classification of a point against a
    polygon (near an edge, inside, outside) and the Graham-scan hull of a
    point set. Distances are compared squared: for non-negative values
    `d < 3` holds exactly when `d * d < 9`. */
module PointInHull {
  import opened Planar
  import opened GrahamStack

  /** AlgoPoint2D; both coordinates default to 0. */
  type AlgoPoint2D = Point

  /** `cross(a, b, c)`: the turn of a, b, c. */
  function CrossAt(a: AlgoPoint2D, b: AlgoPoint2D, c: AlgoPoint2D): (r: real)
    ensures r == Turn(a, b, c)
  {
    (b.x - a.x) * (c.y - a.y) - (b.y - a.y) * (c.x - a.x)
  }

  /** Exchanging the last two points negates the turn; rotating all three
      keeps it. */
  lemma CrossAtSymmetries(a: AlgoPoint2D, b: AlgoPoint2D, c: AlgoPoint2D)
    ensures CrossAt(a, b, c) == -CrossAt(a, c, b)
    ensures CrossAt(a, b, c) == CrossAt(b, c, a)
  {
  }

  /** `distance`, squared. */
  function Distance2(a: AlgoPoint2D, b: AlgoPoint2D): (r: real)
    ensures r >= 0.0
  {
    (a.x - b.x) * (a.x - b.x) + (a.y - b.y) * (a.y - b.y)
  }

  /** The projection parameter clamped to [0, 1]. */
  function ProjectionParam(p: AlgoPoint2D, a: AlgoPoint2D, b: AlgoPoint2D): (t: real)
    requires Distance2(a, b) != 0.0
    ensures 0.0 <= t <= 1.0
  {
    Max(0.0, Min(1.0, Dot(Sub(p, a), Sub(b, a)) / Distance2(a, b)))
  }

  /** `pointToSegmentDistance`, squared: the distance to a for a segment of
      length 0, otherwise to the point at the clamped projection
      parameter, which lies on the segment. */
  function PointToSegmentDistance2(p: AlgoPoint2D, a: AlgoPoint2D, b: AlgoPoint2D): (r: real)
    ensures r >= 0.0
    ensures Distance2(a, b) == 0.0 ==> r == Distance2(p, a)
  {
    var l2 := Distance2(a, b);
    if l2 == 0.0 then Distance2(p, a)
    else
      var t := ProjectionParam(p, a, b);
      var projection := Point(a.x + t * (b.x - a.x), a.y + t * (b.y - a.y));
      Distance2(p, projection)
  }

  lemma SquareAlong(w: real, d: real, s: real)
    ensures (w - s * d) * (w - s * d) == w * w - 2.0 * s * (w * d) + s * s * (d * d)
  {
  }

  lemma AlongIdentity(wx: real, wy: real, dx: real, dy: real, s: real, w2: real, k: real, l2: real, e2: real)
    requires w2 == wx * wx + wy * wy && k == wx * dx + wy * dy && l2 == dx * dx + dy * dy
    requires e2 == (wx - s * dx) * (wx - s * dx) + (wy - s * dy) * (wy - s * dy)
    ensures e2 == w2 - 2.0 * s * k + s * s * l2
  {
    SquareAlong(wx, dx, s);
    SquareAlong(wy, dy, s);
    assert 2.0 * s * k == 2.0 * s * (wx * dx) + 2.0 * s * (wy * dy);
    assert s * s * l2 == s * s * (dx * dx) + s * s * (dy * dy);
  }

  lemma AlongIdentityAt(w: Point, d: Point, s: real)
    ensures Dist2(Point(w.x - s * d.x, w.y - s * d.y)) == Dist2(w) - 2.0 * s * Dot(w, d) + s * s * Dist2(d)
  {
    AlongIdentity(w.x, w.y, d.x, d.y, s, Dist2(w), Dot(w, d), Dist2(d), Dist2(Point(w.x - s * d.x, w.y - s * d.y)));
  }

  lemma DistanceIsDist2(p: AlgoPoint2D, q: AlgoPoint2D)
    ensures Distance2(p, q) == Dist2(Sub(p, q))
  {
  }

  /** The squared distance to a + s*d as a quadratic in s, with
      w = p - a: |w|^2 - 2 s (w . d) + s^2 |d|^2. */
  function Along(w2: real, k: real, l2: real, s: real): real
  {
    w2 - 2.0 * s * k + s * s * l2
  }

  /** The squared distance from p to the point a + s*d, expanded in s. */
  lemma DistanceAlong(p: AlgoPoint2D, a: AlgoPoint2D, d: Point, s: real)
    ensures Distance2(p, PointAt(a, d, s)) == Along(Dist2(Sub(p, a)), Dot(Sub(p, a), d), Dist2(d), s)
  {
    var w := Sub(p, a);
    var q := PointAt(a, d, s);
    assert Sub(p, q) == Point(w.x - s * d.x, w.y - s * d.y);
    DistanceIsDist2(p, q);
    AlongIdentityAt(w, d, s);
  }

  /** The clamped minimiser t of the quadratic over [0, 1] is at least as
      good as any other s in [0, 1]. */
  lemma ClampIsBest(w2: real, k: real, l2: real, len2: real, s: real, t: real)
    requires l2 == len2 && l2 > 0.0 && 0.0 <= s <= 1.0
    requires t == Max(0.0, Min(1.0, k / l2))
    ensures Along(w2, k, len2, t) <= Along(w2, k, len2, s)
  {
    var ts := k / l2;
    assert k == ts * l2;
    AlongDifference(w2, k, l2, s, t, ts);
    var f := (s - t) * (s + t - 2.0 * ts);
    assert f >= 0.0 by {
      if ts <= 0.0 {
        assert t == 0.0;
        NonNegativeProduct(s - t, s + t - 2.0 * ts);
      } else if ts >= 1.0 {
        assert t == 1.0;
        NonNegativeProduct(t - s, 2.0 * ts - s - t);
        assert (t - s) * (2.0 * ts - s - t) == f;
      } else {
        assert t == ts;
        SquareNonNegative(s - t);
        assert s + t - 2.0 * ts == s - t;
      }
    }
    NonNegativeProduct(l2, f);
    assert Along(w2, k, len2, s) - Along(w2, k, len2, t) == l2 * f;
  }

  /** The difference of the quadratic at s and at t, factored, when its
      slope term is k = ts * l2. */
  lemma AlongDifference(w2: real, k: real, l2: real, s: real, t: real, ts: real)
    requires k == ts * l2
    ensures Along(w2, k, l2, s) - Along(w2, k, l2, t) == l2 * ((s - t) * (s + t - 2.0 * ts))
  {
  }

  lemma NonNegativeProduct(u: real, v: real)
    requires u >= 0.0 && v >= 0.0
    ensures u * v >= 0.0
  {
  }

  lemma SquareNonNegative(u: real)
    ensures u * u >= 0.0
  {
  }

  lemma SquaredDifferenceSymmetric(u: real, v: real)
    ensures (u - v) * (u - v) == (v - u) * (v - u)
  {
  }

  /** The squared length of a segment is the squared length of its
      direction b - a. */
  lemma SegmentLength(a: AlgoPoint2D, b: AlgoPoint2D)
    ensures Distance2(a, b) == Dist2(Sub(b, a))
  {
    SquaredDifferenceSymmetric(a.x, b.x);
    SquaredDifferenceSymmetric(a.y, b.y);
    DistanceIsDist2(b, a);
  }

  /** For a segment of non-zero length the distance is measured to the
      point of the segment at the clamped projection parameter. */
  lemma MeasuredOnSegment(p: AlgoPoint2D, a: AlgoPoint2D, b: AlgoPoint2D)
    requires Distance2(a, b) != 0.0
    ensures PointToSegmentDistance2(p, a, b) == Distance2(p, PointAt(a, Sub(b, a), ProjectionParam(p, a, b)))
  {
  }

  /** For a segment of non-zero length the measured point is the nearest
      point of the segment: no point a + s*(b - a) with s in [0, 1] is
      closer to p. */
  lemma NearestOnSegment(p: AlgoPoint2D, a: AlgoPoint2D, b: AlgoPoint2D, s: real)
    requires Distance2(a, b) != 0.0 && 0.0 <= s <= 1.0
    ensures PointToSegmentDistance2(p, a, b) <= Distance2(p, PointAt(a, Sub(b, a), s))
  {
    var d := Sub(b, a);
    var w := Sub(p, a);
    SegmentLength(a, b);
    var t := ProjectionParam(p, a, b);
    MeasuredOnSegment(p, a, b);
    DistanceAlong(p, a, d, s);
    DistanceAlong(p, a, d, t);
    ClampIsBest(Dist2(w), Dot(w, d), Distance2(a, b), Dist2(d), s, t);
  }

  /** A segment whose ends coincide is the single point a: every point
      a + s*(b - a) is a, and the distance is measured to a. */
  lemma DegenerateSegment(p: AlgoPoint2D, a: AlgoPoint2D, s: real)
    ensures PointToSegmentDistance2(p, a, a) == Distance2(p, a)
    ensures PointAt(a, Sub(a, a), s) == a
  {
    assert Distance2(a, a) == 0.0 by {
      assert a.x - a.x == 0.0 && a.y - a.y == 0.0;
    }
    var d := Sub(a, a);
    assert d.x == 0.0 && d.y == 0.0;
    assert s * d.x == 0.0 && s * d.y == 0.0;
  }

  // ---------------------------------------------------------------------
  // check

  /** The squared tolerance: `delta` is 3. */
  const Delta2: real := 9.0

  /** Squared distance from the point to edge i, (i + 1) mod n closing the
      cycle. */
  function EdgeDist2(point: AlgoPoint2D, polygon: seq<AlgoPoint2D>, i: nat): real
    requires i < |polygon|
  {
    PointToSegmentDistance2(point, polygon[i], polygon[Next(i, |polygon|)])
  }

  /** minDist after the first k edges; None stands for the initial largest
      double, above every distance. */
  function MinDistUpTo(point: AlgoPoint2D, polygon: seq<AlgoPoint2D>, k: nat): Option<real>
    requires k <= |polygon|
  {
    if k == 0 then None
    else
      var m := MinDistUpTo(point, polygon, k - 1);
      var d := EdgeDist2(point, polygon, k - 1);
      if m.None? || d < m.value then Some(d) else m
  }

  /** `check`: 0 below 3 vertices; 2 when the nearest edge is closer than
      delta; otherwise the ray-casting parity, 1 inside and 0 outside. */
  function Check(point: AlgoPoint2D, polygon: seq<AlgoPoint2D>): int
  {
    if |polygon| < 3 then 0
    else
      var m := MinDistUpTo(point, polygon, |polygon|);
      if m.Some? && m.value < Delta2 then 2
      else if RayParity(point, polygon) then 1
      else 0
  }

  /** The running minimum is the least distance of the edges seen. */
  lemma {:induction false} MinDistMeaning(point: AlgoPoint2D, polygon: seq<AlgoPoint2D>, k: nat)
    requires k <= |polygon|
    ensures MinDistUpTo(point, polygon, k).Some? <==> k > 0
    ensures MinDistUpTo(point, polygon, k).Some? ==>
      (forall i :: 0 <= i < k ==> MinDistUpTo(point, polygon, k).value <= EdgeDist2(point, polygon, i)) &&
      (exists i :: 0 <= i < k && MinDistUpTo(point, polygon, k).value == EdgeDist2(point, polygon, i))
  {
    if k > 0 {
      MinDistMeaning(point, polygon, k - 1);
    }
  }

  /** `check` answers 0, 1 or 2: 2 exactly when some edge is closer than
      delta, 1 exactly when none is and the ray parity is odd, and always 0
      below 3 vertices. */
  lemma CheckMeaning(point: AlgoPoint2D, polygon: seq<AlgoPoint2D>)
    ensures Check(point, polygon) in {0, 1, 2}
    ensures |polygon| < 3 ==> Check(point, polygon) == 0
    ensures Check(point, polygon) == 2 <==>
      |polygon| >= 3 && exists i :: 0 <= i < |polygon| && EdgeDist2(point, polygon, i) < Delta2
    ensures Check(point, polygon) == 1 <==>
      |polygon| >= 3 && (forall i :: 0 <= i < |polygon| ==> EdgeDist2(point, polygon, i) >= Delta2) &&
      RayParity(point, polygon)
  {
    if |polygon| >= 3 {
      MinDistMeaning(point, polygon, |polygon|);
    }
  }

  /** The two loops of `check`: the nearest-edge scan, then the even-odd ray
      test with j trailing i. */
  method CheckPoint(point: AlgoPoint2D, polygon: seq<AlgoPoint2D>) returns (r: int)
    ensures r == Check(point, polygon)
  {
    var n := |polygon|;
    if n < 3 {
      return 0;
    }
    var minDist: Option<real> := None;
    var i := 0;
    while i < n
      invariant 0 <= i <= n
      invariant minDist == MinDistUpTo(point, polygon, i)
    {
      var j := (i + 1) % n;
      var dist := PointToSegmentDistance2(point, polygon[i], polygon[j]);
      if minDist.None? || dist < minDist.value {
        minDist := Some(dist);
      }
      i := i + 1;
    }
    if minDist.Some? && minDist.value < Delta2 {
      return 2;
    }
    var inside := false;
    var k, j := 0, n - 1;
    while k < n
      invariant 0 <= k <= n
      invariant j == if k == 0 then n - 1 else k - 1
      invariant inside == (k > 0 && RayCrosses(point, polygon[0], polygon[n - 1]) != ChainParity(point, polygon[..k]))
    {
      if RayCrosses(point, polygon[k], polygon[j]) {
        inside := !inside;
      }
      if k > 0 {
        assert polygon[..k + 1][..k] == polygon[..k];
      }
      k, j := k + 1, k;
    }
    assert polygon[..n] == polygon;
    r := if inside then 1 else 0;
  }

  // ---------------------------------------------------------------------
  // compute

  /** The first `std::sort`, by (y, x): any function that reorders its
      input into (y, x) order. */
  type YXSort = seq<AlgoPoint2D> -> seq<AlgoPoint2D>

  ghost predicate SortedYX(s: seq<AlgoPoint2D>)
  {
    forall i, j :: 0 <= i < j < |s| ==> !LowerYX(s[j], s[i])
  }

  ghost predicate SortsYX(sort: YXSort)
  {
    forall s :: multiset(sort(s)) == multiset(s) && SortedYX(sort(s))
  }

  /** The second `std::sort`, by angle around the first point, left
      abstract: a function of the pivot and the rest that reorders it. */
  type AngleSort = (AlgoPoint2D, seq<AlgoPoint2D>) -> seq<AlgoPoint2D>

  ghost predicate Permutes(sort: AngleSort)
  {
    forall c, s :: multiset(sort(c, s)) == multiset(s)
  }

  /** The points after both sorts. */
  function SortedForHull(points: seq<AlgoPoint2D>, byYX: YXSort, byAngle: AngleSort): (r: seq<AlgoPoint2D>)
    requires |points| >= 1 && SortsYX(byYX) && Permutes(byAngle)
    ensures |r| == |points| && multiset(r) == multiset(points) && r[0] == byYX(points)[0]
  {
    var s := byYX(points);
    assert |multiset(s)| == |s|;
    assert s == [s[0]] + s[1..];
    var r := [s[0]] + byAngle(s[0], s[1..]);
    assert multiset(r) == multiset([s[0]]) + multiset(s[1..]);
    assert |multiset(r)| == |r|;
    r
  }

  /** `ConvexHullAlgorithms::compute`: the input itself below 3 points,
      otherwise the stack scan of the sorted points. */
  function Hull(points: seq<AlgoPoint2D>, byYX: YXSort, byAngle: AngleSort): seq<AlgoPoint2D>
    requires SortsYX(byYX) && Permutes(byAngle)
  {
    if |points| < 3 then points
    else
      var sorted := SortedForHull(points, byYX, byAngle);
      Scan([sorted[0], sorted[1]], sorted[2..])
  }

  /** The first point of a (y, x)-sorted permutation is a lowest point. */
  lemma SortedFirstIsLowest(points: seq<AlgoPoint2D>, byYX: YXSort)
    requires |points| >= 1 && SortsYX(byYX)
    ensures |byYX(points)| == |points| && IsLowest(byYX(points)[0], points)
  {
    var s := byYX(points);
    assert |multiset(s)| == |s|;
    assert s[0] in multiset(s);
    forall q | q in points
      ensures !LowerYX(q, s[0])
    {
      assert q in multiset(points);
      var j :| 0 <= j < |s| && s[j] == q;
      if j > 0 {
        assert !LowerYX(s[j], s[0]);
      }
    }
  }

  /** For 3 or more points the hull starts at a lowest point (least y, then
      least x), keeps between 2 and n input points, and every three
      consecutive hull points turn strictly left; below 3 points the input
      comes back unchanged. */
  lemma HullFacts(points: seq<AlgoPoint2D>, byYX: YXSort, byAngle: AngleSort)
    requires SortsYX(byYX) && Permutes(byAngle)
    ensures |points| < 3 ==> Hull(points, byYX, byAngle) == points
    ensures |points| >= 3 ==>
      var h := Hull(points, byYX, byAngle);
      2 <= |h| <= |points| && IsLowest(h[0], points) && LeftTurns(h) &&
      forall q :: q in h ==> q in points
  {
    if |points| >= 3 {
      var sorted := SortedForHull(points, byYX, byAngle);
      PairLeftTurns(sorted[0], sorted[1]);
      ScanFacts([sorted[0], sorted[1]], sorted[2..]);
      ScanProvenance([sorted[0], sorted[1]], sorted[2..]);
      SortedFirstIsLowest(points, byYX);
      var h := Hull(points, byYX, byAngle);
      forall q | q in h
        ensures q in points
      {
        assert q in sorted by {
          if q !in [sorted[0], sorted[1]] {
            var i :| 0 <= i < |sorted[2..]| && sorted[2..][i] == q;
            assert sorted[i + 2] == q;
          }
        }
        assert q in multiset(sorted);
      }
    }
  }

  /** `compute`: both sorts on a copy, then the push/pop stack loop. */
  method Compute(points: seq<AlgoPoint2D>, byYX: YXSort, byAngle: AngleSort) returns (hull: seq<AlgoPoint2D>)
    requires SortsYX(byYX) && Permutes(byAngle)
    ensures hull == Hull(points, byYX, byAngle)
  {
    if |points| < 3 {
      return points;
    }
    var sortedPoints := byYX(points);
    sortedPoints := [sortedPoints[0]] + byAngle(sortedPoints[0], sortedPoints[1..]);
    assert sortedPoints == SortedForHull(points, byYX, byAngle);
    hull := StackScan(sortedPoints);
  }
}
