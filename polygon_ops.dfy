/** The polygon-operations widget's operations: the collect-then-hull
    INTERSECTION, UNION and DIFFERENCE of two point polygons, with the
    ray-casting inside test and the parametric edge intersection they use. */
module PolygonOps {
  import opened Planar
  import opened AlgoPolygons

  datatype Operation = INTERSECTION | UNION | DIFFERENCE

  /** The parallel-edge tolerance of `lineSegmentIntersection` (1e-9). */
  const LineEpsilon: real := 0.000000001

  /** `lineSegmentIntersection`: None for nearly parallel edges, otherwise
      the meeting point a1 + d1*t when both edge parameters lie in [0, 1]. */
  function LineSegmentIntersection(a1: AlgoPoint, a2: AlgoPoint, b1: AlgoPoint, b2: AlgoPoint): (r: Option<AlgoPoint>)
    ensures Abs(Cross(Sub(a2, a1), Sub(b2, b1))) < LineEpsilon ==> r.None?
    ensures r.Some? <==>
      (Abs(Cross(Sub(a2, a1), Sub(b2, b1))) >= LineEpsilon &&
       0.0 <= ParamT(a1, a2, b1, b2) <= 1.0 && 0.0 <= ParamU(a1, a2, b1, b2) <= 1.0)
    ensures r.Some? ==>
      r.value == PointAt(a1, Sub(a2, a1), ParamT(a1, a2, b1, b2)) &&
      r.value == PointAt(b1, Sub(b2, b1), ParamU(a1, a2, b1, b2))
  {
    SegmentIntersection(a1, a2, b1, b2, LineEpsilon)
  }

  function HitList(hit: Option<AlgoPoint>): seq<AlgoPoint>
  {
    if hit.Some? then [hit.value] else []
  }

  // ---------------------------------------------------------------------
  // The collected points, as functions of the inputs

  /** The first k points of pts whose inside test against other is
      keepInside, in order. */
  function Kept(pts: seq<AlgoPoint>, other: seq<AlgoPoint>, k: nat, keepInside: bool): seq<AlgoPoint>
    requires k <= |pts|
  {
    if k == 0 then []
    else Kept(pts, other, k - 1, keepInside) + (if RayParity(pts[k - 1], other) == keepInside then [pts[k - 1]] else [])
  }

  /** The hits of edge a1a2 against the first j edges (ys[j'], ys[j'+1 mod m]). */
  function RowHits(a1: AlgoPoint, a2: AlgoPoint, ys: seq<AlgoPoint>, j: nat): seq<AlgoPoint>
    requires j <= |ys|
  {
    if j == 0 then []
    else RowHits(a1, a2, ys, j - 1) + HitList(LineSegmentIntersection(a1, a2, ys[j - 1], ys[Next(j - 1, |ys|)]))
  }

  /** The hits of the first i edges of xs against every edge of ys. */
  function EdgeHits(xs: seq<AlgoPoint>, ys: seq<AlgoPoint>, i: nat): seq<AlgoPoint>
    requires i <= |xs|
  {
    if i == 0 then []
    else EdgeHits(xs, ys, i - 1) + RowHits(xs[i - 1], xs[Next(i - 1, |xs|)], ys, |ys|)
  }

  /** q is where edge i of xs meets edge j of ys. */
  predicate EdgeHitAt(q: AlgoPoint, xs: seq<AlgoPoint>, ys: seq<AlgoPoint>, i: nat, j: nat)
    requires i < |xs| && j < |ys|
  {
    LineSegmentIntersection(xs[i], xs[Next(i, |xs|)], ys[j], ys[Next(j, |ys|)]) == Some(q)
  }

  /** q is where edge i of xs meets some edge of ys. */
  ghost predicate RowHit(q: AlgoPoint, xs: seq<AlgoPoint>, ys: seq<AlgoPoint>, i: nat)
    requires i < |xs|
  {
    exists j: nat :: j < |ys| && EdgeHitAt(q, xs, ys, i, j)
  }

  /** q is where some edge of xs meets some edge of ys. */
  ghost predicate IsEdgeHit(q: AlgoPoint, xs: seq<AlgoPoint>, ys: seq<AlgoPoint>)
  {
    exists i: nat :: i < |xs| && RowHit(q, xs, ys, i)
  }

  function IntersectionCandidates(pts1: seq<AlgoPoint>, pts2: seq<AlgoPoint>): seq<AlgoPoint>
  {
    Kept(pts1, pts2, |pts1|, true) + Kept(pts2, pts1, |pts2|, true) + EdgeHits(pts1, pts2, |pts1|)
  }

  function DifferenceCandidates(pts1: seq<AlgoPoint>, pts2: seq<AlgoPoint>): seq<AlgoPoint>
  {
    Kept(pts1, pts2, |pts1|, false) + EdgeHits(pts1, pts2, |pts1|)
  }

  /** The closing step of every operation: an empty collection is returned
      as it is, any other is replaced by its hull. */
  function Finish(collected: seq<AlgoPoint>, sort: PivotSort): seq<AlgoPoint>
    requires Permutes(sort)
  {
    if collected == [] then [] else ConvexHull(collected, sort)
  }

  function OperationResult(pts1: seq<AlgoPoint>, pts2: seq<AlgoPoint>, op: Operation, sort: PivotSort): seq<AlgoPoint>
    requires Permutes(sort)
  {
    match op
    case INTERSECTION => Finish(IntersectionCandidates(pts1, pts2), sort)
    case UNION => Finish(pts1 + pts2, sort)
    case DIFFERENCE => Finish(DifferenceCandidates(pts1, pts2), sort)
  }

  // ---------------------------------------------------------------------
  // What the collected points are

  /** A point is kept exactly when it is one of pts and its inside test
      gives keepInside. */
  lemma {:induction false} KeptMeaning(pts: seq<AlgoPoint>, other: seq<AlgoPoint>, k: nat, keepInside: bool, q: AlgoPoint)
    requires k <= |pts|
    ensures q in Kept(pts, other, k, keepInside) <==> q in pts[..k] && RayParity(q, other) == keepInside
  {
    if k > 0 {
      KeptMeaning(pts, other, k - 1, keepInside, q);
      assert pts[..k] == pts[..k - 1] + [pts[k - 1]];
    }
  }

  /** q is where edge i of xs meets one of the first j edges of ys. */
  ghost predicate RowHitBelow(q: AlgoPoint, xs: seq<AlgoPoint>, ys: seq<AlgoPoint>, i: nat, j: nat)
    requires i < |xs| && j <= |ys|
  {
    j > 0 && (RowHitBelow(q, xs, ys, i, j - 1) || EdgeHitAt(q, xs, ys, i, j - 1))
  }

  /** q is where one of the first i edges of xs meets some edge of ys. */
  ghost predicate EdgeHitBelow(q: AlgoPoint, xs: seq<AlgoPoint>, ys: seq<AlgoPoint>, i: nat)
    requires i <= |xs|
  {
    i > 0 && (EdgeHitBelow(q, xs, ys, i - 1) || RowHitBelow(q, xs, ys, i - 1, |ys|))
  }

  lemma {:induction false} RowHitBelowExists(q: AlgoPoint, xs: seq<AlgoPoint>, ys: seq<AlgoPoint>, i: nat, j: nat)
    requires i < |xs| && j <= |ys|
    ensures RowHitBelow(q, xs, ys, i, j) <==> exists j': nat :: j' < j && EdgeHitAt(q, xs, ys, i, j')
  {
    if j > 0 {
      RowHitBelowExists(q, xs, ys, i, j - 1);
    }
  }

  lemma {:induction false} EdgeHitBelowExists(q: AlgoPoint, xs: seq<AlgoPoint>, ys: seq<AlgoPoint>, i: nat)
    requires i <= |xs|
    ensures EdgeHitBelow(q, xs, ys, i) <==> exists i': nat :: i' < i && RowHit(q, xs, ys, i')
  {
    if i > 0 {
      EdgeHitBelowExists(q, xs, ys, i - 1);
      RowHitBelowExists(q, xs, ys, i - 1, |ys|);
      assert RowHitBelow(q, xs, ys, i - 1, |ys|) <==> RowHit(q, xs, ys, i - 1);
      if EdgeHitBelow(q, xs, ys, i) && !EdgeHitBelow(q, xs, ys, i - 1) {
        assert RowHit(q, xs, ys, i - 1);
      }
    }
  }

  lemma InConcat(q: AlgoPoint, u: seq<AlgoPoint>, v: seq<AlgoPoint>)
    ensures q in u + v <==> q in u || q in v
  {
  }

  /** The hit list of one edge pair holds exactly their meeting point. */
  lemma HitListMeaning(q: AlgoPoint, xs: seq<AlgoPoint>, ys: seq<AlgoPoint>, i: nat, j: nat)
    requires i < |xs| && j < |ys|
    ensures q in HitList(LineSegmentIntersection(xs[i], xs[Next(i, |xs|)], ys[j], ys[Next(j, |ys|)]))
      <==> EdgeHitAt(q, xs, ys, i, j)
  {
  }

  lemma {:induction false} RowHitsMeaning(xs: seq<AlgoPoint>, i: nat, ys: seq<AlgoPoint>, j: nat, q: AlgoPoint)
    requires i < |xs| && j <= |ys|
    ensures q in RowHits(xs[i], xs[Next(i, |xs|)], ys, j) <==> RowHitBelow(q, xs, ys, i, j)
  {
    if j > 0 {
      RowHitsMeaning(xs, i, ys, j - 1, q);
      HitListMeaning(q, xs, ys, i, j - 1);
      InConcat(q, RowHits(xs[i], xs[Next(i, |xs|)], ys, j - 1),
        HitList(LineSegmentIntersection(xs[i], xs[Next(i, |xs|)], ys[j - 1], ys[Next(j - 1, |ys|)])));
    }
  }

  lemma {:induction false} EdgeHitsMeaning(xs: seq<AlgoPoint>, ys: seq<AlgoPoint>, i: nat, q: AlgoPoint)
    requires i <= |xs|
    ensures q in EdgeHits(xs, ys, i) <==> EdgeHitBelow(q, xs, ys, i)
  {
    if i > 0 {
      EdgeHitsMeaning(xs, ys, i - 1, q);
      EdgeHitsStep(xs, ys, i, q);
    }
  }

  lemma EdgeHitsStep(xs: seq<AlgoPoint>, ys: seq<AlgoPoint>, i: nat, q: AlgoPoint)
    requires 0 < i <= |xs|
    requires q in EdgeHits(xs, ys, i - 1) <==> EdgeHitBelow(q, xs, ys, i - 1)
    ensures q in EdgeHits(xs, ys, i) <==> EdgeHitBelow(q, xs, ys, i)
  {
    RowHitsMeaning(xs, i - 1, ys, |ys|, q);
    var row := RowHits(xs[i - 1], xs[Next(i - 1, |xs|)], ys, |ys|);
    assert EdgeHits(xs, ys, i) == EdgeHits(xs, ys, i - 1) + row;
    InConcat(q, EdgeHits(xs, ys, i - 1), row);
  }

  /** Every edge-pair hit is collected, and every collected hit is where
      an edge of the first polygon meets one of the second. */
  lemma EdgeHitsComplete(xs: seq<AlgoPoint>, ys: seq<AlgoPoint>, q: AlgoPoint)
    ensures q in EdgeHits(xs, ys, |xs|) <==> IsEdgeHit(q, xs, ys)
  {
    EdgeHitsMeaning(xs, ys, |xs|, q);
    EdgeHitBelowExists(q, xs, ys, |xs|);
  }

  /** INTERSECTION collects the vertices of each polygon inside the other
      and the edge-pair hits, and nothing else; DIFFERENCE the vertices of
      the first polygon not inside the second, and the hits. */
  lemma CandidatesMeaning(pts1: seq<AlgoPoint>, pts2: seq<AlgoPoint>, q: AlgoPoint)
    ensures q in IntersectionCandidates(pts1, pts2) <==>
      (q in pts1 && RayParity(q, pts2)) || (q in pts2 && RayParity(q, pts1)) || IsEdgeHit(q, pts1, pts2)
    ensures q in DifferenceCandidates(pts1, pts2) <==>
      (q in pts1 && !RayParity(q, pts2)) || IsEdgeHit(q, pts1, pts2)
  {
    KeptMeaning(pts1, pts2, |pts1|, true, q);
    KeptMeaning(pts2, pts1, |pts2|, true, q);
    KeptMeaning(pts1, pts2, |pts1|, false, q);
    EdgeHitsComplete(pts1, pts2, q);
    assert pts1[..|pts1|] == pts1 && pts2[..|pts2|] == pts2;
  }

  /** Fewer than 3 vertices: never inside. */
  lemma InsideNeedsThreeVertices(p: AlgoPoint, polygon: seq<AlgoPoint>)
    requires |polygon| < 3
    ensures !RayParity(p, polygon)
    ensures Kept(polygon, polygon, |polygon|, true) == []
  {
    KeptEmpty(polygon, polygon, |polygon|);
  }

  lemma {:induction false} KeptEmpty(pts: seq<AlgoPoint>, other: seq<AlgoPoint>, k: nat)
    requires k <= |pts| && |other| < 3
    ensures Kept(pts, other, k, true) == []
  {
    if k > 0 {
      KeptEmpty(pts, other, k - 1);
    }
  }

  /** Every operation's result is empty exactly when it collected nothing;
      otherwise it is the hull of what it collected: a left-turn chain that
      starts at the lowest collected point and holds only collected points
      (for 3 or more collected points). */
  lemma FinishFacts(collected: seq<AlgoPoint>, sort: PivotSort)
    requires Permutes(sort)
    ensures Finish(collected, sort) == [] <==> collected == []
    ensures forall q :: q in Finish(collected, sort) ==> q in collected
    ensures |collected| >= 3 ==>
      (LeftTurns(Finish(collected, sort)) && IsLowest(Finish(collected, sort)[0], collected))
  {
    ConvexHullFacts(collected, sort);
  }

  /** UNION hulls every point of both polygons: its result is empty exactly
      when both polygons are, and holds only their points. */
  lemma UnionFacts(pts1: seq<AlgoPoint>, pts2: seq<AlgoPoint>, sort: PivotSort)
    requires Permutes(sort)
    ensures OperationResult(pts1, pts2, UNION, sort) == [] <==> pts1 == [] && pts2 == []
    ensures forall q :: q in OperationResult(pts1, pts2, UNION, sort) ==> q in pts1 || q in pts2
  {
    FinishFacts(pts1 + pts2, sort);
  }

  /** Every point INTERSECTION returns is a vertex inside the other polygon
      or an edge-pair hit; every point DIFFERENCE returns is a vertex of the
      first polygon outside the second or an edge-pair hit. */
  lemma IntersectionDifferenceFacts(pts1: seq<AlgoPoint>, pts2: seq<AlgoPoint>, sort: PivotSort, q: AlgoPoint)
    requires Permutes(sort)
    ensures q in OperationResult(pts1, pts2, INTERSECTION, sort) ==>
      (q in pts1 && RayParity(q, pts2)) || (q in pts2 && RayParity(q, pts1)) || IsEdgeHit(q, pts1, pts2)
    ensures q in OperationResult(pts1, pts2, DIFFERENCE, sort) ==>
      (q in pts1 && !RayParity(q, pts2)) || IsEdgeHit(q, pts1, pts2)
  {
    FinishFacts(IntersectionCandidates(pts1, pts2), sort);
    FinishFacts(DifferenceCandidates(pts1, pts2), sort);
    CandidatesMeaning(pts1, pts2, q);
  }

  // ---------------------------------------------------------------------
  // The loops

  /** `isPointInsidePolygon`: the even-odd ray test, j trailing i around
      the cycle; false below 3 vertices. */
  method IsPointInsidePolygon(p: AlgoPoint, polygon: seq<AlgoPoint>) returns (inside: bool)
    ensures inside == RayParity(p, polygon)
  {
    var n := |polygon|;
    if n < 3 {
      return false;
    }
    inside := false;
    var i, j := 0, n - 1;
    while i < n
      invariant 0 <= i <= n
      invariant j == if i == 0 then n - 1 else i - 1
      invariant inside == (i > 0 && RayCrosses(p, polygon[0], polygon[n - 1]) != ChainParity(p, polygon[..i]))
    {
      if RayCrosses(p, polygon[i], polygon[j]) {
        inside := !inside;
      }
      if i > 0 {
        assert polygon[..i + 1][..i] == polygon[..i];
      }
      i, j := i + 1, i;
    }
    assert polygon[..n] == polygon;
  }

  /** The vertex loops: each point of pts whose inside test against other
      is keepInside is added to result. */
  method CollectVertices(result: AlgoPolygon, pts: seq<AlgoPoint>, other: seq<AlgoPoint>, keepInside: bool)
    modifies result
    ensures result.points == old(result.points) + Kept(pts, other, |pts|, keepInside)
  {
    var k := 0;
    while k < |pts|
      invariant 0 <= k <= |pts|
      invariant result.points == old(result.points) + Kept(pts, other, k, keepInside)
    {
      var inside := IsPointInsidePolygon(pts[k], other);
      if inside == keepInside {
        result.AddPoint(pts[k]);
      }
      k := k + 1;
    }
  }

  /** The inner edge loop for edge a1a2. */
  method CollectRowHits(result: AlgoPolygon, a1: AlgoPoint, a2: AlgoPoint, ys: seq<AlgoPoint>)
    modifies result
    ensures result.points == old(result.points) + RowHits(a1, a2, ys, |ys|)
  {
    var j := 0;
    while j < |ys|
      invariant 0 <= j <= |ys|
      invariant result.points == old(result.points) + RowHits(a1, a2, ys, j)
    {
      var nextJ := (j + 1) % |ys|;
      var hit := LineSegmentIntersection(a1, a2, ys[j], ys[nextJ]);
      if hit.Some? {
        result.AddPoint(hit.value);
      }
      j := j + 1;
    }
  }

  /** The edge-pair loops: every edge of xs against every edge of ys, the
      last edge of each closing the cycle. */
  method CollectEdgeHits(result: AlgoPolygon, xs: seq<AlgoPoint>, ys: seq<AlgoPoint>)
    modifies result
    ensures result.points == old(result.points) + EdgeHits(xs, ys, |xs|)
  {
    var i := 0;
    while i < |xs|
      invariant 0 <= i <= |xs|
      invariant result.points == old(result.points) + EdgeHits(xs, ys, i)
    {
      var nextI := (i + 1) % |xs|;
      CollectRowHits(result, xs[i], xs[nextI], ys);
      i := i + 1;
    }
  }

  /** `computeIntersection`. */
  method ComputeIntersection(poly1: AlgoPolygon, poly2: AlgoPolygon, sort: PivotSort) returns (result: AlgoPolygon)
    requires Permutes(sort)
    ensures fresh(result)
    ensures result.points == Finish(IntersectionCandidates(poly1.points, poly2.points), sort)
  {
    result := new AlgoPolygon();
    var points1 := poly1.points;
    var points2 := poly2.points;
    CollectVertices(result, points1, points2, true);
    CollectVertices(result, points2, points1, true);
    CollectEdgeHits(result, points1, points2);
    assert result.points == IntersectionCandidates(points1, points2);
    if !result.Empty() {
      result.ComputeConvexHull(sort);
    }
  }

  /** `computeUnion`. */
  method ComputeUnion(poly1: AlgoPolygon, poly2: AlgoPolygon, sort: PivotSort) returns (result: AlgoPolygon)
    requires Permutes(sort)
    ensures fresh(result)
    ensures result.points == Finish(poly1.points + poly2.points, sort)
  {
    result := new AlgoPolygon();
    var allPoints := poly1.points + poly2.points;
    var k := 0;
    while k < |allPoints|
      invariant 0 <= k <= |allPoints|
      invariant result.points == allPoints[..k]
    {
      result.AddPoint(allPoints[k]);
      assert allPoints[..k + 1] == allPoints[..k] + [allPoints[k]];
      k := k + 1;
    }
    assert allPoints[..k] == allPoints;
    if !result.Empty() {
      result.ComputeConvexHull(sort);
    }
  }

  /** `computeDifference`. */
  method ComputeDifference(poly1: AlgoPolygon, poly2: AlgoPolygon, sort: PivotSort) returns (result: AlgoPolygon)
    requires Permutes(sort)
    ensures fresh(result)
    ensures result.points == Finish(DifferenceCandidates(poly1.points, poly2.points), sort)
  {
    result := new AlgoPolygon();
    var points1 := poly1.points;
    var points2 := poly2.points;
    CollectVertices(result, points1, points2, false);
    CollectEdgeHits(result, points1, points2);
    assert result.points == DifferenceCandidates(points1, points2);
    if !result.Empty() {
      result.ComputeConvexHull(sort);
    }
  }

  /** `computeOperation`: each operation goes to its own routine. */
  method ComputeOperation(poly1: AlgoPolygon, poly2: AlgoPolygon, op: Operation, sort: PivotSort) returns (result: AlgoPolygon)
    requires Permutes(sort)
    ensures fresh(result)
    ensures result.points == OperationResult(poly1.points, poly2.points, op, sort)
  {
    match op
    case INTERSECTION => result := ComputeIntersection(poly1, poly2, sort);
    case UNION => result := ComputeUnion(poly1, poly2, sort);
    case DIFFERENCE => result := ComputeDifference(poly1, poly2, sort);
  }
}
