/** The polygon boolean engine's loops, each proved equal to the function of
    PolygonBoolSpec that says what it computes. */
module PolygonBoolean {
  import opened Planar
  import opened BoolPoints
  import opened PolygonBoolSpec

  /** `pointInPolygon`: the even-odd ray test, j trailing i around the cycle. */
  method PointInPolygon(p: BoolPoint, contour: PolygonContour) returns (inside: bool)
    ensures inside == RayParity(p, contour.points)
  {
    var pts := contour.points;
    var n := |pts|;
    if n < 3 {
      return false;
    }
    inside := false;
    var i, j := 0, n - 1;
    while i < n
      invariant 0 <= i <= n
      invariant j == if i == 0 then n - 1 else i - 1
      invariant inside == (i > 0 && RayCrosses(p, pts[0], pts[n - 1]) != ChainParity(p, pts[..i]))
    {
      if RayCrosses(p, pts[i], pts[j]) {
        inside := !inside;
      }
      if i > 0 {
        assert pts[..i + 1][..i] == pts[..i];
      }
      i, j := i + 1, i;
    }
    assert pts[..n] == pts;
  }

  /** `pointInPolygonList`: the hole flag of the first contour containing p
      decides; when no contour contains p the answer is false. */
  method PointInPolygonList(p: BoolPoint, polygons: seq<PolygonContour>) returns (r: bool)
    ensures (forall k :: 0 <= k < |polygons| ==> !RayParity(p, polygons[k].points)) ==> !r
    ensures forall k :: 0 <= k < |polygons| && RayParity(p, polygons[k].points) &&
                        (forall m :: 0 <= m < k ==> !RayParity(p, polygons[m].points)) ==>
                          r == !polygons[k].isHole
  {
    var k := 0;
    while k < |polygons|
      invariant 0 <= k <= |polygons|
      invariant forall m :: 0 <= m < k ==> !RayParity(p, polygons[m].points)
    {
      var inside := PointInPolygon(p, polygons[k]);
      if inside {
        return !polygons[k].isHole;
      }
      k := k + 1;
    }
    return false;
  }

  /** `polygonArea`: the shoelace sum over i and (i + 1) mod n, halved. */
  method PolygonArea(contour: PolygonContour) returns (area: real)
    ensures area == Area(contour.points)
  {
    var pts := contour.points;
    var n := |pts|;
    if n < 3 {
      return 0.0;
    }
    var sum := 0.0;
    var i := 0;
    while i < n
      invariant 0 <= i <= n
      invariant i < n ==> sum == OpenSum(pts[..i + 1])
      invariant i == n ==> sum == OpenSum(pts) + Cross(pts[n - 1], pts[0])
    {
      var j := Next(i, n);
      ghost var before := sum;
      sum := sum + pts[i].x * pts[j].y;
      sum := sum - pts[j].x * pts[i].y;
      ShoelaceStep(before, pts[i], pts[j]);
      if i + 1 < n {
        OpenSumPrefix(pts, i);
      } else {
        assert pts[..i + 1] == pts;
      }
      i := i + 1;
    }
    area := sum / 2.0;
  }

  /** The two updates of one loop turn add the cross product of the pair. */
  lemma ShoelaceStep(sum: real, a: BoolPoint, b: BoolPoint)
    ensures sum + a.x * b.y - b.x * a.y == sum + Cross(a, b)
  {
  }

  /** One more point on the open chain adds the cross product of the last
      pair. */
  lemma OpenSumPrefix(s: seq<BoolPoint>, i: nat)
    requires i + 1 < |s|
    ensures OpenSum(s[..i + 2]) == OpenSum(s[..i + 1]) + Cross(s[i], s[i + 1])
  {
    assert s[..i + 2][..i + 1] == s[..i + 1];
  }

  /** `ensureWindingOrder`: the contour with its points reversed when the
      sign of its area disagrees with the requested orientation. */
  method EnsureWindingOrder(contour: PolygonContour, clockwise: bool) returns (fixed: PolygonContour)
    ensures fixed == contour.(points := WindingFixed(contour.points, clockwise))
  {
    fixed := contour;
    if |contour.points| < 3 {
      return;
    }
    var area := PolygonArea(contour);
    var isClockwise := area < 0.0;
    if isClockwise != clockwise {
      fixed := contour.(points := Reverse(contour.points));
    }
  }

  /** Steps a and b of INTERSECTION: the points of pts inside `other`,
      added to the de-duplicated list. */
  method CollectInside(all0: seq<BoolPoint>, pts: seq<BoolPoint>, other: PolygonContour) returns (all: seq<BoolPoint>)
    ensures all == InsideInto(all0, pts, 0, other.points)
  {
    all := all0;
    var k := 0;
    while k < |pts|
      invariant 0 <= k <= |pts|
      invariant InsideInto(all, pts, k, other.points) == InsideInto(all0, pts, 0, other.points)
    {
      var p := pts[k];
      var inside := PointInPolygon(p, other);
      if inside && !Contains(all, p) {
        all := all + [p];
      }
      k := k + 1;
    }
  }

  /** The inner edge loop: edge a1a2 against every edge of pts2, hits added
      to the de-duplicated list. */
  method CollectRowHits(all0: seq<BoolPoint>, a1: BoolPoint, a2: BoolPoint, pts2: seq<BoolPoint>) returns (all: seq<BoolPoint>)
    ensures all == RowInto(all0, a1, a2, pts2, 0)
  {
    all := all0;
    var j := 0;
    while j < |pts2|
      invariant 0 <= j <= |pts2|
      invariant RowInto(all, a1, a2, pts2, j) == RowInto(all0, a1, a2, pts2, 0)
    {
      var b1, b2 := pts2[j], pts2[(j + 1) % |pts2|];
      var hit := SegmentsIntersect(a1, a2, b1, b2);
      if hit.Some? && !Contains(all, hit.value) {
        all := all + [hit.value];
      }
      j := j + 1;
    }
  }

  /** The edge-by-edge intersection loops: every edge of pts1 against every
      edge of pts2. */
  method CollectEdgeHits(all0: seq<BoolPoint>, pts1: seq<BoolPoint>, pts2: seq<BoolPoint>) returns (all: seq<BoolPoint>)
    ensures all == EdgesInto(all0, pts1, pts2, 0)
  {
    all := all0;
    var i := 0;
    while i < |pts1|
      invariant 0 <= i <= |pts1|
      invariant EdgesInto(all, pts1, pts2, i) == EdgesInto(all0, pts1, pts2, 0)
    {
      var a1, a2 := pts1[i], pts1[(i + 1) % |pts1|];
      all := CollectRowHits(all, a1, a2, pts2);
      i := i + 1;
    }
  }

  /** DIFFERENCE's inner loop over poly2, stopping at the first contour
      that contains p. */
  method InsideAnyOf(p: BoolPoint, polygons: seq<PolygonContour>) returns (insideAny: bool)
    ensures insideAny == InsideAny(p, polygons)
  {
    insideAny := false;
    var m := 0;
    while m < |polygons|
      invariant 0 <= m <= |polygons|
      invariant forall m' :: 0 <= m' < m ==> !RayParity(p, polygons[m'].points)
    {
      var inside := PointInPolygon(p, polygons[m]);
      if inside {
        insideAny := true;
        break;
      }
      m := m + 1;
    }
  }

  /** Step a of DIFFERENCE: the points of pts inside no contour of poly2. */
  method CollectOutside(all0: seq<BoolPoint>, pts: seq<BoolPoint>, polygons: seq<PolygonContour>) returns (all: seq<BoolPoint>)
    ensures all == OutsideInto(all0, pts, 0, polygons)
  {
    all := all0;
    var k := 0;
    while k < |pts|
      invariant 0 <= k <= |pts|
      invariant OutsideInto(all, pts, k, polygons) == OutsideInto(all0, pts, 0, polygons)
    {
      var p := pts[k];
      var insideAny := InsideAnyOf(p, polygons);
      if !insideAny && !Contains(all, p) {
        all := all + [p];
      }
      k := k + 1;
    }
  }

  /** Step b of DIFFERENCE: edge hits against every contour of poly2 with at
      least 3 points. */
  method CollectDiffHits(all0: seq<BoolPoint>, pts: seq<BoolPoint>, polygons: seq<PolygonContour>) returns (all: seq<BoolPoint>)
    ensures all == DiffHitsInto(all0, pts, polygons, 0)
  {
    all := all0;
    var m := 0;
    while m < |polygons|
      invariant 0 <= m <= |polygons|
      invariant DiffHitsInto(all, pts, polygons, m) == DiffHitsInto(all0, pts, polygons, 0)
    {
      if |polygons[m].points| >= 3 {
        all := CollectEdgeHits(all, pts, polygons[m].points);
      }
      m := m + 1;
    }
  }

  /** The centre loop: coordinate sums divided by the point count. */
  method ComputeCenter(all: seq<BoolPoint>) returns (center: BoolPoint)
    requires |all| > 0
    ensures center == Centroid(all)
  {
    var cx, cy := 0.0, 0.0;
    var k := 0;
    while k < |all|
      invariant 0 <= k <= |all|
      invariant cx == SumX(all[..k]) && cy == SumY(all[..k])
    {
      assert all[..k + 1][..k] == all[..k];
      cx, cy := cx + all[k].x, cy + all[k].y;
      k := k + 1;
    }
    assert all[..|all|] == all;
    center := Point(cx / (|all| as real), cy / (|all| as real));
  }

  /** The closing block of both operations: at least 3 points make a
      contour, sorted by angle when more than 3, then wound
      counter-clockwise. */
  method FinishContour(all: seq<BoolPoint>, angularSort: AngularSort) returns (o: Option<PolygonContour>)
    ensures o == Finish(all, angularSort)
  {
    if |all| < 3 {
      return None;
    }
    var pts := all;
    if |all| > 3 {
      var center := ComputeCenter(all);
      pts := angularSort(center, all);
    }
    var c := EnsureWindingOrder(PolygonContour(pts, false), false);
    return Some(c);
  }

  /** The UNION branch: both lists concatenated, each contour wound
      counter-clockwise with its hole flag cleared. */
  method UnionOp(poly1: seq<PolygonContour>, poly2: seq<PolygonContour>) returns (result: seq<PolygonContour>)
    ensures result == UnionAll(poly1, poly2)
  {
    var src := poly1 + poly2;
    result := src;
    var k := 0;
    while k < |result|
      invariant |result| == |src| && 0 <= k <= |result|
      invariant forall m :: 0 <= m < k ==> result[m] == UnionContour(src[m])
      invariant forall m :: k <= m < |result| ==> result[m] == src[m]
    {
      var c := EnsureWindingOrder(result[k], false);
      result := result[k := c.(isHole := false)];
      k := k + 1;
    }
  }

  /** The INTERSECTION branch for non-empty operands. */
  method IntersectionOp(poly1: seq<PolygonContour>, poly2: seq<PolygonContour>, angularSort: AngularSort)
    returns (result: seq<PolygonContour>)
    ensures result == IntersectInto([], poly1, poly2, 0, angularSort)
  {
    result := [];
    var k := 0;
    while k < |poly1|
      invariant 0 <= k <= |poly1|
      invariant IntersectInto(result, poly1, poly2, k, angularSort) == IntersectInto([], poly1, poly2, 0, angularSort)
    {
      var c1 := poly1[k];
      if |c1.points| >= 3 {
        result := IntersectRow(result, c1, poly2, angularSort);
      }
      k := k + 1;
    }
  }

  /** The loop over poly2 for one contour1 of INTERSECTION. */
  method IntersectRow(result0: seq<PolygonContour>, c1: PolygonContour, poly2: seq<PolygonContour>, angularSort: AngularSort)
    returns (result: seq<PolygonContour>)
    ensures result == IntersectRowInto(result0, c1, poly2, 0, angularSort)
  {
    result := result0;
    var m := 0;
    while m < |poly2|
      invariant 0 <= m <= |poly2|
      invariant IntersectRowInto(result, c1, poly2, m, angularSort) == IntersectRowInto(result0, c1, poly2, 0, angularSort)
    {
      var c2 := poly2[m];
      if |c2.points| >= 3 {
        var all := CollectInside([], c1.points, c2);
        all := CollectInside(all, c2.points, c1);
        all := CollectEdgeHits(all, c1.points, c2.points);
        var o := FinishContour(all, angularSort);
        if o.Some? {
          result := result + [o.value];
        }
      }
      m := m + 1;
    }
  }

  /** The DIFFERENCE branch for non-empty operands. */
  method DifferenceOp(poly1: seq<PolygonContour>, poly2: seq<PolygonContour>, angularSort: AngularSort)
    returns (result: seq<PolygonContour>)
    ensures result == DiffInto([], poly1, poly2, 0, angularSort)
  {
    result := [];
    var k := 0;
    while k < |poly1|
      invariant 0 <= k <= |poly1|
      invariant DiffInto(result, poly1, poly2, k, angularSort) == DiffInto([], poly1, poly2, 0, angularSort)
    {
      var c1 := poly1[k];
      if |c1.points| >= 3 {
        var all := CollectOutside([], c1.points, poly2);
        all := CollectDiffHits(all, c1.points, poly2);
        var o := FinishContour(all, angularSort);
        if o.Some? {
          result := result + [o.value];
        }
      }
      k := k + 1;
    }
  }

  /** `booleanOperation`: the early exits, then one branch per operation. */
  method BooleanOperation(poly1: seq<PolygonContour>, poly2: seq<PolygonContour>, op: Operation, angularSort: AngularSort)
    returns (result: seq<PolygonContour>)
    ensures result == BooleanResult(poly1, poly2, op, angularSort)
  {
    result := [];
    if poly1 == [] && poly2 == [] {
      return;
    }
    match op
    case Union =>
      result := UnionOp(poly1, poly2);
    case Intersection =>
      if poly1 != [] && poly2 != [] {
        result := IntersectionOp(poly1, poly2, angularSort);
      }
    case Difference =>
      if poly1 == [] {
        return;
      }
      if poly2 == [] {
        return poly1;
      }
      result := DifferenceOp(poly1, poly2, angularSort);
  }
}
