/** `computeDelaunay`, the Bowyer-Watson triangulation of the Delaunay
    widget. The input points are followed by the three vertices of a large
    super-triangle; each input point in turn flags the triangles whose
    circumcircle holds it, removes them, and joins itself to every edge that
    only one of them had. At the end only the triangles on input points are
    kept. */
module DelaunayBuild {
  import opened Planar
  import opened Delaunay

  // ---------------------------------------------------------------------
  // The bounding box and the super-triangle

  datatype Bounds = Bounds(minX: real, maxX: real, minY: real, maxY: real)

  /** The box grown by one point, as the four `std::min`/`std::max` updates
      do. */
  function Extend(box: Bounds, p: AlgoPoint): Bounds
  {
    Bounds(Min(box.minX, p.x), Max(box.maxX, p.x), Min(box.minY, p.y), Max(box.maxY, p.y))
  }

  /** The box of the first k points. */
  function BoxOf(pts: seq<AlgoPoint>, k: nat): Bounds
    requires 0 < k <= |pts|
  {
    if k == 1 then Bounds(pts[0].x, pts[0].x, pts[0].y, pts[0].y) else Extend(BoxOf(pts, k - 1), pts[k - 1])
  }

  predicate Encloses(box: Bounds, p: AlgoPoint)
  {
    box.minX <= p.x <= box.maxX && box.minY <= p.y <= box.maxY
  }

  /** Each of the four bounds is the coordinate of one of the points. */
  predicate Attained(box: Bounds, pts: seq<AlgoPoint>, k: nat)
    requires k <= |pts|
  {
    (exists j :: 0 <= j < k && pts[j].x == box.minX) && (exists j :: 0 <= j < k && pts[j].x == box.maxX) &&
    (exists j :: 0 <= j < k && pts[j].y == box.minY) && (exists j :: 0 <= j < k && pts[j].y == box.maxY)
  }

  /** The box of the first k points is the smallest box holding them: it
      holds every one of them, and each bound is attained. */
  lemma {:induction false} BoxFacts(pts: seq<AlgoPoint>, k: nat)
    requires 0 < k <= |pts|
    ensures forall j :: 0 <= j < k ==> Encloses(BoxOf(pts, k), pts[j])
    ensures Attained(BoxOf(pts, k), pts, k)
  {
    if k > 1 {
      BoxFacts(pts, k - 1);
      var b := BoxOf(pts, k - 1);
      var p := pts[k - 1];
      if p.x < b.minX { assert pts[k - 1].x == BoxOf(pts, k).minX; }
      else { var j :| 0 <= j < k - 1 && pts[j].x == b.minX; assert pts[j].x == BoxOf(pts, k).minX; }
      if p.x > b.maxX { assert pts[k - 1].x == BoxOf(pts, k).maxX; }
      else { var j :| 0 <= j < k - 1 && pts[j].x == b.maxX; assert pts[j].x == BoxOf(pts, k).maxX; }
      if p.y < b.minY { assert pts[k - 1].y == BoxOf(pts, k).minY; }
      else { var j :| 0 <= j < k - 1 && pts[j].y == b.minY; assert pts[j].y == BoxOf(pts, k).minY; }
      if p.y > b.maxY { assert pts[k - 1].y == BoxOf(pts, k).maxY; }
      else { var j :| 0 <= j < k - 1 && pts[j].y == b.maxY; assert pts[j].y == BoxOf(pts, k).maxY; }
    } else {
      assert pts[0].x == BoxOf(pts, k).minX && pts[0].y == BoxOf(pts, k).minY;
    }
  }

  /** The first loop of `computeDelaunay`: minX, maxX, minY and maxY start at
      the first point and are widened by every point. */
  method BoundingBox(points: seq<AlgoPoint>) returns (box: Bounds)
    requires |points| > 0
    ensures box == BoxOf(points, |points|)
  {
    var minX, maxX := points[0].x, points[0].x;
    var minY, maxY := points[0].y, points[0].y;
    var i := 0;
    while i < |points|
      invariant 0 <= i <= |points|
      invariant Bounds(minX, maxX, minY, maxY) == BoxOf(points, if i == 0 then 1 else i)
    {
      minX := Min(minX, points[i].x);
      maxX := Max(maxX, points[i].x);
      minY := Min(minY, points[i].y);
      maxY := Max(maxY, points[i].y);
      i := i + 1;
    }
    box := Bounds(minX, maxX, minY, maxY);
  }

  /** deltaMax, the larger side of the box. */
  function DeltaMax(box: Bounds): real
  {
    Max(box.maxX - box.minX, box.maxY - box.minY)
  }

  /** The super-triangle's vertices, appended as the points n, n + 1 and
      n + 2 around the box's midpoint. */
  function SuperVertices(box: Bounds): (r: seq<AlgoPoint>)
    ensures |r| == 3
  {
    var deltaMax := DeltaMax(box);
    var midX := (box.minX + box.maxX) / 2.0;
    var midY := (box.minY + box.maxY) / 2.0;
    [Point(midX - 20.0 * deltaMax, midY - deltaMax),
     Point(midX, midY + 20.0 * deltaMax),
     Point(midX + 20.0 * deltaMax, midY - deltaMax)]
  }

  lemma PositiveProduct(a: real, b: real, c: real)
    requires a > 0.0 && b > 0.0 && c == a * b
    ensures c > 0.0
  {
  }

  /** The three turns of the super-triangle against a point (u, v) from its
      centre, with deltaMax = m. */
  lemma SuperTurns(m: real, u: real, v: real, t1: real, t2: real, t3: real)
    requires m > 0.0 && -m / 2.0 <= u <= m / 2.0 && -m / 2.0 <= v <= m / 2.0
    requires t1 == (40.0 * m) * (v + m) - 0.0 * (u + 20.0 * m)
    requires t2 == (-20.0 * m) * (v + m) - (21.0 * m) * (u - 20.0 * m)
    requires t3 == (-20.0 * m) * (v - 20.0 * m) - (-21.0 * m) * u
    ensures t1 > 0.0 && t2 > 0.0 && t3 > 0.0
  {
    PositiveProduct(40.0 * m, v + m, t1);
    PositiveProduct(m, 400.0 * m - 20.0 * v - 21.0 * u, t2);
    PositiveProduct(m, 400.0 * m - 20.0 * v + 21.0 * u, t3);
  }

  /** Every point of a box with sides not both 0 lies strictly inside the
      super-triangle built on that box: it is to the left of each side of
      the counter-clockwise triangle (n, n + 2, n + 1). */
  lemma SuperTriangleEncloses(box: Bounds, p: AlgoPoint)
    requires Encloses(box, p) && DeltaMax(box) > 0.0
    ensures var s := SuperVertices(box);
      Turn(s[0], s[2], p) > 0.0 && Turn(s[2], s[1], p) > 0.0 && Turn(s[1], s[0], p) > 0.0
  {
    var m := DeltaMax(box);
    var midX, midY := (box.minX + box.maxX) / 2.0, (box.minY + box.maxY) / 2.0;
    var u, v := p.x - midX, p.y - midY;
    var s := SuperVertices(box);
    SuperTurns(m, u, v, Turn(s[0], s[2], p), Turn(s[2], s[1], p), Turn(s[1], s[0], p));
  }

  // ---------------------------------------------------------------------
  // Index bounds

  /** All three indices of t are indices of a list of m points. The final
      filter's `triangle.p1 < points.size()` compares an `int` with a
      `size_t`, so a negative index fails it as well. */
  predicate TriangleBelow(t: AlgoTriangle, m: int)
  {
    0 <= t.p1 < m && 0 <= t.p2 < m && 0 <= t.p3 < m
  }

  /** Every triangle of ts lies on the first m points. */
  predicate AllBelow(ts: seq<AlgoTriangle>, m: int)
  {
    ts == [] || (AllBelow(ts[..|ts| - 1], m) && TriangleBelow(ts[|ts| - 1], m))
  }

  lemma {:induction false} AllBelowMeaning(ts: seq<AlgoTriangle>, m: int)
    ensures AllBelow(ts, m) <==> forall t :: t in ts ==> TriangleBelow(t, m)
  {
    if ts != [] {
      AllBelowMeaning(ts[..|ts| - 1], m);
      assert ts == ts[..|ts| - 1] + [ts[|ts| - 1]];
    }
  }

  predicate EdgeBelow(e: AlgoEdge, m: int)
  {
    0 <= e.p1 < m && 0 <= e.p2 < m
  }

  // ---------------------------------------------------------------------
  // One insertion step

  /** Whether inserting p flags triangle t: its circumcircle, over the
      points `tempPoints`, holds p. A triangle whose corners are collinear
      has no circumcircle; the program then divides by zero and the
      floating-point outcome decides, while this model chooses not to flag
      such a triangle. */
  predicate Flags(temp: seq<AlgoPoint>, t: AlgoTriangle, p: AlgoPoint)
  {
    TriangleBelow(t, |temp|) && Denominator(temp[t.p1], temp[t.p2], temp[t.p3]) != 0.0 &&
    IsPointInCircumcircle(temp[t.p1], temp[t.p2], temp[t.p3], p)
  }

  /** A circle test: whether inserting a point flags a triangle. The
      bookkeeping below is stated for any test; the program's own test is
      FlagTest over `tempPoints`. */
  type CircleTest = (AlgoTriangle, AlgoPoint) -> bool

  function FlagTest(temp: seq<AlgoPoint>): CircleTest
  {
    (t: AlgoTriangle, q: AlgoPoint) => Flags(temp, t, q)
  }

  /** `toRemove`: the flagged triangles, in list order. */
  function Flagged(ts: seq<AlgoTriangle>, test: CircleTest, p: AlgoPoint): (r: seq<AlgoTriangle>)
    ensures forall t :: t in r ==> t in ts
  {
    if ts == [] then []
    else
      var last := ts[|ts| - 1];
      Flagged(ts[..|ts| - 1], test, p) + (if test(last, p) then [last] else [])
  }

  /** The flagged triangles are exactly the triangles of the list that the
      inserted point flags. */
  lemma {:induction false} FlaggedMeaning(ts: seq<AlgoTriangle>, test: CircleTest, p: AlgoPoint, t: AlgoTriangle)
    ensures t in Flagged(ts, test, p) <==> t in ts && test(t, p)
  {
    if ts != [] {
      FlaggedMeaning(ts[..|ts| - 1], test, p, t);
      assert ts == ts[..|ts| - 1] + [ts[|ts| - 1]];
    }
  }

  /** The three edges the loop pushes for a flagged triangle. */
  function TriangleEdges(t: AlgoTriangle): seq<AlgoEdge>
  {
    [MakeEdge(t.p1, t.p2), MakeEdge(t.p2, t.p3), MakeEdge(t.p3, t.p1)]
  }

  /** `polygon`: the edges of the given triangles, three per triangle. */
  function Edges(ts: seq<AlgoTriangle>): (r: seq<AlgoEdge>)
    ensures |r| == 3 * |ts|
  {
    if ts == [] then [] else Edges(ts[..|ts| - 1]) + TriangleEdges(ts[|ts| - 1])
  }

  /** The edges of triangles on the first m points join two of those
      points. */
  lemma {:induction false} EdgesBelow(ts: seq<AlgoTriangle>, m: int)
    requires AllBelow(ts, m)
    ensures forall e :: e in Edges(ts) ==> EdgeBelow(e, m)
  {
    if ts != [] {
      EdgesBelow(ts[..|ts| - 1], m);
      assert TriangleBelow(ts[|ts| - 1], m);
    }
  }

  /** `triangleList.erase(std::remove(..., triangle), ...)`: every copy of t
      removed, the rest kept in order. */
  function RemoveAll(s: seq<AlgoTriangle>, t: AlgoTriangle): (r: seq<AlgoTriangle>)
    ensures forall x :: x in r <==> x in s && x != t
  {
    if s == [] then []
    else RemoveAll(s[..|s| - 1], t) + (if s[|s| - 1] == t then [] else [s[|s| - 1]])
  }

  /** The triangles of s that are not in rs, in order. */
  function Without(s: seq<AlgoTriangle>, rs: seq<AlgoTriangle>): seq<AlgoTriangle>
  {
    if s == [] then []
    else Without(s[..|s| - 1], rs) + (if s[|s| - 1] in rs then [] else [s[|s| - 1]])
  }

  /** A triangle is left exactly when it was in s and is not one of rs. */
  lemma {:induction false} WithoutMeaning(s: seq<AlgoTriangle>, rs: seq<AlgoTriangle>, x: AlgoTriangle)
    ensures x in Without(s, rs) <==> x in s && x !in rs
  {
    if s != [] {
      WithoutMeaning(s[..|s| - 1], rs, x);
      assert s == s[..|s| - 1] + [s[|s| - 1]];
    }
  }

  lemma {:induction false} WithoutNothing(s: seq<AlgoTriangle>)
    ensures Without(s, []) == s
  {
    if s != [] {
      WithoutNothing(s[..|s| - 1]);
    }
  }

  lemma RemoveAllAppend(a: seq<AlgoTriangle>, x: AlgoTriangle, t: AlgoTriangle)
    ensures RemoveAll(a + [x], t) == RemoveAll(a, t) + (if x == t then [] else [x])
  {
    assert (a + [x])[..|a|] == a;
  }

  /** Removing every copy of one more triangle from what is left after
      removing the triangles rs is removing rs + [t]. */
  lemma {:induction false} RemoveAllStep(s: seq<AlgoTriangle>, rs: seq<AlgoTriangle>, t: AlgoTriangle)
    ensures RemoveAll(Without(s, rs), t) == Without(s, rs + [t])
  {
    if s != [] {
      var init, x := s[..|s| - 1], s[|s| - 1];
      RemoveAllStep(init, rs, t);
      assert Without(s, rs + [t]) == Without(init, rs + [t]) + (if x in rs + [t] then [] else [x]);
      if x in rs {
        assert Without(s, rs) == Without(init, rs);
      } else {
        assert Without(s, rs) == Without(init, rs) + [x];
        RemoveAllAppend(Without(init, rs), x, t);
      }
    }
  }

  /** The removal loop: one erase-remove pass per flagged triangle. */
  method RemoveTriangles(triangleList: seq<AlgoTriangle>, toRemove: seq<AlgoTriangle>) returns (r: seq<AlgoTriangle>)
    ensures r == Without(triangleList, toRemove)
  {
    WithoutNothing(triangleList);
    r := triangleList;
    var j := 0;
    while j < |toRemove|
      invariant 0 <= j <= |toRemove|
      invariant r == Without(triangleList, toRemove[..j])
    {
      RemoveAllStep(triangleList, toRemove[..j], toRemove[j]);
      assert toRemove[..j + 1] == toRemove[..j] + [toRemove[j]];
      r := RemoveAll(r, toRemove[j]);
      j := j + 1;
    }
    assert toRemove[..j] == toRemove;
  }

  /** `std::count(polygon.begin(), polygon.end(), edge)`. */
  function CountOf(es: seq<AlgoEdge>, e: AlgoEdge): (r: nat)
    ensures r == multiset(es)[e]
  {
    if es == [] then 0
    else
      assert es == es[..|es| - 1] + [es[|es| - 1]];
      CountOf(es[..|es| - 1], e) + (if es[|es| - 1] == e then 1 else 0)
  }

  /** The edges of es, in order, that occur exactly once in all. */
  function UniqueAmong(es: seq<AlgoEdge>, all: seq<AlgoEdge>): seq<AlgoEdge>
  {
    if es == [] then []
    else
      var last := es[|es| - 1];
      UniqueAmong(es[..|es| - 1], all) + (if CountOf(all, last) == 1 then [last] else [])
  }

  /** `uniqueEdges`: the edges of the polygon that no other flagged
      triangle shares. */
  function UniqueEdges(polygon: seq<AlgoEdge>): seq<AlgoEdge>
  {
    UniqueAmong(polygon, polygon)
  }

  lemma {:induction false} UniqueAmongCount(es: seq<AlgoEdge>, all: seq<AlgoEdge>, e: AlgoEdge)
    ensures multiset(UniqueAmong(es, all))[e] == if multiset(all)[e] == 1 then multiset(es)[e] else 0
  {
    if es != [] {
      var init, last := es[..|es| - 1], es[|es| - 1];
      UniqueAmongCount(init, all, e);
      assert es == init + [last];
    }
  }

  /** An edge is unique exactly when it occurs once in the polygon, and it
      is then listed once: each unique edge gives exactly one new
      triangle. */
  lemma UniqueEdgesMeaning(polygon: seq<AlgoEdge>, e: AlgoEdge)
    ensures e in UniqueEdges(polygon) <==> multiset(polygon)[e] == 1
    ensures multiset(UniqueEdges(polygon))[e] == if multiset(polygon)[e] == 1 then 1 else 0
  {
    UniqueAmongCount(polygon, polygon, e);
  }

  /** The collection loop over `polygon`. */
  method CollectUniqueEdges(polygon: seq<AlgoEdge>) returns (uniqueEdges: seq<AlgoEdge>)
    ensures uniqueEdges == UniqueEdges(polygon)
  {
    uniqueEdges := [];
    var k := 0;
    while k < |polygon|
      invariant 0 <= k <= |polygon|
      invariant uniqueEdges == UniqueAmong(polygon[..k], polygon)
    {
      assert polygon[..k + 1][..k] == polygon[..k];
      var count := CountOf(polygon, polygon[k]);
      if count == 1 {
        uniqueEdges := uniqueEdges + [polygon[k]];
      }
      k := k + 1;
    }
    assert polygon[..k] == polygon;
  }

  /** The triangles (edge.p1, edge.p2, i) joining point i to each edge. */
  function Fan(edges: seq<AlgoEdge>, i: int): (r: seq<AlgoTriangle>)
    ensures |r| == |edges|
    ensures forall k :: 0 <= k < |edges| ==> r[k] == AlgoTriangle(edges[k].p1, edges[k].p2, i)
  {
    if edges == [] then []
    else Fan(edges[..|edges| - 1], i) + [AlgoTriangle(edges[|edges| - 1].p1, edges[|edges| - 1].p2, i)]
  }

  /** The list after inserting point p, which is point i: the flagged
      triangles removed, then the fan of the polygon's unique edges. */
  function InsertStep(ts: seq<AlgoTriangle>, test: CircleTest, p: AlgoPoint, i: int): seq<AlgoTriangle>
  {
    var bad := Flagged(ts, test, p);
    Without(ts, bad) + Fan(UniqueEdges(Edges(bad)), i)
  }

  /** A triangle survives an insertion exactly when it was not flagged; the
      new triangles are exactly those joining point i to an edge that
      occurs once among the flagged triangles' edges. */
  lemma InsertStepMeaning(ts: seq<AlgoTriangle>, test: CircleTest, p: AlgoPoint, i: int, t: AlgoTriangle)
    ensures var r := InsertStep(ts, test, p, i);
      t in r <==> ((t in ts && !test(t, p)) ||
        (t.p3 == i && multiset(Edges(Flagged(ts, test, p)))[AlgoEdge(t.p1, t.p2)] == 1))
  {
    FlaggedMeaning(ts, test, p, t);
    WithoutMeaning(ts, Flagged(ts, test, p), t);
    var polygon := Edges(Flagged(ts, test, p));
    var fan := Fan(UniqueEdges(polygon), i);
    var e := AlgoEdge(t.p1, t.p2);
    UniqueEdgesMeaning(polygon, e);
    if t in fan {
      var k :| 0 <= k < |fan| && fan[k] == t;
      assert UniqueEdges(polygon)[k] == e;
    }
    if t.p3 == i && multiset(polygon)[e] == 1 {
      var k :| 0 <= k < |UniqueEdges(polygon)| && UniqueEdges(polygon)[k] == e;
      assert fan[k] == t;
    }
  }

  /** An insertion keeps every index below m when the inserted point is
      one of the m. */
  lemma InsertStepBelow(ts: seq<AlgoTriangle>, test: CircleTest, p: AlgoPoint, i: int, m: int)
    requires AllBelow(ts, m) && 0 <= i < m
    ensures AllBelow(InsertStep(ts, test, p, i), m)
  {
    var bad := Flagged(ts, test, p);
    var r := InsertStep(ts, test, p, i);
    AllBelowMeaning(ts, m);
    AllBelowMeaning(bad, m);
    EdgesBelow(bad, m);
    var unique := UniqueEdges(Edges(bad));
    forall t | t in r
      ensures TriangleBelow(t, m)
    {
      WithoutMeaning(ts, bad, t);
      if t !in Without(ts, bad) {
        var k :| 0 <= k < |unique| && Fan(unique, i)[k] == t;
        UniqueEdgesMeaning(Edges(bad), unique[k]);
        assert unique[k] in Edges(bad);
      }
    }
    AllBelowMeaning(r, m);
  }

  /** One more triangle looked at: it joins the flagged list, and its
      three edges the edge list, exactly when the test flags it. */
  lemma FlaggedNext(ts: seq<AlgoTriangle>, test: CircleTest, p: AlgoPoint, k: nat,
                    bad: seq<AlgoTriangle>, edges: seq<AlgoEdge>)
    requires k < |ts| && bad == Flagged(ts[..k], test, p) && edges == Edges(bad)
    ensures test(ts[k], p) ==> Flagged(ts[..k + 1], test, p) == bad + [ts[k]]
    ensures test(ts[k], p) ==> Edges(bad + [ts[k]]) == edges + TriangleEdges(ts[k])
    ensures !test(ts[k], p) ==> Flagged(ts[..k + 1], test, p) == bad
  {
    assert ts[..k + 1][..k] == ts[..k];
    assert (bad + [ts[k]])[..|bad|] == bad;
  }

  /** The first loop of the insertion step: the flagged triangles and,
      three per triangle, their edges. */
  method FindBadTriangles(triangleList: seq<AlgoTriangle>, tempPoints: seq<AlgoPoint>, p: AlgoPoint)
    returns (toRemove: seq<AlgoTriangle>, polygon: seq<AlgoEdge>)
    requires forall j :: 0 <= j < |triangleList| ==> TriangleBelow(triangleList[j], |tempPoints|)
    ensures toRemove == Flagged(triangleList, FlagTest(tempPoints), p)
    ensures polygon == Edges(toRemove)
  {
    toRemove, polygon := [], [];
    var k := 0;
    while k < |triangleList|
      invariant 0 <= k <= |triangleList|
      invariant toRemove == Flagged(triangleList[..k], FlagTest(tempPoints), p)
      invariant polygon == Edges(toRemove)
    {
      var triangle := triangleList[k];
      FlaggedNext(triangleList, FlagTest(tempPoints), p, k, toRemove, polygon);
      var a, b, c := tempPoints[triangle.p1], tempPoints[triangle.p2], tempPoints[triangle.p3];
      if Denominator(a, b, c) != 0.0 && IsPointInCircumcircle(a, b, c, p) {
        toRemove := toRemove + [triangle];
        polygon := polygon + [MakeEdge(triangle.p1, triangle.p2)];
        polygon := polygon + [MakeEdge(triangle.p2, triangle.p3)];
        polygon := polygon + [MakeEdge(triangle.p3, triangle.p1)];
      }
      k := k + 1;
    }
    assert triangleList[..k] == triangleList;
  }

  /** The last loop of the insertion step: one new triangle per unique
      edge, appended. */
  method AddFan(triangleList: seq<AlgoTriangle>, uniqueEdges: seq<AlgoEdge>, i: int) returns (r: seq<AlgoTriangle>)
    ensures r == triangleList + Fan(uniqueEdges, i)
  {
    r := triangleList;
    var k := 0;
    while k < |uniqueEdges|
      invariant 0 <= k <= |uniqueEdges|
      invariant r == triangleList + Fan(uniqueEdges[..k], i)
    {
      assert uniqueEdges[..k + 1][..k] == uniqueEdges[..k];
      r := r + [AlgoTriangle(uniqueEdges[k].p1, uniqueEdges[k].p2, i)];
      k := k + 1;
    }
    assert uniqueEdges[..k] == uniqueEdges;
  }

  // ---------------------------------------------------------------------
  // The whole triangulation

  /** The triangle list after the first i input points are inserted; it
      starts as the single super-triangle (n, n + 1, n + 2). */
  function TrianglesAfter(test: CircleTest, pts: seq<AlgoPoint>, i: nat): seq<AlgoTriangle>
    requires i <= |pts|
  {
    if i == 0 then [AlgoTriangle(|pts|, |pts| + 1, |pts| + 2)]
    else InsertStep(TrianglesAfter(test, pts, i - 1), test, pts[i - 1], i - 1)
  }

  /** One more point inserted into the list after i points. */
  lemma TrianglesAfterNext(test: CircleTest, pts: seq<AlgoPoint>, i: nat, prev: seq<AlgoTriangle>, next: seq<AlgoTriangle>)
    requires i < |pts| && prev == TrianglesAfter(test, pts, i)
    requires next == InsertStep(prev, test, pts[i], i)
    ensures next == TrianglesAfter(test, pts, i + 1)
  {
  }

  /** The final filter: the triangles on input points only, in order. */
  function InputOnly(ts: seq<AlgoTriangle>, n: int): (r: seq<AlgoTriangle>)
    ensures forall t :: t in r <==> t in ts && TriangleBelow(t, n)
  {
    if ts == [] then []
    else InputOnly(ts[..|ts| - 1], n) + (if TriangleBelow(ts[|ts| - 1], n) then [ts[|ts| - 1]] else [])
  }

  /** The filter keeps the order of the list: filtering a concatenation is
      concatenating the filtered parts. */
  lemma {:induction false} InputOnlyAppend(a: seq<AlgoTriangle>, b: seq<AlgoTriangle>, n: int)
    ensures InputOnly(a + b, n) == InputOnly(a, n) + InputOnly(b, n)
    decreases |b|
  {
    if b != [] {
      var b', x := b[..|b| - 1], b[|b| - 1];
      assert (a + b)[..|a + b| - 1] == a + b';
      InputOnlyAppend(a, b', n);
    } else {
      assert a + b == a;
    }
  }

  /** The triangulation of a point list: nothing for fewer than 3 points,
      otherwise the triangles on input points after every insertion. */
  function DelaunayTriangles(pts: seq<AlgoPoint>): seq<AlgoTriangle>
  {
    if |pts| < 3 then []
    else
      var temp := pts + SuperVertices(BoxOf(pts, |pts|));
      InputOnly(TrianglesAfter(FlagTest(temp), pts, |pts|), |pts|)
  }

  /** Fewer than 3 points give no triangles; otherwise every triangle of
      the result lies on input points. */
  lemma DelaunayResultBelow(pts: seq<AlgoPoint>)
    ensures |pts| < 3 ==> DelaunayTriangles(pts) == []
    ensures AllBelow(DelaunayTriangles(pts), |pts|)
  {
    AllBelowMeaning(DelaunayTriangles(pts), |pts|);
  }

  /** The final loop over the triangle list. */
  method KeepInputTriangles(triangleList: seq<AlgoTriangle>, n: int) returns (result: seq<AlgoTriangle>)
    ensures result == InputOnly(triangleList, n)
  {
    result := [];
    var k := 0;
    while k < |triangleList|
      invariant 0 <= k <= |triangleList|
      invariant result == InputOnly(triangleList[..k], n)
    {
      var triangle := triangleList[k];
      assert triangleList[..k + 1][..k] == triangleList[..k];
      if 0 <= triangle.p1 < n && 0 <= triangle.p2 < n && 0 <= triangle.p3 < n {
        result := result + [triangle];
      }
      k := k + 1;
    }
    assert triangleList[..k] == triangleList;
  }

  /** One pass of the main loop: flag, remove, collect the unique edges and
      add the fan for point i. */
  method InsertPoint(triangleList: seq<AlgoTriangle>, tempPoints: seq<AlgoPoint>, p: AlgoPoint, i: int)
    returns (r: seq<AlgoTriangle>)
    requires forall k :: 0 <= k < |triangleList| ==> TriangleBelow(triangleList[k], |tempPoints|)
    requires 0 <= i < |tempPoints|
    ensures r == InsertStep(triangleList, FlagTest(tempPoints), p, i)
    ensures forall k :: 0 <= k < |r| ==> TriangleBelow(r[k], |tempPoints|)
  {
    AllBelowMeaning(triangleList, |tempPoints|);
    var toRemove, polygon := FindBadTriangles(triangleList, tempPoints, p);
    r := RemoveTriangles(triangleList, toRemove);
    var uniqueEdges := CollectUniqueEdges(polygon);
    r := AddFan(r, uniqueEdges, i);
    InsertStepBelow(triangleList, FlagTest(tempPoints), p, i, |tempPoints|);
    AllBelowMeaning(r, |tempPoints|);
  }

  /** The main loop of `computeDelaunay`: every input point in turn.
      Every index in the list stays below n + 3, so every lookup in
      `tempPoints` is in range. */
  method InsertAll(points: seq<AlgoPoint>, tempPoints: seq<AlgoPoint>) returns (triangleList: seq<AlgoTriangle>)
    requires |tempPoints| == |points| + 3
    ensures triangleList == TrianglesAfter(FlagTest(tempPoints), points, |points|)
    ensures forall k :: 0 <= k < |triangleList| ==> TriangleBelow(triangleList[k], |tempPoints|)
  {
    var n := |points|;
    triangleList := [AlgoTriangle(n, n + 1, n + 2)];
    var i := 0;
    while i < n
      invariant 0 <= i <= n
      invariant triangleList == TrianglesAfter(FlagTest(tempPoints), points, i)
      invariant forall k :: 0 <= k < |triangleList| ==> TriangleBelow(triangleList[k], |tempPoints|)
    {
      var next := InsertPoint(triangleList, tempPoints, points[i], i);
      TrianglesAfterNext(FlagTest(tempPoints), points, i, triangleList, next);
      triangleList := next;
      i := i + 1;
    }
  }

  /** `computeDelaunay`. */
  method ComputeDelaunay(inputPoints: seq<AlgoPoint>) returns (result: seq<AlgoTriangle>)
    ensures result == DelaunayTriangles(inputPoints)
  {
    if |inputPoints| < 3 {
      return [];
    }
    var points := inputPoints;
    var box := BoundingBox(points);
    var tempPoints := points + SuperVertices(box);
    var triangleList := InsertAll(points, tempPoints);
    result := KeepInputTriangles(triangleList, |points|);
  }
}
