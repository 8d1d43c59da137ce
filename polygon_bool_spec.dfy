/** What the polygon boolean engine computes, as functions of its inputs:
    the shoelace area, the winding fix, the de-duplicated candidate point
    lists and the three operations. The loops that compute them are the
    methods of module PolygonBoolean. */
module PolygonBoolSpec {
  import opened Planar
  import opened BoolPoints

  // ---------------------------------------------------------------------
  // Shoelace area

  /** Sum of cross(s[k], s[k+1]) over the open chain. */
  function OpenSum(s: seq<BoolPoint>): real
  {
    if |s| < 2 then 0.0 else OpenSum(s[..|s| - 1]) + Cross(s[|s| - 2], s[|s| - 1])
  }

  /** Signed shoelace area over the closed cycle; 0 below three points. */
  function Area(s: seq<BoolPoint>): real
  {
    if |s| < 3 then 0.0 else (OpenSum(s) + Cross(s[|s| - 1], s[0])) / 2.0
  }

  function Reverse(s: seq<BoolPoint>): (r: seq<BoolPoint>)
    ensures |r| == |s|
  {
    if s == [] then [] else [s[|s| - 1]] + Reverse(s[..|s| - 1])
  }

  lemma {:induction false} ReverseAt(s: seq<BoolPoint>, k: nat)
    requires k < |s|
    ensures Reverse(s)[k] == s[|s| - 1 - k]
  {
    if k > 0 {
      ReverseAt(s[..|s| - 1], k - 1);
    }
  }

  lemma {:induction false} ReverseMultiset(s: seq<BoolPoint>)
    ensures multiset(Reverse(s)) == multiset(s)
  {
    if s != [] {
      var init := s[..|s| - 1];
      ReverseMultiset(init);
      assert Reverse(s) == [s[|s| - 1]] + Reverse(init);
      assert multiset(Reverse(s)) == multiset([s[|s| - 1]]) + multiset(Reverse(init));
      assert s == init + [s[|s| - 1]];
      assert multiset(s) == multiset(init) + multiset([s[|s| - 1]]);
    }
  }

  lemma {:induction false} OpenSumFront(a: BoolPoint, t: seq<BoolPoint>)
    requires |t| >= 1
    ensures OpenSum([a] + t) == Cross(a, t[0]) + OpenSum(t)
  {
    var s := [a] + t;
    if |t| == 1 {
      assert s[..|s| - 1] == [a];
    } else {
      assert s[..|s| - 1] == [a] + t[..|t| - 1];
      OpenSumFront(a, t[..|t| - 1]);
    }
  }

  lemma {:induction false} OpenSumReverse(s: seq<BoolPoint>)
    ensures OpenSum(Reverse(s)) == -OpenSum(s)
  {
    if |s| >= 2 {
      var init := s[..|s| - 1];
      OpenSumReverse(init);
      ReverseAt(init, 0);
      OpenSumFront(s[|s| - 1], Reverse(init));
      CrossAntisymmetric(s[|s| - 1], s[|s| - 2]);
    } else if |s| == 1 {
      assert Reverse(s) == [s[0]];
    }
  }

  /** Reversing the point order negates the signed area. */
  lemma AreaReverse(s: seq<BoolPoint>)
    ensures Area(Reverse(s)) == -Area(s)
  {
    if |s| >= 3 {
      OpenSumReverse(s);
      ReverseAt(s, 0);
      ReverseAt(s, |s| - 1);
      CrossAntisymmetric(s[0], s[|s| - 1]);
    }
  }

  // ---------------------------------------------------------------------
  // Winding

  /** The point list after `ensureWindingOrder(contour, clockwise)`: a
      negative area means clockwise; a mismatch reverses the list. */
  function WindingFixed(s: seq<BoolPoint>, clockwise: bool): (r: seq<BoolPoint>)
    ensures |s| < 3 ==> r == s
    ensures r == s || r == Reverse(s)
    ensures |r| == |s| && multiset(r) == multiset(s)
  {
    ReverseMultiset(s);
    if |s| < 3 then s
    else if (Area(s) < 0.0) != clockwise then Reverse(s)
    else s
  }

  /** With clockwise = false, the only flag the composer passes, the result
      has non-negative area and a second call changes nothing. */
  lemma WindingCounterClockwise(s: seq<BoolPoint>)
    ensures Area(WindingFixed(s, false)) >= 0.0
    ensures WindingFixed(WindingFixed(s, false), false) == WindingFixed(s, false)
  {
    AreaReverse(s);
  }

  lemma {:induction false} ReverseReverse(s: seq<BoolPoint>)
    ensures Reverse(Reverse(s)) == s
  {
    forall k | 0 <= k < |s| ensures Reverse(Reverse(s))[k] == s[k] {
      ReverseAt(Reverse(s), k);
      ReverseAt(s, |s| - 1 - k);
    }
  }

  /** With clockwise = true the fix is not idempotent: a contour of area 0
      (collinear points, say) counts as counter-clockwise, so every call
      reverses it again. */
  lemma WindingClockwiseFlipsFlatContour(s: seq<BoolPoint>)
    requires |s| >= 3 && Area(s) == 0.0 && s[0] != s[|s| - 1]
    ensures WindingFixed(s, true) == Reverse(s) != s
    ensures WindingFixed(WindingFixed(s, true), true) == s
  {
    AreaReverse(s);
    ReverseReverse(s);
    ReverseAt(s, 0);
  }

  // ---------------------------------------------------------------------
  // Segment intersection and centroid

  /** The parallel tolerance of `segmentsIntersect` (1e-12). */
  const ParallelTolerance: real := 0.000000000001

  /** `segmentsIntersect`: Some(point) where the function returns true and
      writes `intersect`. */
  function SegmentsIntersect(a1: BoolPoint, a2: BoolPoint, b1: BoolPoint, b2: BoolPoint): (r: Option<BoolPoint>)
    ensures Abs(Cross(Sub(a2, a1), Sub(b2, b1))) < ParallelTolerance ==> r.None?
    ensures r.Some? ==>
      0.0 <= ParamT(a1, a2, b1, b2) <= 1.0 && 0.0 <= ParamU(a1, a2, b1, b2) <= 1.0 &&
      r.value == PointAt(a1, Sub(a2, a1), ParamT(a1, a2, b1, b2)) &&
      r.value == PointAt(b1, Sub(b2, b1), ParamU(a1, a2, b1, b2))
  {
    SegmentIntersection(a1, a2, b1, b2, ParallelTolerance)
  }

  function SumX(s: seq<BoolPoint>): real
  {
    if s == [] then 0.0 else SumX(s[..|s| - 1]) + s[|s| - 1].x
  }

  function SumY(s: seq<BoolPoint>): real
  {
    if s == [] then 0.0 else SumY(s[..|s| - 1]) + s[|s| - 1].y
  }

  /** The arithmetic mean of the candidate points: the centre of the angular sort. */
  function Centroid(s: seq<BoolPoint>): BoolPoint
    requires |s| > 0
  {
    Point(SumX(s) / (|s| as real), SumY(s) / (|s| as real))
  }

  // ---------------------------------------------------------------------
  // De-duplication

  /** Some point of s is set-equivalent to p: the "already in uniquePoints"
      test, with the tree set read as the set of its elements. */
  predicate Contains(s: seq<BoolPoint>, p: BoolPoint)
  {
    s != [] && (SetEquivalent(s[|s| - 1], p) || Contains(s[..|s| - 1], p))
  }

  lemma {:induction false} ContainsMeaning(s: seq<BoolPoint>, p: BoolPoint)
    ensures Contains(s, p) <==> exists i :: 0 <= i < |s| && SetEquivalent(s[i], p)
  {
    if s != [] {
      ContainsMeaning(s[..|s| - 1], p);
      if Contains(s[..|s| - 1], p) {
        var i :| 0 <= i < |s| - 1 && SetEquivalent(s[..|s| - 1][i], p);
        assert s[i] == s[..|s| - 1][i];
      }
      if i :| 0 <= i < |s| - 1 && SetEquivalent(s[i], p) {
        assert s[..|s| - 1][i] == s[i];
      }
    }
  }

  /** No two points of s are set-equivalent. */
  ghost predicate Distinct(s: seq<BoolPoint>)
  {
    forall i, j :: 0 <= i < j < |s| ==> !SetEquivalent(s[i], s[j])
  }

  /** Append p unless a set-equivalent point is already present. */
  function Insert(s: seq<BoolPoint>, p: BoolPoint): seq<BoolPoint>
  {
    if Contains(s, p) then s else s + [p]
  }

  /** Insert keeps the list as a prefix, keeps it duplicate-free, and
      afterwards p is found. */
  lemma InsertFacts(s: seq<BoolPoint>, p: BoolPoint)
    ensures var r := Insert(s, p);
      |s| <= |r| <= |s| + 1 && r[..|s|] == s && Contains(r, p) &&
      (|r| == |s| + 1 ==> r[|s|] == p) &&
      (Distinct(s) ==> Distinct(r))
  {
    var r := Insert(s, p);
    SetEquivalentMeaning(p, p);
    if !Contains(s, p) {
      ContainsMeaning(s, p);
      assert r[..|r| - 1] == s;
      forall i, j | 0 <= i < j < |r| && Distinct(s) ensures !SetEquivalent(r[i], r[j]) {
        if j == |s| {
          assert r[i] == s[i];
          SetEquivalentMeaning(s[i], p);
        }
      }
    }
  }

  /** A point found in a prefix is found in the whole list. */
  lemma {:induction false} ContainsExtends(s: seq<BoolPoint>, t: seq<BoolPoint>, p: BoolPoint)
    requires |s| <= |t| && t[..|s|] == s && Contains(s, p)
    ensures Contains(t, p)
  {
    ContainsMeaning(s, p);
    ContainsMeaning(t, p);
    var i :| 0 <= i < |s| && SetEquivalent(s[i], p);
    assert t[i] == s[i];
  }

  /** r extends acc, and is duplicate-free when acc is: what every step of
      the candidate loops keeps. */
  ghost predicate Grows(acc: seq<BoolPoint>, r: seq<BoolPoint>)
  {
    |acc| <= |r| && r[..|acc|] == acc && (Distinct(acc) ==> Distinct(r))
  }

  lemma GrowsTransitive(a: seq<BoolPoint>, b: seq<BoolPoint>, c: seq<BoolPoint>)
    requires Grows(a, b) && Grows(b, c)
    ensures Grows(a, c)
  {
    assert c[..|a|] == c[..|b|][..|a|];
  }

  // ---------------------------------------------------------------------
  // Distinctness survives reordering

  lemma {:induction false} TwoPositions(s: seq<BoolPoint>, v: BoolPoint)
    requires multiset(s)[v] >= 2
    ensures exists a, b :: 0 <= a < b < |s| && s[a] == v && s[b] == v
  {
    var init, last := s[..|s| - 1], s[|s| - 1];
    assert s == init + [last];
    if last == v {
      assert v in multiset(init);
      var a :| 0 <= a < |init| && init[a] == v;
      assert s[a] == v && s[|s| - 1] == v;
    } else {
      TwoPositions(init, v);
      var a, b :| 0 <= a < b < |init| && init[a] == v && init[b] == v;
      assert s[a] == v && s[b] == v;
    }
  }

  lemma CountTwo(s: seq<BoolPoint>, i: nat, j: nat)
    requires i < j < |s| && s[i] == s[j]
    ensures multiset(s)[s[i]] >= 2
  {
    assert s == s[..j] + [s[j]] + s[j + 1..];
    assert s[i] in multiset(s[..j]);
  }

  /** Two positions i < j of r name points at two different positions of s. */
  lemma SourcePositions(s: seq<BoolPoint>, r: seq<BoolPoint>, i: nat, j: nat) returns (a: nat, b: nat)
    requires multiset(r) == multiset(s) && i < j < |r|
    ensures a < |s| && b < |s| && a != b && s[a] == r[i] && s[b] == r[j]
  {
    if r[i] == r[j] {
      CountTwo(r, i, j);
      TwoPositions(s, r[i]);
      a, b :| 0 <= a < b < |s| && s[a] == r[i] && s[b] == r[i];
    } else {
      assert r[i] in multiset(s) && r[j] in multiset(s);
      a :| 0 <= a < |s| && s[a] == r[i];
      b :| 0 <= b < |s| && s[b] == r[j];
    }
  }

  /** Reordering a duplicate-free list keeps it duplicate-free. */
  lemma DistinctPermutation(s: seq<BoolPoint>, r: seq<BoolPoint>)
    requires Distinct(s) && multiset(r) == multiset(s)
    ensures Distinct(r)
  {
    forall i, j | 0 <= i < j < |r| ensures !SetEquivalent(r[i], r[j]) {
      var a, b := SourcePositions(s, r, i, j);
      SetEquivalentMeaning(s[a], s[b]);
    }
  }

  // ---------------------------------------------------------------------
  // Candidate point lists. Each function threads the de-duplicated list
  // through the remaining iterations of one source loop, from index k on.

  /** INTERSECTION steps a and b: the points pts[k..] inside the cycle
      `other`, inserted in order. */
  function InsideInto(acc: seq<BoolPoint>, pts: seq<BoolPoint>, k: nat, other: seq<BoolPoint>): seq<BoolPoint>
    requires k <= |pts|
    decreases |pts| - k
  {
    if k == |pts| then acc
    else InsideInto(if RayParity(pts[k], other) then Insert(acc, pts[k]) else acc, pts, k + 1, other)
  }

  /** The hit of one edge pair, inserted when there is one. */
  function InsertHit(acc: seq<BoolPoint>, hit: Option<BoolPoint>): seq<BoolPoint>
  {
    if hit.Some? then Insert(acc, hit.value) else acc
  }

  /** The crossing of the edge a1a2 with edge j of the cycle bs. */
  function RowHitAt(a1: BoolPoint, a2: BoolPoint, bs: seq<BoolPoint>, j: nat): Option<BoolPoint>
    requires j < |bs|
  {
    SegmentsIntersect(a1, a2, bs[j], bs[(j + 1) % |bs|])
  }

  /** The inner edge loop: edge a1a2 against the edges j.. of the cycle bs. */
  function RowInto(acc: seq<BoolPoint>, a1: BoolPoint, a2: BoolPoint, bs: seq<BoolPoint>, j: nat): seq<BoolPoint>
    requires j <= |bs|
    decreases |bs| - j
  {
    if j == |bs| then acc
    else RowInto(InsertHit(acc, RowHitAt(a1, a2, bs, j)), a1, a2, bs, j + 1)
  }

  /** The outer edge loop: the edges i.. of the cycle xs against every edge
      of the cycle ys. */
  function EdgesInto(acc: seq<BoolPoint>, xs: seq<BoolPoint>, ys: seq<BoolPoint>, i: nat): seq<BoolPoint>
    requires i <= |xs|
    decreases |xs| - i
  {
    if i == |xs| then acc
    else EdgesInto(RowInto(acc, xs[i], xs[(i + 1) % |xs|], ys, 0), xs, ys, i + 1)
  }

  /** INTERSECTION's candidate list for one contour pair. */
  function PairCandidates(pts1: seq<BoolPoint>, pts2: seq<BoolPoint>): seq<BoolPoint>
  {
    EdgesInto(InsideInto(InsideInto([], pts1, 0, pts2), pts2, 0, pts1), pts1, pts2, 0)
  }

  /** p lies inside some contour of the list (holes included). */
  predicate InsideAny(p: BoolPoint, polygons: seq<PolygonContour>)
  {
    exists k :: 0 <= k < |polygons| && RayParity(p, polygons[k].points)
  }

  /** DIFFERENCE step a: the points pts[k..] inside no contour of the list. */
  function OutsideInto(acc: seq<BoolPoint>, pts: seq<BoolPoint>, k: nat, polygons: seq<PolygonContour>): seq<BoolPoint>
    requires k <= |pts|
    decreases |pts| - k
  {
    if k == |pts| then acc
    else OutsideInto(if InsideAny(pts[k], polygons) then acc else Insert(acc, pts[k]), pts, k + 1, polygons)
  }

  /** DIFFERENCE step b: the edges of pts against the contours m.. of the
      list that have at least 3 points. */
  function DiffHitsInto(acc: seq<BoolPoint>, pts: seq<BoolPoint>, polygons: seq<PolygonContour>, m: nat): seq<BoolPoint>
    requires m <= |polygons|
    decreases |polygons| - m
  {
    if m == |polygons| then acc
    else DiffHitsInto(if |polygons[m].points| < 3 then acc else EdgesInto(acc, pts, polygons[m].points, 0),
                      pts, polygons, m + 1)
  }

  /** DIFFERENCE's candidate list for one contour of the first operand. */
  function DiffCandidates(pts: seq<BoolPoint>, polygons: seq<PolygonContour>): seq<BoolPoint>
  {
    DiffHitsInto(OutsideInto([], pts, 0, polygons), pts, polygons, 0)
  }

  lemma {:induction false} InsideIntoFacts(acc: seq<BoolPoint>, pts: seq<BoolPoint>, k: nat, other: seq<BoolPoint>)
    requires k <= |pts|
    ensures Grows(acc, InsideInto(acc, pts, k, other))
    ensures forall i :: k <= i < |pts| && RayParity(pts[i], other) ==>
      Contains(InsideInto(acc, pts, k, other), pts[i])
    decreases |pts| - k
  {
    if k < |pts| {
      var next := if RayParity(pts[k], other) then Insert(acc, pts[k]) else acc;
      var r := InsideInto(acc, pts, k, other);
      assert r == InsideInto(next, pts, k + 1, other);
      InsertFacts(acc, pts[k]);
      InsideIntoFacts(next, pts, k + 1, other);
      GrowsTransitive(acc, next, r);
      forall i | k <= i < |pts| && RayParity(pts[i], other)
        ensures Contains(r, pts[i])
      {
        if i == k {
          ContainsExtends(next, r, pts[k]);
        }
      }
    }
  }

  lemma {:induction false} RowIntoFacts(acc: seq<BoolPoint>, a1: BoolPoint, a2: BoolPoint, bs: seq<BoolPoint>, j: nat)
    requires j <= |bs|
    ensures Grows(acc, RowInto(acc, a1, a2, bs, j))
    decreases |bs| - j
  {
    if j < |bs| {
      var hit := RowHitAt(a1, a2, bs, j);
      var next := InsertHit(acc, hit);
      if hit.Some? {
        InsertFacts(acc, hit.value);
      }
      RowIntoFacts(next, a1, a2, bs, j + 1);
      GrowsTransitive(acc, next, RowInto(acc, a1, a2, bs, j));
    }
  }

  lemma {:induction false} EdgesIntoFacts(acc: seq<BoolPoint>, xs: seq<BoolPoint>, ys: seq<BoolPoint>, i: nat)
    requires i <= |xs|
    ensures Grows(acc, EdgesInto(acc, xs, ys, i))
    decreases |xs| - i
  {
    if i < |xs| {
      var next := RowInto(acc, xs[i], xs[(i + 1) % |xs|], ys, 0);
      RowIntoFacts(acc, xs[i], xs[(i + 1) % |xs|], ys, 0);
      EdgesIntoFacts(next, xs, ys, i + 1);
      GrowsTransitive(acc, next, EdgesInto(acc, xs, ys, i));
    }
  }

  lemma {:induction false} OutsideIntoGrows(acc: seq<BoolPoint>, pts: seq<BoolPoint>, k: nat, polygons: seq<PolygonContour>)
    requires k <= |pts|
    ensures Grows(acc, OutsideInto(acc, pts, k, polygons))
    decreases |pts| - k
  {
    if k < |pts| {
      var next := if InsideAny(pts[k], polygons) then acc else Insert(acc, pts[k]);
      InsertFacts(acc, pts[k]);
      OutsideIntoGrows(next, pts, k + 1, polygons);
      GrowsTransitive(acc, next, OutsideInto(next, pts, k + 1, polygons));
    }
  }

  lemma {:induction false} OutsideIntoFacts(acc: seq<BoolPoint>, pts: seq<BoolPoint>, k: nat, polygons: seq<PolygonContour>)
    requires k <= |pts|
    ensures Grows(acc, OutsideInto(acc, pts, k, polygons))
    ensures forall i :: k <= i < |pts| && !InsideAny(pts[i], polygons) ==>
      Contains(OutsideInto(acc, pts, k, polygons), pts[i])
    decreases |pts| - k
  {
    OutsideIntoGrows(acc, pts, k, polygons);
    if k < |pts| {
      var outside := !InsideAny(pts[k], polygons);
      var next := if outside then Insert(acc, pts[k]) else acc;
      var r := OutsideInto(next, pts, k + 1, polygons);
      OutsideIntoFacts(next, pts, k + 1, polygons);
      if outside {
        InsertFacts(acc, pts[k]);
        ContainsExtends(next, r, pts[k]);
      }
    }
  }

  lemma {:induction false} DiffHitsIntoFacts(acc: seq<BoolPoint>, pts: seq<BoolPoint>, polygons: seq<PolygonContour>, m: nat)
    requires m <= |polygons|
    ensures Grows(acc, DiffHitsInto(acc, pts, polygons, m))
    decreases |polygons| - m
  {
    if m < |polygons| {
      var next := if |polygons[m].points| < 3 then acc else EdgesInto(acc, pts, polygons[m].points, 0);
      EdgesIntoFacts(acc, pts, polygons[m].points, 0);
      DiffHitsIntoFacts(next, pts, polygons, m + 1);
      GrowsTransitive(acc, next, DiffHitsInto(acc, pts, polygons, m));
    }
  }

  // ---------------------------------------------------------------------
  // Where the candidates come from. Every candidate is itself a vertex or
  // an edge crossing of the kind the loop collects, and every edge crossing
  // (like every qualifying vertex, above) is among the candidates up to set
  // equivalence.

  /** The crossing of edge i of the cycle xs with edge j of the cycle ys. */
  function EdgeHitAt(xs: seq<BoolPoint>, ys: seq<BoolPoint>, i: nat, j: nat): Option<BoolPoint>
    requires i < |xs| && j < |ys|
  {
    RowHitAt(xs[i], xs[(i + 1) % |xs|], ys, j)
  }

  /** p is where the edge a1a2 crosses some edge of the cycle bs. */
  ghost predicate RowHit(a1: BoolPoint, a2: BoolPoint, bs: seq<BoolPoint>, p: BoolPoint)
  {
    exists j :: 0 <= j < |bs| && RowHitAt(a1, a2, bs, j) == Some(p)
  }

  /** p is where some edge of the cycle xs crosses some edge of the cycle ys. */
  ghost predicate EdgeHit(xs: seq<BoolPoint>, ys: seq<BoolPoint>, p: BoolPoint)
  {
    exists i, j :: 0 <= i < |xs| && 0 <= j < |ys| && EdgeHitAt(xs, ys, i, j) == Some(p)
  }

  /** p is a vertex of pts lying inside the cycle other. */
  ghost predicate InsideVertex(pts: seq<BoolPoint>, other: seq<BoolPoint>, p: BoolPoint)
  {
    exists i :: 0 <= i < |pts| && pts[i] == p && RayParity(p, other)
  }

  /** What INTERSECTION collects for a contour pair: a vertex of either
      contour inside the other, or a crossing of their edges. */
  ghost predicate PairSource(pts1: seq<BoolPoint>, pts2: seq<BoolPoint>, p: BoolPoint)
  {
    InsideVertex(pts1, pts2, p) || InsideVertex(pts2, pts1, p) || EdgeHit(pts1, pts2, p)
  }

  /** p is a vertex of pts lying inside no contour of the list. */
  ghost predicate OutsideVertex(pts: seq<BoolPoint>, polygons: seq<PolygonContour>, p: BoolPoint)
  {
    exists i :: 0 <= i < |pts| && pts[i] == p && !InsideAny(p, polygons)
  }

  /** p is where an edge of pts crosses an edge of a contour of the list
      that has at least 3 points. */
  ghost predicate DiffHit(pts: seq<BoolPoint>, polygons: seq<PolygonContour>, p: BoolPoint)
  {
    exists m :: 0 <= m < |polygons| && |polygons[m].points| >= 3 && EdgeHit(pts, polygons[m].points, p)
  }

  /** What DIFFERENCE collects for one contour. */
  ghost predicate DiffSource(pts: seq<BoolPoint>, polygons: seq<PolygonContour>, p: BoolPoint)
  {
    OutsideVertex(pts, polygons, p) || DiffHit(pts, polygons, p)
  }

  lemma {:induction false} InsideIntoSources(acc: seq<BoolPoint>, pts: seq<BoolPoint>, k: nat, other: seq<BoolPoint>)
    requires k <= |pts|
    ensures forall q :: |acc| <= q < |InsideInto(acc, pts, k, other)| ==>
      InsideVertex(pts, other, InsideInto(acc, pts, k, other)[q])
    decreases |pts| - k
  {
    if k < |pts| {
      var next := if RayParity(pts[k], other) then Insert(acc, pts[k]) else acc;
      var r := InsideInto(next, pts, k + 1, other);
      assert r == InsideInto(acc, pts, k, other);
      InsertFacts(acc, pts[k]);
      InsideIntoFacts(next, pts, k + 1, other);
      InsideIntoSources(next, pts, k + 1, other);
      forall q | |acc| <= q < |r| ensures InsideVertex(pts, other, r[q]) {
        if q < |next| {
          assert r[q] == r[..|next|][q] == pts[k] && RayParity(pts[k], other);
        }
      }
    }
  }

  lemma {:induction false} OutsideIntoSources(acc: seq<BoolPoint>, pts: seq<BoolPoint>, k: nat, polygons: seq<PolygonContour>)
    requires k <= |pts|
    ensures forall q :: |acc| <= q < |OutsideInto(acc, pts, k, polygons)| ==>
      OutsideVertex(pts, polygons, OutsideInto(acc, pts, k, polygons)[q])
    decreases |pts| - k
  {
    if k < |pts| {
      var next := if InsideAny(pts[k], polygons) then acc else Insert(acc, pts[k]);
      var r := OutsideInto(next, pts, k + 1, polygons);
      assert r == OutsideInto(acc, pts, k, polygons);
      InsertFacts(acc, pts[k]);
      OutsideIntoGrows(next, pts, k + 1, polygons);
      OutsideIntoSources(next, pts, k + 1, polygons);
      forall q | |acc| <= q < |r| ensures OutsideVertex(pts, polygons, r[q]) {
        if q < |next| {
          assert r[q] == r[..|next|][q] == pts[k] && !InsideAny(pts[k], polygons);
        }
      }
    }
  }

  lemma {:induction false} RowIntoSources(acc: seq<BoolPoint>, a1: BoolPoint, a2: BoolPoint, bs: seq<BoolPoint>, j: nat)
    requires j <= |bs|
    ensures forall q :: |acc| <= q < |RowInto(acc, a1, a2, bs, j)| ==>
      RowHit(a1, a2, bs, RowInto(acc, a1, a2, bs, j)[q])
    decreases |bs| - j
  {
    if j < |bs| {
      var hit := RowHitAt(a1, a2, bs, j);
      var next := InsertHit(acc, hit);
      var r := RowInto(next, a1, a2, bs, j + 1);
      assert r == RowInto(acc, a1, a2, bs, j);
      RowIntoFacts(next, a1, a2, bs, j + 1);
      RowIntoSources(next, a1, a2, bs, j + 1);
      if hit.Some? {
        InsertFacts(acc, hit.value);
      }
      forall q | |acc| <= q < |r| ensures RowHit(a1, a2, bs, r[q]) {
        if q < |next| {
          assert r[q] == r[..|next|][q] == hit.value;
        }
      }
    }
  }

  lemma {:induction false} RowIntoHits(acc: seq<BoolPoint>, a1: BoolPoint, a2: BoolPoint, bs: seq<BoolPoint>, j: nat)
    requires j <= |bs|
    ensures forall j' :: j <= j' < |bs| && RowHitAt(a1, a2, bs, j').Some? ==>
      Contains(RowInto(acc, a1, a2, bs, j), RowHitAt(a1, a2, bs, j').value)
    decreases |bs| - j
  {
    if j < |bs| {
      var hit := RowHitAt(a1, a2, bs, j);
      var next := InsertHit(acc, hit);
      var r := RowInto(next, a1, a2, bs, j + 1);
      assert r == RowInto(acc, a1, a2, bs, j);
      RowIntoFacts(next, a1, a2, bs, j + 1);
      RowIntoHits(next, a1, a2, bs, j + 1);
      if hit.Some? {
        InsertFacts(acc, hit.value);
        ContainsExtends(next, r, hit.value);
      }
    }
  }

  lemma {:induction false} EdgesIntoSources(acc: seq<BoolPoint>, xs: seq<BoolPoint>, ys: seq<BoolPoint>, i: nat)
    requires i <= |xs|
    ensures forall q :: |acc| <= q < |EdgesInto(acc, xs, ys, i)| ==>
      EdgeHit(xs, ys, EdgesInto(acc, xs, ys, i)[q])
    decreases |xs| - i
  {
    if i < |xs| {
      var next := RowInto(acc, xs[i], xs[(i + 1) % |xs|], ys, 0);
      var r := EdgesInto(next, xs, ys, i + 1);
      assert r == EdgesInto(acc, xs, ys, i);
      RowIntoFacts(acc, xs[i], xs[(i + 1) % |xs|], ys, 0);
      RowIntoSources(acc, xs[i], xs[(i + 1) % |xs|], ys, 0);
      EdgesIntoFacts(next, xs, ys, i + 1);
      EdgesIntoSources(next, xs, ys, i + 1);
      forall q | |acc| <= q < |next| ensures EdgeHit(xs, ys, r[q]) {
        assert r[q] == r[..|next|][q] == next[q];
        var j :| 0 <= j < |ys| && RowHitAt(xs[i], xs[(i + 1) % |xs|], ys, j) == Some(next[q]);
        assert EdgeHitAt(xs, ys, i, j) == Some(r[q]);
      }
    }
  }

  lemma {:induction false} EdgesIntoHits(acc: seq<BoolPoint>, xs: seq<BoolPoint>, ys: seq<BoolPoint>, i: nat)
    requires i <= |xs|
    ensures forall i', j :: i <= i' < |xs| && 0 <= j < |ys| && EdgeHitAt(xs, ys, i', j).Some? ==>
      Contains(EdgesInto(acc, xs, ys, i), EdgeHitAt(xs, ys, i', j).value)
    decreases |xs| - i
  {
    if i < |xs| {
      var next := RowInto(acc, xs[i], xs[(i + 1) % |xs|], ys, 0);
      var r := EdgesInto(next, xs, ys, i + 1);
      assert r == EdgesInto(acc, xs, ys, i);
      RowIntoFacts(acc, xs[i], xs[(i + 1) % |xs|], ys, 0);
      RowIntoHits(acc, xs[i], xs[(i + 1) % |xs|], ys, 0);
      EdgesIntoFacts(next, xs, ys, i + 1);
      EdgesIntoHits(next, xs, ys, i + 1);
      forall j | 0 <= j < |ys| && EdgeHitAt(xs, ys, i, j).Some?
        ensures Contains(r, EdgeHitAt(xs, ys, i, j).value)
      {
        ContainsExtends(next, r, EdgeHitAt(xs, ys, i, j).value);
      }
    }
  }

  lemma {:induction false} DiffHitsIntoSources(acc: seq<BoolPoint>, pts: seq<BoolPoint>, polygons: seq<PolygonContour>, m: nat)
    requires m <= |polygons|
    ensures forall q :: |acc| <= q < |DiffHitsInto(acc, pts, polygons, m)| ==>
      DiffHit(pts, polygons, DiffHitsInto(acc, pts, polygons, m)[q])
    decreases |polygons| - m
  {
    if m < |polygons| {
      var next := if |polygons[m].points| < 3 then acc else EdgesInto(acc, pts, polygons[m].points, 0);
      var r := DiffHitsInto(next, pts, polygons, m + 1);
      assert r == DiffHitsInto(acc, pts, polygons, m);
      EdgesIntoSources(acc, pts, polygons[m].points, 0);
      DiffHitsIntoFacts(next, pts, polygons, m + 1);
      DiffHitsIntoSources(next, pts, polygons, m + 1);
      forall q | |acc| <= q < |next| ensures DiffHit(pts, polygons, r[q]) {
        assert r[q] == r[..|next|][q] == next[q];
        assert |polygons[m].points| >= 3 && EdgeHit(pts, polygons[m].points, r[q]);
      }
    }
  }

  lemma {:induction false} DiffHitsIntoHits(acc: seq<BoolPoint>, pts: seq<BoolPoint>, polygons: seq<PolygonContour>, m: nat)
    requires m <= |polygons|
    ensures forall m', i, j ::
      (m <= m' < |polygons| && |polygons[m'].points| >= 3 && 0 <= i < |pts| &&
       0 <= j < |polygons[m'].points| && EdgeHitAt(pts, polygons[m'].points, i, j).Some?) ==>
      Contains(DiffHitsInto(acc, pts, polygons, m), EdgeHitAt(pts, polygons[m'].points, i, j).value)
    decreases |polygons| - m
  {
    if m < |polygons| {
      var next := if |polygons[m].points| < 3 then acc else EdgesInto(acc, pts, polygons[m].points, 0);
      var r := DiffHitsInto(next, pts, polygons, m + 1);
      assert r == DiffHitsInto(acc, pts, polygons, m);
      EdgesIntoHits(acc, pts, polygons[m].points, 0);
      DiffHitsIntoFacts(next, pts, polygons, m + 1);
      DiffHitsIntoHits(next, pts, polygons, m + 1);
      if |polygons[m].points| >= 3 {
        forall i, j | 0 <= i < |pts| && 0 <= j < |polygons[m].points| && EdgeHitAt(pts, polygons[m].points, i, j).Some?
          ensures Contains(r, EdgeHitAt(pts, polygons[m].points, i, j).value)
        {
          ContainsExtends(next, r, EdgeHitAt(pts, polygons[m].points, i, j).value);
        }
      }
    }
  }

  /** INTERSECTION's candidates for a pair are pairwise distinct; each
      one is a vertex of either contour inside the other or a crossing of
      their edges; and every such vertex and every such crossing is among
      them (up to set equivalence). */
  lemma PairCandidatesFacts(pts1: seq<BoolPoint>, pts2: seq<BoolPoint>)
    ensures Distinct(PairCandidates(pts1, pts2))
    ensures forall q :: 0 <= q < |PairCandidates(pts1, pts2)| ==> PairSource(pts1, pts2, PairCandidates(pts1, pts2)[q])
    ensures forall i :: 0 <= i < |pts1| && RayParity(pts1[i], pts2) ==> Contains(PairCandidates(pts1, pts2), pts1[i])
    ensures forall i :: 0 <= i < |pts2| && RayParity(pts2[i], pts1) ==> Contains(PairCandidates(pts1, pts2), pts2[i])
    ensures forall i, j :: 0 <= i < |pts1| && 0 <= j < |pts2| && EdgeHitAt(pts1, pts2, i, j).Some? ==>
      Contains(PairCandidates(pts1, pts2), EdgeHitAt(pts1, pts2, i, j).value)
  {
    var s1 := InsideInto([], pts1, 0, pts2);
    var s2 := InsideInto(s1, pts2, 0, pts1);
    var r := PairCandidates(pts1, pts2);
    InsideIntoFacts([], pts1, 0, pts2);
    InsideIntoFacts(s1, pts2, 0, pts1);
    EdgesIntoFacts(s2, pts1, pts2, 0);
    GrowsTransitive(s1, s2, r);
    forall i | 0 <= i < |pts1| && RayParity(pts1[i], pts2) ensures Contains(r, pts1[i]) {
      ContainsExtends(s1, r, pts1[i]);
    }
    forall i | 0 <= i < |pts2| && RayParity(pts2[i], pts1) ensures Contains(r, pts2[i]) {
      ContainsExtends(s2, r, pts2[i]);
    }
    EdgesIntoHits(s2, pts1, pts2, 0);
    InsideIntoSources([], pts1, 0, pts2);
    InsideIntoSources(s1, pts2, 0, pts1);
    EdgesIntoSources(s2, pts1, pts2, 0);
    forall q | 0 <= q < |r| ensures PairSource(pts1, pts2, r[q]) {
      if q < |s1| {
        assert r[q] == r[..|s1|][q] == s1[q];
      } else if q < |s2| {
        assert r[q] == r[..|s2|][q] == s2[q];
      }
    }
  }

  /** DIFFERENCE's candidates for a contour are pairwise distinct; each one
      is a vertex outside every contour of the second operand or a crossing
      with an edge of one of its contours of at least 3 points; and every
      such vertex and every such crossing is among them (up to set
      equivalence). */
  lemma DiffCandidatesFacts(pts: seq<BoolPoint>, polygons: seq<PolygonContour>)
    ensures Distinct(DiffCandidates(pts, polygons))
    ensures forall q :: 0 <= q < |DiffCandidates(pts, polygons)| ==> DiffSource(pts, polygons, DiffCandidates(pts, polygons)[q])
    ensures forall i :: 0 <= i < |pts| && !InsideAny(pts[i], polygons) ==> Contains(DiffCandidates(pts, polygons), pts[i])
    ensures forall m, i, j ::
      (0 <= m < |polygons| && |polygons[m].points| >= 3 && 0 <= i < |pts| &&
       0 <= j < |polygons[m].points| && EdgeHitAt(pts, polygons[m].points, i, j).Some?) ==>
      Contains(DiffCandidates(pts, polygons), EdgeHitAt(pts, polygons[m].points, i, j).value)
  {
    var s1 := OutsideInto([], pts, 0, polygons);
    var r := DiffCandidates(pts, polygons);
    OutsideIntoFacts([], pts, 0, polygons);
    DiffHitsIntoFacts(s1, pts, polygons, 0);
    forall i | 0 <= i < |pts| && !InsideAny(pts[i], polygons) ensures Contains(r, pts[i]) {
      ContainsExtends(s1, r, pts[i]);
    }
    DiffHitsIntoHits(s1, pts, polygons, 0);
    OutsideIntoSources([], pts, 0, polygons);
    DiffHitsIntoSources(s1, pts, polygons, 0);
    forall q | 0 <= q < |r| ensures DiffSource(pts, polygons, r[q]) {
      if q < |s1| {
        assert r[q] == r[..|s1|][q] == s1[q];
      }
    }
  }

  // ---------------------------------------------------------------------
  // Building an output contour

  /** The atan2 sort around a centre, left abstract: any function of the
      centre and the list. */
  type AngularSort = (BoolPoint, seq<BoolPoint>) -> seq<BoolPoint>

  /** What is known of the sort: it reorders its input. */
  ghost predicate Permutes(sort: AngularSort)
  {
    forall c, s :: multiset(sort(c, s)) == multiset(s)
  }

  /** A candidate list becomes an output contour when it has at least 3
      points: sorted by angle when it has more than 3, hole flag cleared,
      wound counter-clockwise. */
  function Finish(all: seq<BoolPoint>, sort: AngularSort): Option<PolygonContour>
  {
    if |all| < 3 then None
    else
      var pts := if |all| > 3 then sort(Centroid(all), all) else all;
      Some(PolygonContour(WindingFixed(pts, false), false))
  }

  /** An output contour of INTERSECTION or DIFFERENCE. */
  ghost predicate WellFormedOutput(c: PolygonContour)
  {
    |c.points| >= 3 && Distinct(c.points) && !c.isHole && Area(c.points) >= 0.0
  }

  /** A candidate list of at least 3 distinct points becomes a well-formed
      contour holding exactly those points; a shorter one is dropped. */
  lemma FinishFacts(all: seq<BoolPoint>, sort: AngularSort)
    requires Permutes(sort) && Distinct(all)
    ensures Finish(all, sort).Some? <==> |all| >= 3
    ensures Finish(all, sort).Some? ==>
      WellFormedOutput(Finish(all, sort).value) &&
      multiset(Finish(all, sort).value.points) == multiset(all)
  {
    if |all| >= 3 {
      var pts := if |all| > 3 then sort(Centroid(all), all) else all;
      assert multiset(pts) == multiset(all);
      DistinctPermutation(all, pts);
      DistinctPermutation(all, WindingFixed(pts, false));
      WindingCounterClockwise(pts);
    }
  }

  /** Append the finished contour, if any, to the result list. */
  function PushFinished(acc: seq<PolygonContour>, o: Option<PolygonContour>): seq<PolygonContour>
  {
    if o.Some? then acc + [o.value] else acc
  }

  // ---------------------------------------------------------------------
  // The three operations

  datatype Operation = Intersection | Union | Difference

  /** UNION's treatment of one contour: winding fixed, hole flag cleared. */
  function UnionContour(c: PolygonContour): PolygonContour
  {
    PolygonContour(WindingFixed(c.points, false), false)
  }

  function UnionAll(poly1: seq<PolygonContour>, poly2: seq<PolygonContour>): (r: seq<PolygonContour>)
    ensures |r| == |poly1| + |poly2|
  {
    seq(|poly1| + |poly2|, k requires 0 <= k < |poly1| + |poly2| => UnionContour((poly1 + poly2)[k]))
  }

  /** INTERSECTION's inner loop: contour1 against the contours m.. of poly2. */
  function IntersectRowInto(acc: seq<PolygonContour>, c1: PolygonContour, poly2: seq<PolygonContour>, m: nat, sort: AngularSort): seq<PolygonContour>
    requires m <= |poly2|
    decreases |poly2| - m
  {
    if m == |poly2| then acc
    else IntersectRowInto(
      if |poly2[m].points| < 3 then acc
      else PushFinished(acc, Finish(PairCandidates(c1.points, poly2[m].points), sort)),
      c1, poly2, m + 1, sort)
  }

  /** INTERSECTION's outer loop over the contours k.. of poly1. */
  function IntersectInto(acc: seq<PolygonContour>, poly1: seq<PolygonContour>, poly2: seq<PolygonContour>, k: nat, sort: AngularSort): seq<PolygonContour>
    requires k <= |poly1|
    decreases |poly1| - k
  {
    if k == |poly1| then acc
    else IntersectInto(
      if |poly1[k].points| < 3 then acc else IntersectRowInto(acc, poly1[k], poly2, 0, sort),
      poly1, poly2, k + 1, sort)
  }

  /** DIFFERENCE's loop over the contours k.. of poly1. */
  function DiffInto(acc: seq<PolygonContour>, poly1: seq<PolygonContour>, poly2: seq<PolygonContour>, k: nat, sort: AngularSort): seq<PolygonContour>
    requires k <= |poly1|
    decreases |poly1| - k
  {
    if k == |poly1| then acc
    else DiffInto(
      if |poly1[k].points| < 3 then acc
      else PushFinished(acc, Finish(DiffCandidates(poly1[k].points, poly2), sort)),
      poly1, poly2, k + 1, sort)
  }

  /** `booleanOperation(poly1, poly2, op)`. */
  function BooleanResult(poly1: seq<PolygonContour>, poly2: seq<PolygonContour>, op: Operation, sort: AngularSort): seq<PolygonContour>
  {
    if poly1 == [] && poly2 == [] then []
    else match op
      case Union => UnionAll(poly1, poly2)
      case Intersection =>
        if poly1 == [] || poly2 == [] then [] else IntersectInto([], poly1, poly2, 0, sort)
      case Difference =>
        if poly1 == [] then [] else if poly2 == [] then poly1 else DiffInto([], poly1, poly2, 0, sort)
  }

  // ---------------------------------------------------------------------
  // Properties of the operations

  /** UNION: one output per input contour, poly1's first, each the input
      list or its reverse, counter-clockwise, hole flag cleared. */
  lemma UnionProperties(poly1: seq<PolygonContour>, poly2: seq<PolygonContour>, sort: AngularSort)
    ensures var r := BooleanResult(poly1, poly2, Union, sort);
      |r| == |poly1| + |poly2| &&
      forall k :: 0 <= k < |r| ==>
        var src := if k < |poly1| then poly1[k] else poly2[k - |poly1|];
        (r[k].points == src.points || r[k].points == Reverse(src.points)) &&
        !r[k].isHole && (|src.points| >= 3 ==> Area(r[k].points) >= 0.0)
  {
    var r := BooleanResult(poly1, poly2, Union, sort);
    forall k | 0 <= k < |r|
      ensures var src := if k < |poly1| then poly1[k] else poly2[k - |poly1|];
        (r[k].points == src.points || r[k].points == Reverse(src.points)) &&
        !r[k].isHole && (|src.points| >= 3 ==> Area(r[k].points) >= 0.0)
    {
      var src := if k < |poly1| then poly1[k] else poly2[k - |poly1|];
      assert (poly1 + poly2)[k] == src;
      WindingCounterClockwise(src.points);
    }
  }

  /** How many of the contours k.. have at least 3 points: the contours
      INTERSECTION and DIFFERENCE do not skip. */
  function QualifyingFrom(poly: seq<PolygonContour>, k: nat): (n: nat)
    requires k <= |poly|
    ensures n <= |poly| - k
    decreases |poly| - k
  {
    if k == |poly| then 0
    else (if |poly[k].points| >= 3 then 1 else 0) + QualifyingFrom(poly, k + 1)
  }

  function Qualifying(poly: seq<PolygonContour>): nat
  {
    QualifyingFrom(poly, 0)
  }

  /** Every contour of the list is an output contour. */
  ghost predicate AllWellFormed(r: seq<PolygonContour>)
  {
    forall c :: c in r ==> WellFormedOutput(c)
  }

  lemma PushFinishedFacts(acc: seq<PolygonContour>, all: seq<BoolPoint>, sort: AngularSort)
    requires Permutes(sort) && Distinct(all) && AllWellFormed(acc)
    ensures var r := PushFinished(acc, Finish(all, sort));
      AllWellFormed(r) && |r| <= |acc| + 1
  {
    FinishFacts(all, sort);
  }

  lemma {:induction false} IntersectRowIntoFacts(acc: seq<PolygonContour>, c1: PolygonContour, poly2: seq<PolygonContour>, m: nat, sort: AngularSort)
    requires m <= |poly2| && Permutes(sort) && AllWellFormed(acc)
    ensures var r := IntersectRowInto(acc, c1, poly2, m, sort);
      AllWellFormed(r) && |r| <= |acc| + QualifyingFrom(poly2, m)
    decreases |poly2| - m
  {
    if m < |poly2| {
      var next := if |poly2[m].points| < 3 then acc
                  else PushFinished(acc, Finish(PairCandidates(c1.points, poly2[m].points), sort));
      if |poly2[m].points| >= 3 {
        PairCandidatesFacts(c1.points, poly2[m].points);
        PushFinishedFacts(acc, PairCandidates(c1.points, poly2[m].points), sort);
      }
      IntersectRowIntoFacts(next, c1, poly2, m + 1, sort);
    }
  }

  lemma {:induction false} IntersectIntoFacts(acc: seq<PolygonContour>, poly1: seq<PolygonContour>, poly2: seq<PolygonContour>, k: nat, sort: AngularSort)
    requires k <= |poly1| && Permutes(sort) && AllWellFormed(acc)
    ensures var r := IntersectInto(acc, poly1, poly2, k, sort);
      AllWellFormed(r) && |r| <= |acc| + QualifyingFrom(poly1, k) * Qualifying(poly2)
    decreases |poly1| - k
  {
    if k < |poly1| {
      var next := if |poly1[k].points| < 3 then acc else IntersectRowInto(acc, poly1[k], poly2, 0, sort);
      var q := if |poly1[k].points| < 3 then 0 else 1;
      IntersectRowIntoFacts(acc, poly1[k], poly2, 0, sort);
      IntersectIntoFacts(next, poly1, poly2, k + 1, sort);
      PairCountStep(|IntersectInto(next, poly1, poly2, k + 1, sort)|, |next|, |acc|, q,
                    QualifyingFrom(poly1, k), QualifyingFrom(poly1, k + 1), Qualifying(poly2));
    }
  }

  /** The count after one more contour of poly1: at most q2 outputs per
      qualifying contour. */
  lemma PairCountStep(r: int, next: int, acc: int, q: int, qk: int, qk': int, q2: int)
    requires r <= next + qk' * q2 && next <= acc + q * q2 && qk == q + qk' && (q == 0 || q == 1)
    ensures r <= acc + qk * q2
  {
    assert qk * q2 == q * q2 + qk' * q2;
  }

  /** INTERSECTION: empty when either operand is empty; otherwise at most
      one output per pair of contours that both have at least 3 points,
      each output with at least 3 pairwise distinct points,
      counter-clockwise, hole flag cleared. */
  lemma IntersectionProperties(poly1: seq<PolygonContour>, poly2: seq<PolygonContour>, sort: AngularSort)
    requires Permutes(sort)
    ensures var r := BooleanResult(poly1, poly2, Intersection, sort);
      (poly1 == [] || poly2 == [] ==> r == []) &&
      |r| <= Qualifying(poly1) * Qualifying(poly2) &&
      AllWellFormed(r)
  {
    IntersectIntoFacts([], poly1, poly2, 0, sort);
  }

  lemma {:induction false} DiffIntoFacts(acc: seq<PolygonContour>, poly1: seq<PolygonContour>, poly2: seq<PolygonContour>, k: nat, sort: AngularSort)
    requires k <= |poly1| && Permutes(sort) && AllWellFormed(acc)
    ensures var r := DiffInto(acc, poly1, poly2, k, sort);
      AllWellFormed(r) && |r| <= |acc| + QualifyingFrom(poly1, k)
    decreases |poly1| - k
  {
    if k < |poly1| {
      var next := if |poly1[k].points| < 3 then acc
                  else PushFinished(acc, Finish(DiffCandidates(poly1[k].points, poly2), sort));
      if |poly1[k].points| >= 3 {
        DiffCandidatesFacts(poly1[k].points, poly2);
        PushFinishedFacts(acc, DiffCandidates(poly1[k].points, poly2), sort);
      }
      DiffIntoFacts(next, poly1, poly2, k + 1, sort);
    }
  }

  /** DIFFERENCE: empty for an empty poly1; poly1 itself, untouched, for an
      empty poly2; otherwise at most one output per contour of poly1 with
      at least 3 points, each output with at least 3 pairwise distinct
      points, counter-clockwise, hole flag cleared. */
  lemma DifferenceProperties(poly1: seq<PolygonContour>, poly2: seq<PolygonContour>, sort: AngularSort)
    requires Permutes(sort)
    ensures var r := BooleanResult(poly1, poly2, Difference, sort);
      (poly1 == [] ==> r == []) &&
      (poly1 != [] && poly2 == [] ==> r == poly1) &&
      (poly2 != [] ==> |r| <= Qualifying(poly1) && AllWellFormed(r))
  {
    DiffIntoFacts([], poly1, poly2, 0, sort);
  }
}
