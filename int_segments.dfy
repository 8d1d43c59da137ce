/** The segment-intersection widget: integer points, the orientation
    predicate, the bounding-box test, the intersection decision, the
    line-line intersection point with truncating division, and the widget
    state that keeps the found point. */
module IntSegments {

  /** QPoint: integer coordinates. */
  datatype IntPoint = IntPoint(x: int, y: int)

  /** `QPoint()`: the origin, which the widget also uses as "no point". */
  function NullPoint(): (p: IntPoint)
    ensures p.x == 0 && p.y == 0
  {
    IntPoint(0, 0)
  }

  /** `QPoint::isNull`. */
  predicate IsNull(p: IntPoint)
  {
    p.x == 0 && p.y == 0
  }

  /** Segment: two end points. */
  datatype Segment = Segment(p1: IntPoint, p2: IntPoint)

  /** `Segment::isValid`: neither end is the null point. */
  predicate IsValid(s: Segment)
  {
    s.p1 != NullPoint() && s.p2 != NullPoint()
  }

  lemma IsValidMeaning(s: Segment)
    ensures IsValid(s) <==> !IsNull(s.p1) && !IsNull(s.p2)
    ensures IsValid(s) <==> IsValid(Segment(s.p2, s.p1))
    ensures !IsValid(Segment(NullPoint(), NullPoint()))
  {
  }

  // ---------------------------------------------------------------------
  // orientation

  /** (q - p) x (r - p): positive for a counter-clockwise turn. */
  function Turn(p: IntPoint, q: IntPoint, r: IntPoint): int
  {
    (q.x - p.x) * (r.y - p.y) - (q.y - p.y) * (r.x - p.x)
  }

  /** `orientation`: 0 collinear, 1 clockwise, 2 counter-clockwise. */
  function Orientation(p: IntPoint, q: IntPoint, r: IntPoint): (o: int)
    ensures o in {0, 1, 2}
    ensures o == 0 <==> Turn(p, q, r) == 0
    ensures o == 1 <==> Turn(p, q, r) < 0
  {
    var v := (q.y - p.y) * (r.x - q.x) - (q.x - p.x) * (r.y - q.y);
    assert v == -Turn(p, q, r);
    if v == 0 then 0 else if v > 0 then 1 else 2
  }

  /** 1 and 2 exchanged, 0 kept. */
  function Flip(o: int): int
  {
    if o == 0 then 0 else 3 - o
  }

  /** Rotating the three points keeps the orientation; exchanging the
      first two flips it. */
  lemma OrientationSymmetries(p: IntPoint, q: IntPoint, r: IntPoint)
    ensures Orientation(q, r, p) == Orientation(p, q, r)
    ensures Orientation(q, p, r) == Flip(Orientation(p, q, r))
  {
    assert Turn(q, r, p) == Turn(p, q, r);
    assert Turn(q, p, r) == -Turn(p, q, r);
  }

  // ---------------------------------------------------------------------
  // isPointOnSegment and doSegmentsIntersect

  function IntMin(a: int, b: int): int { if a <= b then a else b }
  function IntMax(a: int, b: int): int { if a <= b then b else a }

  /** `isPointOnSegment`: the point lies in the closed bounding box of the
      segment's ends (collinearity is the caller's business). */
  predicate OnSegment(p: IntPoint, s: Segment)
  {
    p.x <= IntMax(s.p1.x, s.p2.x) && p.x >= IntMin(s.p1.x, s.p2.x) &&
    p.y <= IntMax(s.p1.y, s.p2.y) && p.y >= IntMin(s.p1.y, s.p2.y)
  }

  /** The box test is the coordinate-wise "between the ends" test; both
      ends pass it and it ignores the order of the ends. */
  lemma OnSegmentMeaning(p: IntPoint, s: Segment)
    ensures OnSegment(p, s) <==>
      ((s.p1.x <= p.x <= s.p2.x) || (s.p2.x <= p.x <= s.p1.x)) &&
      ((s.p1.y <= p.y <= s.p2.y) || (s.p2.y <= p.y <= s.p1.y))
    ensures OnSegment(s.p1, s) && OnSegment(s.p2, s)
    ensures OnSegment(p, s) <==> OnSegment(p, Segment(s.p2, s.p1))
  {
  }

  /** `doSegmentsIntersect`: a proper crossing (the ends of each segment on
      different sides of the other), or an end of one segment collinear
      with the other and inside its box. */
  predicate SegmentsIntersect(s1: Segment, s2: Segment)
  {
    var o1 := Orientation(s1.p1, s1.p2, s2.p1);
    var o2 := Orientation(s1.p1, s1.p2, s2.p2);
    var o3 := Orientation(s2.p1, s2.p2, s1.p1);
    var o4 := Orientation(s2.p1, s2.p2, s1.p2);
    (o1 != o2 && o3 != o4) ||
    (o1 == 0 && OnSegment(s2.p1, s1)) ||
    (o2 == 0 && OnSegment(s2.p2, s1)) ||
    (o3 == 0 && OnSegment(s1.p1, s2)) ||
    (o4 == 0 && OnSegment(s1.p2, s2))
  }

  /** The decision does not depend on the order of the two segments. */
  lemma IntersectSymmetric(s1: Segment, s2: Segment)
    ensures SegmentsIntersect(s1, s2) <==> SegmentsIntersect(s2, s1)
  {
  }

  /** Nor on the order of the ends of either segment. */
  lemma IntersectEndOrder(s1: Segment, s2: Segment)
    ensures SegmentsIntersect(s1, s2) <==> SegmentsIntersect(Segment(s1.p2, s1.p1), s2)
    ensures SegmentsIntersect(s1, s2) <==> SegmentsIntersect(s1, Segment(s2.p2, s2.p1))
  {
    OrientationSymmetries(s1.p1, s1.p2, s2.p1);
    OrientationSymmetries(s1.p1, s1.p2, s2.p2);
    OrientationSymmetries(s2.p1, s2.p2, s1.p1);
    OrientationSymmetries(s2.p1, s2.p2, s1.p2);
    OnSegmentMeaning(s2.p1, s1);
    OnSegmentMeaning(s2.p2, s1);
    OnSegmentMeaning(s1.p1, s2);
    OnSegmentMeaning(s1.p2, s2);
  }

  /** Every segment meets itself, and segments with a common end meet. */
  lemma IntersectSharedEnd(s1: Segment, s2: Segment)
    ensures SegmentsIntersect(s1, s1)
    ensures s1.p1 == s2.p1 ==> SegmentsIntersect(s1, s2)
  {
    OnSegmentMeaning(s1.p1, s1);
    OnSegmentMeaning(s2.p1, s1);
  }

  // ---------------------------------------------------------------------
  // calculateIntersectionPoint

  /** C++ `int /`: the quotient truncated toward zero (Dafny's `/` is
      Euclidean, so a negative dividend with a remainder is corrected one
      step toward zero). */
  function TruncDiv(a: int, b: int): (q: int)
    requires b != 0
  {
    if a >= 0 || a % b == 0 then a / b
    else if b > 0 then a / b + 1
    else a / b - 1
  }

  /** The truncated quotient: a == q * b + r with |r| < |b| and r zero or
      of the sign of a (which fixes q), exact when b divides a. */
  lemma TruncDivFacts(a: int, b: int)
    requires b != 0
    ensures a % b == 0 ==> TruncDiv(a, b) * b == a
    ensures var r := a - TruncDiv(a, b) * b;
      (if r < 0 then -r else r) < (if b < 0 then -b else b) && (r == 0 || (r < 0) == (a < 0))
  {
    var e := a / b;
    assert a == e * b + a % b;
    if a >= 0 || a % b == 0 {
    } else if b > 0 {
      assert (e + 1) * b == e * b + b;
    } else {
      assert (e - 1) * b == e * b - b;
    }
  }

  /** The numerators and the denominator of the line-line formula. */
  function Denominator(s1: Segment, s2: Segment): int
  {
    (s1.p1.x - s1.p2.x) * (s2.p1.y - s2.p2.y) - (s1.p1.y - s1.p2.y) * (s2.p1.x - s2.p2.x)
  }

  function NumeratorX(s1: Segment, s2: Segment): int
  {
    var (x1, y1, x2, y2) := (s1.p1.x, s1.p1.y, s1.p2.x, s1.p2.y);
    var (x3, y3, x4, y4) := (s2.p1.x, s2.p1.y, s2.p2.x, s2.p2.y);
    (x1 * y2 - y1 * x2) * (x3 - x4) - (x1 - x2) * (x3 * y4 - y3 * x4)
  }

  function NumeratorY(s1: Segment, s2: Segment): int
  {
    var (x1, y1, x2, y2) := (s1.p1.x, s1.p1.y, s1.p2.x, s1.p2.y);
    var (x3, y3, x4, y4) := (s2.p1.x, s2.p1.y, s2.p2.x, s2.p2.y);
    (x1 * y2 - y1 * x2) * (y3 - y4) - (y1 - y2) * (x3 * y4 - y3 * x4)
  }

  /** `calculateIntersectionPoint`: the null point when the segments do not
      meet or are parallel; otherwise the line-line formula, each
      coordinate divided with truncation. */
  function IntersectionPoint(s1: Segment, s2: Segment): (p: IntPoint)
    ensures !SegmentsIntersect(s1, s2) || Denominator(s1, s2) == 0 ==> IsNull(p)
  {
    if !SegmentsIntersect(s1, s2) then NullPoint()
    else
      var d := Denominator(s1, s2);
      if d == 0 then NullPoint()
      else IntPoint(TruncDiv(NumeratorX(s1, s2), d), TruncDiv(NumeratorY(s1, s2), d))
  }

  /** u * (v - w) distributes. */
  lemma MulSub(u: int, v: int, w: int)
    ensures u * (v - w) == u * v - u * w
  {
  }

  /** The factors of a triple product can be regrouped. */
  lemma MulRegroup(u: int, v: int, w: int)
    ensures u * (v * w) == v * (u * w) && u * (v * w) == (u * v) * w
  {
  }

  /** The polynomial identity behind the line-line formula: the scaled
      point is on the line through (x1, y1) and (x2, y2). */
  lemma LineIdentity(x1: int, y1: int, x2: int, y2: int, x3: int, y3: int, x4: int, y4: int)
    ensures var d := (x1 - x2) * (y3 - y4) - (y1 - y2) * (x3 - x4);
      var nx := (x1 * y2 - y1 * x2) * (x3 - x4) - (x1 - x2) * (x3 * y4 - y3 * x4);
      var ny := (x1 * y2 - y1 * x2) * (y3 - y4) - (y1 - y2) * (x3 * y4 - y3 * x4);
      (x2 - x1) * (ny - y1 * d) - (y2 - y1) * (nx - x1 * d) == 0
  {
    var a, c := x1 * y2 - y1 * x2, x3 * y4 - y3 * x4;
    var dx1, dy1, dx2, dy2 := x1 - x2, y1 - y2, x3 - x4, y3 - y4;
    var d := dx1 * dy2 - dy1 * dx2;
    var nx := a * dx2 - dx1 * c;
    var ny := a * dy2 - dy1 * c;
    CrossOfDifference(x1, y1, x2, y2);
    LineIdentityCore(a, c, dx1, dy1, dx2, dy2, x1, y1, d, nx, ny);
    NegatedDifference(x1, x2, ny - y1 * d);
    NegatedDifference(y1, y2, nx - x1 * d);
  }

  /** (u - v) * e is minus (v - u) * e. */
  lemma NegatedDifference(u: int, v: int, e: int)
    ensures (v - u) * e == -((u - v) * e)
  {
  }

  /** The cross term of two points, written over their difference. */
  lemma CrossOfDifference(x1: int, y1: int, x2: int, y2: int)
    ensures (x1 - x2) * y1 - (y1 - y2) * x1 == x1 * y2 - y1 * x2
  {
  }

  /** The same identity over the differences, the cross terms a and c and
      the numerators and denominator named. */
  lemma LineIdentityCore(a: int, c: int, dx1: int, dy1: int, dx2: int, dy2: int, x1: int, y1: int,
                         d: int, nx: int, ny: int)
    requires a == dx1 * y1 - dy1 * x1
    requires d == dx1 * dy2 - dy1 * dx2 && nx == a * dx2 - dx1 * c && ny == a * dy2 - dy1 * c
    ensures dx1 * (ny - y1 * d) - dy1 * (nx - x1 * d) == 0
  {
    MulSub(dx1, ny, y1 * d);
    MulSub(dy1, nx, x1 * d);
    MulSub(dx1, a * dy2, dy1 * c);
    MulSub(dy1, a * dx2, dx1 * c);
    MulRegroup(dx1, a, dy2);
    MulRegroup(dy1, a, dx2);
    MulRegroup(dx1, dy1, c);
    MulRegroup(dy1, dx1, c);
    MulRegroup(dx1, y1, d);
    MulRegroup(dy1, x1, d);
    MulSub(a, dx1 * dy2, dy1 * dx2);
    assert dx1 * (y1 * d) - dy1 * (x1 * d) == a * d by {
      MulSub(d, dx1 * y1, dy1 * x1);
    }
  }

  /** The formula's point (numerators over the denominator) is on the line
      through each segment: scaled by the denominator, its turn against
      either segment is 0. */
  lemma FormulaOnBothLines(s1: Segment, s2: Segment)
    ensures var (d, nx, ny) := (Denominator(s1, s2), NumeratorX(s1, s2), NumeratorY(s1, s2));
      (s1.p2.x - s1.p1.x) * (ny - s1.p1.y * d) - (s1.p2.y - s1.p1.y) * (nx - s1.p1.x * d) == 0 &&
      (s2.p2.x - s2.p1.x) * (ny - s2.p1.y * d) - (s2.p2.y - s2.p1.y) * (nx - s2.p1.x * d) == 0
  {
    var (x1, y1, x2, y2) := (s1.p1.x, s1.p1.y, s1.p2.x, s1.p2.y);
    var (x3, y3, x4, y4) := (s2.p1.x, s2.p1.y, s2.p2.x, s2.p2.y);
    LineIdentity(x1, y1, x2, y2, x3, y3, x4, y4);
    LineIdentity(x3, y3, x4, y4, x1, y1, x2, y2);
    assert Denominator(s2, s1) == -Denominator(s1, s2);
    assert NumeratorX(s2, s1) == -NumeratorX(s1, s2);
    assert NumeratorY(s2, s1) == -NumeratorY(s1, s2);
  }

  /** When the denominator divides both numerators the truncation is exact
      and the point returned lies on both lines. */
  lemma ExactPointOnBothLines(s1: Segment, s2: Segment)
    requires SegmentsIntersect(s1, s2) && Denominator(s1, s2) != 0
    requires NumeratorX(s1, s2) % Denominator(s1, s2) == 0 && NumeratorY(s1, s2) % Denominator(s1, s2) == 0
    ensures Turn(s1.p1, s1.p2, IntersectionPoint(s1, s2)) == 0
    ensures Turn(s2.p1, s2.p2, IntersectionPoint(s1, s2)) == 0
  {
    var d := Denominator(s1, s2);
    var (nx, ny) := (NumeratorX(s1, s2), NumeratorY(s1, s2));
    TruncDivFacts(nx, d);
    TruncDivFacts(ny, d);
    FormulaOnBothLines(s1, s2);
    var p := IntersectionPoint(s1, s2);
    assert p.x * d == nx && p.y * d == ny;
    ScaledTurn(s1.p1, s1.p2, p, d);
    ScaledTurn(s2.p1, s2.p2, p, d);
  }

  /** A turn scaled by a non-zero factor is zero only when the turn is. */
  lemma ScaledTurn(a: IntPoint, b: IntPoint, p: IntPoint, d: int)
    requires d != 0
    requires (b.x - a.x) * (p.y * d - a.y * d) - (b.y - a.y) * (p.x * d - a.x * d) == 0
    ensures Turn(a, b, p) == 0
  {
    assert (b.x - a.x) * (p.y * d - a.y * d) - (b.y - a.y) * (p.x * d - a.x * d) == Turn(a, b, p) * d;
  }

  // ---------------------------------------------------------------------
  // The widget state

  /** The widget's two segments (the vector is resized to 2 on
      construction) and the intersection points it shows. */
  class IntersectionWidget {
    var segments: seq<Segment>
    var intersectionPoints: seq<IntPoint>

    ghost predicate Valid()
      reads this
    {
      |segments| == 2
    }

    /** Two unset segments, no intersection point. */
    constructor ()
      ensures Valid()
      ensures segments == [Segment(NullPoint(), NullPoint()), Segment(NullPoint(), NullPoint())]
      ensures intersectionPoints == []
    {
      segments := [Segment(NullPoint(), NullPoint()), Segment(NullPoint(), NullPoint())];
      intersectionPoints := [];
    }

    /** `updateIntersection`: the list is cleared, then gets the computed
        point when both segments are set and the point is not null. */
    method UpdateIntersection()
      requires Valid()
      modifies this
      ensures Valid() && segments == old(segments)
      ensures var p := IntersectionPoint(segments[0], segments[1]);
        intersectionPoints ==
          if IsValid(segments[0]) && IsValid(segments[1]) && !IsNull(p) then [p] else []
    {
      intersectionPoints := [];
      if IsValid(segments[0]) && IsValid(segments[1]) {
        var intersection := IntersectionPoint(segments[0], segments[1]);
        if !IsNull(intersection) {
          intersectionPoints := intersectionPoints + [intersection];
        }
      }
    }
  }
}
