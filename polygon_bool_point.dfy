/** The value types of the polygon boolean engine: the epsilon-tolerant
    point and the contour (a closed point cycle with a hole flag). */
module BoolPoints {
  import opened Planar

  /** BoolPoint: two coordinates; its `-`, `cross` and `dot` are Planar's
      Sub, Cross and Dot. */
  type BoolPoint = Point

  /** The tolerance of `==` and `<` (1e-9). */
  const Epsilon: real := 0.000000001

  /** `operator==`: both coordinate differences below the tolerance
      (componentwise, not Euclidean). */
  predicate Eq(a: BoolPoint, b: BoolPoint)
  {
    Abs(a.x - b.x) < Epsilon && Abs(a.y - b.y) < Epsilon
  }

  /** `operator!=`. */
  predicate Neq(a: BoolPoint, b: BoolPoint)
  {
    !Eq(a, b)
  }

  /** `operator<`: by x when the x values differ by more than the tolerance,
      otherwise by y (exactly). */
  predicate Less(a: BoolPoint, b: BoolPoint)
  {
    if Abs(a.x - b.x) > Epsilon then a.x < b.x else a.y < b.y
  }

  /** PolygonContour: an ordered point cycle (the last point joins the
      first) and a hole flag. */
  datatype PolygonContour = PolygonContour(points: seq<BoolPoint>, isHole: bool)

  /** The default constructor. */
  function DefaultContour(): (c: PolygonContour)
    ensures |c.points| == 0 && !c.isHole
  {
    PolygonContour([], false)
  }

  lemma EqReflexiveSymmetric(a: BoolPoint, b: BoolPoint)
    ensures Eq(a, a)
    ensures Eq(a, b) <==> Eq(b, a)
    ensures Eq(a, b) <==> Abs(a.x - b.x) < Epsilon && Abs(b.y - a.y) < Epsilon
  {
  }

  lemma NeqIsNotEq(a: BoolPoint, b: BoolPoint)
    ensures Neq(a, b) <==> !Eq(a, b)
    ensures Neq(a, b) <==> Neq(b, a)
  {
    EqReflexiveSymmetric(a, b);
  }

  lemma LessIrreflexiveAndByX(a: BoolPoint, b: BoolPoint)
    ensures !Less(a, a)
    ensures b.x - a.x > Epsilon ==> Less(a, b) && !Less(b, a)
    ensures Eq(a, b) ==> (Less(a, b) <==> a.y < b.y)
  {
  }

  /** Equivalence under `operator<`, the test a `std::set<BoolPoint>` uses
      to find a point: neither point is less than the other. */
  predicate SetEquivalent(a: BoolPoint, b: BoolPoint)
  {
    !Less(a, b) && !Less(b, a)
  }

  /** Set equivalence is reflexive and symmetric, and means: x values within
      the tolerance and y values exactly equal. It is not `==`, which
      tolerates a difference in y. */
  lemma SetEquivalentMeaning(a: BoolPoint, b: BoolPoint)
    ensures SetEquivalent(a, a)
    ensures SetEquivalent(a, b) <==> SetEquivalent(b, a)
    ensures SetEquivalent(a, b) <==> Abs(a.x - b.x) <= Epsilon && a.y == b.y
  {
  }

  /** The tolerance makes both `==` and set equivalence intransitive, so `<`
      is not a strict weak order: (0,0), (6e-10,0) and (1.2e-9,0) are
      neighbour-wise alike, yet the two ends are not. */
  lemma ToleranceNotTransitive()
    ensures Eq(Point(0.0, 0.0), Point(0.0000000006, 0.0))
    ensures Eq(Point(0.0000000006, 0.0), Point(0.0000000012, 0.0))
    ensures !Eq(Point(0.0, 0.0), Point(0.0000000012, 0.0))
    ensures SetEquivalent(Point(0.0, 0.0), Point(0.0000000006, 0.0))
    ensures SetEquivalent(Point(0.0000000006, 0.0), Point(0.0000000012, 0.0))
    ensures !SetEquivalent(Point(0.0, 0.0), Point(0.0000000012, 0.0))
  {
  }

  lemma SubAndCross(a: BoolPoint, b: BoolPoint)
    ensures Sub(a, b).x == a.x - b.x && Sub(a, b).y == a.y - b.y
    ensures Cross(a, b) == -Cross(b, a) && Cross(a, a) == 0.0
    ensures Dot(a, b) == Dot(b, a)
  {
    CrossAntisymmetric(a, b);
  }
}
