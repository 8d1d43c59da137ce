/** The Delaunay widget's geometry and index types: the circumcircle test
    `isPointInCircumcircle`, and the triangle and edge records of the
    triangulation, which hold indices into a point list. */
module Delaunay {
  import opened Planar

  type AlgoPoint = Point

  // ---------------------------------------------------------------------
  // Triangles and edges

  /** A triangle as three point indices, in the order given. */
  datatype AlgoTriangle = AlgoTriangle(p1: int, p2: int, p3: int)

  /** An edge as two point indices, smaller first once built by MakeEdge. */
  datatype AlgoEdge = AlgoEdge(p1: int, p2: int)

  /** The normalising `AlgoEdge(a, b)` constructor: it keeps min(a, b) and
      max(a, b). */
  function MakeEdge(a: int, b: int): (e: AlgoEdge)
    ensures e.p1 <= e.p2
    ensures (e.p1 == a && e.p2 == b) || (e.p1 == b && e.p2 == a)
  {
    AlgoEdge(if b < a then b else a, if a < b then b else a)
  }

  /** An edge does not depend on the order of its ends, and two edges are
      equal exactly when they join the same two indices. */
  lemma EdgeEquality(a: int, b: int, c: int, d: int)
    ensures MakeEdge(a, b) == MakeEdge(b, a)
    ensures MakeEdge(a, b) == MakeEdge(c, d) <==> (a == c && b == d) || (a == d && b == c)
  {
  }

  /** `AlgoEdge::operator<`: by the first index, then by the second. */
  predicate EdgeLess(e: AlgoEdge, f: AlgoEdge)
  {
    if e.p1 != f.p1 then e.p1 < f.p1 else e.p2 < f.p2
  }

  /** The edge order is a strict total order agreeing with `==`: it is
      irreflexive and transitive, and two edges neither of which is below
      the other are equal. */
  lemma EdgeOrder(e: AlgoEdge, f: AlgoEdge, g: AlgoEdge)
    ensures !EdgeLess(e, e)
    ensures EdgeLess(e, f) ==> !EdgeLess(f, e)
    ensures EdgeLess(e, f) && EdgeLess(f, g) ==> EdgeLess(e, g)
    ensures !EdgeLess(e, f) && !EdgeLess(f, e) <==> e == f
    ensures EdgeLess(e, f) <==> (e.p1 < f.p1 || (e.p1 == f.p1 && e.p2 < f.p2))
  {
  }

  /** `AlgoTriangle::operator==` compares position by position, so a
      triangle and its rotation are equal only when all three indices are. */
  lemma TriangleRotation(a: int, b: int, c: int)
    ensures AlgoTriangle(a, b, c) == AlgoTriangle(b, c, a) <==> a == b && b == c
  {
  }

  // ---------------------------------------------------------------------
  // The circumcircle test

  /** The denominator d of the circumcentre formula. */
  function Denominator(a: AlgoPoint, b: AlgoPoint, c: AlgoPoint): real
  {
    2.0 * (a.x * (b.y - c.y) + b.x * (c.y - a.y) + c.x * (a.y - b.y))
  }

  lemma DenominatorExpansion(xa: real, ya: real, xb: real, yb: real, xc: real, yc: real)
    ensures xa * (yb - yc) + xb * (yc - ya) + xc * (ya - yb) == (xb - xa) * (yc - ya) - (yb - ya) * (xc - xa)
  {
  }

  /** d is twice the turn a, b, c: it is 0 exactly when the three points
      are collinear. */
  lemma DenominatorIsTurn(a: AlgoPoint, b: AlgoPoint, c: AlgoPoint)
    ensures Denominator(a, b, c) == 2.0 * Turn(a, b, c)
  {
    DenominatorExpansion(a.x, a.y, b.x, b.y, c.x, c.y);
  }

  function SquaredNorm(a: AlgoPoint): real
  {
    a.x * a.x + a.y * a.y
  }

  /** The numerators of the centre's two coordinates. */
  function NumeratorX(a: AlgoPoint, b: AlgoPoint, c: AlgoPoint): real
  {
    SquaredNorm(a) * (b.y - c.y) + SquaredNorm(b) * (c.y - a.y) + SquaredNorm(c) * (a.y - b.y)
  }

  function NumeratorY(a: AlgoPoint, b: AlgoPoint, c: AlgoPoint): real
  {
    SquaredNorm(a) * (c.x - b.x) + SquaredNorm(b) * (a.x - c.x) + SquaredNorm(c) * (b.x - a.x)
  }

  /** The centre (ux, uy) the test computes: each numerator divided by d. */
  function Circumcentre(a: AlgoPoint, b: AlgoPoint, c: AlgoPoint): AlgoPoint
    requires Denominator(a, b, c) != 0.0
  {
    ScaledCentre(NumeratorX(a, b, c), NumeratorY(a, b, c), Denominator(a, b, c))
  }

  function ScaledCentre(sx: real, sy: real, d: real): AlgoPoint
    requires d != 0.0
  {
    Point(sx / d, sy / d)
  }

  /** Multiplying the scaled centre by d gives back the numerators. */
  lemma ScaledCentreTimes(sx: real, sy: real, d: real, u: AlgoPoint)
    requires d != 0.0 && u == ScaledCentre(sx, sy, d)
    ensures u.x * d == sx && u.y * d == sy
  {
    QuotientTimesDivisor(sx, d);
    QuotientTimesDivisor(sy, d);
  }

  /** The squared distance between two points. */
  function SquaredDistance(p: AlgoPoint, q: AlgoPoint): real
  {
    (p.x - q.x) * (p.x - q.x) + (p.y - q.y) * (p.y - q.y)
  }

  /** `isPointInCircumcircle`, with both square roots dropped (they are
      monotone): p is no farther from the centre than a is. */
  predicate IsPointInCircumcircle(a: AlgoPoint, b: AlgoPoint, c: AlgoPoint, p: AlgoPoint)
    requires Denominator(a, b, c) != 0.0
  {
    var u := Circumcentre(a, b, c);
    SquaredDistance(p, u) <= SquaredDistance(a, u)
  }

  /** Both numerators are combinations of the three squared norms; so is
      their dot product with any vector (vx, vy). */
  lemma Distribute(qa: real, qb: real, qc: real, p1: real, p2: real, p3: real, r1: real, r2: real, r3: real,
                   sx: real, sy: real, vx: real, vy: real)
    requires sx == qa * p1 + qb * p2 + qc * p3 && sy == qa * r1 + qb * r2 + qc * r3
    ensures sx * vx + sy * vy == qa * (p1 * vx + r1 * vy) + qb * (p2 * vx + r2 * vy) + qc * (p3 * vx + r3 * vy)
  {
  }

  /** The coefficients of the squared norms are the turn t, its negation,
      or 0. */
  lemma Coefficients(xa: real, ya: real, xb: real, yb: real, xc: real, yc: real, t: real)
    requires t == (xb - xa) * (yc - ya) - (yb - ya) * (xc - xa)
    ensures (yb - yc) * (xb - xa) + (xc - xb) * (yb - ya) == -t
    ensures (yc - ya) * (xb - xa) + (xa - xc) * (yb - ya) == t
    ensures (ya - yb) * (xb - xa) + (xb - xa) * (yb - ya) == 0.0
    ensures (yb - yc) * (xc - xa) + (xc - xb) * (yc - ya) == -t
    ensures (yc - ya) * (xc - xa) + (xa - xc) * (yc - ya) == 0.0
    ensures (ya - yb) * (xc - xa) + (xb - xa) * (yc - ya) == t
  {
  }

  /** The numerators of the centre against the sides ab and ac. */
  lemma CentreIdentity(xa: real, ya: real, xb: real, yb: real, xc: real, yc: real,
                       qa: real, qb: real, qc: real, d: real, sx: real, sy: real)
    requires d == 2.0 * (xa * (yb - yc) + xb * (yc - ya) + xc * (ya - yb))
    requires sx == qa * (yb - yc) + qb * (yc - ya) + qc * (ya - yb)
    requires sy == qa * (xc - xb) + qb * (xa - xc) + qc * (xb - xa)
    ensures 2.0 * (sx * (xb - xa) + sy * (yb - ya)) == d * (qb - qa)
    ensures 2.0 * (sx * (xc - xa) + sy * (yc - ya)) == d * (qc - qa)
  {
    var t := (xb - xa) * (yc - ya) - (yb - ya) * (xc - xa);
    DenominatorExpansion(xa, ya, xb, yb, xc, yc);
    Coefficients(xa, ya, xb, yb, xc, yc, t);
    Distribute(qa, qb, qc, yb - yc, yc - ya, ya - yb, xc - xb, xa - xc, xb - xa, sx, sy, xb - xa, yb - ya);
    Distribute(qa, qb, qc, yb - yc, yc - ya, ya - yb, xc - xb, xa - xc, xb - xa, sx, sy, xc - xa, yc - ya);
    assert d == 2.0 * t;
  }

  /** (q - u)^2 - (p - u)^2, expanded. */
  lemma SquareShift(p: real, q: real, u: real)
    ensures (q - u) * (q - u) - (p - u) * (p - u) == q * q - p * p - 2.0 * u * (q - p)
  {
  }

  /** Both side identities for the formula's own numerators and
      denominator. */
  lemma CentreSides(a: AlgoPoint, b: AlgoPoint, c: AlgoPoint, d: real, sx: real, sy: real)
    requires d == Denominator(a, b, c) && sx == NumeratorX(a, b, c) && sy == NumeratorY(a, b, c)
    ensures 2.0 * (sx * (b.x - a.x) + sy * (b.y - a.y)) == d * (SquaredNorm(b) - SquaredNorm(a))
    ensures 2.0 * (sx * (c.x - a.x) + sy * (c.y - a.y)) == d * (SquaredNorm(c) - SquaredNorm(a))
  {
    CentreIdentity(a.x, a.y, b.x, b.y, c.x, c.y, SquaredNorm(a), SquaredNorm(b), SquaredNorm(c), d, sx, sy);
  }

  /** The side identity for ab with the denominator cancelled. */
  lemma SideDot(a: AlgoPoint, b: AlgoPoint, u: AlgoPoint, d: real, sx: real, sy: real)
    requires d != 0.0 && u.x * d == sx && u.y * d == sy
    requires 2.0 * (sx * (b.x - a.x) + sy * (b.y - a.y)) == d * (SquaredNorm(b) - SquaredNorm(a))
    ensures 2.0 * (u.x * (b.x - a.x) + u.y * (b.y - a.y)) == SquaredNorm(b) - SquaredNorm(a)
  {
    var k := 2.0 * (u.x * (b.x - a.x) + u.y * (b.y - a.y));
    assert k * d == 2.0 * ((u.x * d) * (b.x - a.x) + (u.y * d) * (b.y - a.y));
    CancelFactor(k, SquaredNorm(b) - SquaredNorm(a), d);
  }

  /** |b - u|^2 - |a - u|^2 = |b|^2 - |a|^2 - 2 u . (b - a). */
  lemma DistanceDifference(a: AlgoPoint, b: AlgoPoint, u: AlgoPoint)
    ensures SquaredDistance(b, u) - SquaredDistance(a, u)
      == SquaredNorm(b) - SquaredNorm(a) - 2.0 * (u.x * (b.x - a.x) + u.y * (b.y - a.y))
  {
    SquareShift(a.x, b.x, u.x);
    SquareShift(a.y, b.y, u.y);
  }

  /** A centre u = (sx, sy) / d whose numerators satisfy the side identity
      for ab is as far from b as from a. */
  lemma EquidistantFrom(a: AlgoPoint, b: AlgoPoint, u: AlgoPoint, d: real, sx: real, sy: real)
    requires d != 0.0 && u.x * d == sx && u.y * d == sy
    requires 2.0 * (sx * (b.x - a.x) + sy * (b.y - a.y)) == d * (SquaredNorm(b) - SquaredNorm(a))
    ensures SquaredDistance(b, u) == SquaredDistance(a, u)
  {
    SideDot(a, b, u, d, sx, sy);
    DistanceDifference(a, b, u);
  }

  /** Any point u whose coordinates times d are the formula's numerators
      is as far from b and from c as from a. */
  lemma EquidistantCentre(a: AlgoPoint, b: AlgoPoint, c: AlgoPoint, u: AlgoPoint, d: real, sx: real, sy: real)
    requires d == Denominator(a, b, c) && sx == NumeratorX(a, b, c) && sy == NumeratorY(a, b, c)
    requires d != 0.0 && u.x * d == sx && u.y * d == sy
    ensures SquaredDistance(b, u) == SquaredDistance(a, u) && SquaredDistance(c, u) == SquaredDistance(a, u)
  {
    CentreSides(a, b, c, d, sx, sy);
    EquidistantFrom(a, b, u, d, sx, sy);
    EquidistantFrom(a, c, u, d, sx, sy);
  }

  /** The computed centre is as far from b and from c as from a: it is the
      centre of the circle through the three vertices. */
  lemma CircumcentreEquidistant(a: AlgoPoint, b: AlgoPoint, c: AlgoPoint)
    requires Denominator(a, b, c) != 0.0
    ensures var u := Circumcentre(a, b, c);
      SquaredDistance(b, u) == SquaredDistance(a, u) && SquaredDistance(c, u) == SquaredDistance(a, u)
  {
    var u := Circumcentre(a, b, c);
    var d, sx, sy := Denominator(a, b, c), NumeratorX(a, b, c), NumeratorY(a, b, c);
    ScaledCentreTimes(sx, sy, d, u);
    EquidistantCentre(a, b, c, u, d, sx, sy);
  }

  /** The test asks whether p lies inside or on the circle through a, b and
      c: measuring the radius to b or to c gives the same answer, and the
      three vertices pass it. */
  lemma CircumcircleMeaning(a: AlgoPoint, b: AlgoPoint, c: AlgoPoint, p: AlgoPoint)
    requires Denominator(a, b, c) != 0.0
    ensures var u := Circumcentre(a, b, c);
      (IsPointInCircumcircle(a, b, c, p) <==> SquaredDistance(p, u) <= SquaredDistance(b, u)) &&
      (IsPointInCircumcircle(a, b, c, p) <==> SquaredDistance(p, u) <= SquaredDistance(c, u))
    ensures IsPointInCircumcircle(a, b, c, a) && IsPointInCircumcircle(a, b, c, b) &&
      IsPointInCircumcircle(a, b, c, c)
  {
    CircumcentreEquidistant(a, b, c);
  }

  /** The denominator and both numerators are invariant under rotating
      the vertices. */
  lemma FormulaRotation(a: AlgoPoint, b: AlgoPoint, c: AlgoPoint)
    ensures Denominator(b, c, a) == Denominator(a, b, c)
    ensures NumeratorX(b, c, a) == NumeratorX(a, b, c) && NumeratorY(b, c, a) == NumeratorY(a, b, c)
  {
  }

  /** Listing the vertices in rotated order changes neither the centre nor
      the answer of the test. */
  lemma CircumcircleRotation(a: AlgoPoint, b: AlgoPoint, c: AlgoPoint, p: AlgoPoint)
    requires Denominator(a, b, c) != 0.0
    ensures Denominator(b, c, a) == Denominator(a, b, c)
    ensures Circumcentre(b, c, a) == Circumcentre(a, b, c)
    ensures IsPointInCircumcircle(b, c, a, p) == IsPointInCircumcircle(a, b, c, p)
  {
    FormulaRotation(a, b, c);
    CircumcentreEquidistant(a, b, c);
  }
}
