/** Planar geometry shared by the widgets' algorithm files.
    Every algorithm file of the repository declares its own two-double point
    struct (BoolPoint, AlgoPoint, AlgoPoint2D, AlgorithmPoint); they all have
    the same shape, so the model gives them one value type with real
    coordinates and each module names it after its source struct. */
module Planar {

  datatype Point = Point(x: real, y: real)

  /** The default-constructed point of every struct: (0, 0). */
  const Origin: Point := Point(0.0, 0.0)

  function Add(a: Point, b: Point): (r: Point)
    ensures r.x - a.x == b.x && r.y - a.y == b.y
  {
    Point(a.x + b.x, a.y + b.y)
  }

  function Sub(a: Point, b: Point): (r: Point)
    ensures Add(b, r) == a
  {
    Point(a.x - b.x, a.y - b.y)
  }

  function Scale(a: Point, s: real): (r: Point)
    ensures s == 1.0 ==> r == a
    ensures s == 0.0 ==> r == Origin
  {
    Point(a.x * s, a.y * s)
  }

  /** The z-component of the cross product of two vectors. */
  function Cross(a: Point, b: Point): real
  {
    a.x * b.y - a.y * b.x
  }

  function Dot(a: Point, b: Point): real
  {
    a.x * b.x + a.y * b.y
  }

  /** Squared length of a vector. */
  function Dist2(a: Point): (r: real)
    ensures r >= 0.0
  {
    a.x * a.x + a.y * a.y
  }

  /** (b - a) x (c - a): positive when a, b, c turn left (counter-clockwise
      in a y-up frame). */
  function Turn(a: Point, b: Point, c: Point): real
  {
    Cross(Sub(b, a), Sub(c, a))
  }

  lemma CrossAntisymmetric(a: Point, b: Point)
    ensures Cross(a, b) == -Cross(b, a)
    ensures Cross(a, a) == 0.0
  {
  }

  function Abs(v: real): (r: real)
    ensures r >= 0.0 && (r == v || r == -v)
  {
    if v < 0.0 then -v else v
  }

  function Min(a: real, b: real): (r: real)
    ensures r <= a && r <= b && (r == a || r == b)
  {
    if a <= b then a else b
  }

  function Max(a: real, b: real): (r: real)
    ensures r >= a && r >= b && (r == a || r == b)
  {
    if a >= b then a else b
  }

  /** `std::pow(x, k)` for a non-negative integral exponent, with x^0 = 1. */
  function Pow(x: real, k: nat): real
  {
    if k == 0 then 1.0 else x * Pow(x, k - 1)
  }

  lemma {:induction false} PowOfZero(k: nat)
    ensures Pow(0.0, k) == if k == 0 then 1.0 else 0.0
  {
    if k > 0 { PowOfZero(k - 1); }
  }

  lemma {:induction false} PowOfOne(k: nat)
    ensures Pow(1.0, k) == 1.0
  {
    if k > 0 { PowOfOne(k - 1); }
  }

  /** `(i + 1) % n`: the index after i around a cycle of n. */
  function Next(i: nat, n: nat): (r: nat)
    requires i < n
    ensures r == (i + 1) % n && r < n
  {
    if i + 1 < n then i + 1 else 0
  }

  // ---------------------------------------------------------------------
  // Ray casting

  /** Does the horizontal ray from p towards +x cross the edge from pi to pj?
      The two y-tests differ only when pi.y != pj.y, so the division is
      defined whenever it is evaluated. */
  predicate RayCrosses(p: Point, pi: Point, pj: Point)
  {
    (pi.y > p.y) != (pj.y > p.y) &&
    p.x < (pj.x - pi.x) * (p.y - pi.y) / (pj.y - pi.y) + pi.x
  }

  /** Parity of the crossings of the open chain s[1]s[0], s[2]s[1], ...,
      s[|s|-1]s[|s|-2]. */
  function ChainParity(p: Point, s: seq<Point>): bool
  {
    if |s| < 2 then false
    else ChainParity(p, s[..|s| - 1]) != RayCrosses(p, s[|s| - 1], s[|s| - 2])
  }

  /** The ray-casting answer over the closed edge cycle of s: the closing edge
      (s[0], s[|s|-1]) followed by the chain; false for fewer than 3 points. */
  function RayParity(p: Point, s: seq<Point>): bool
  {
    if |s| < 3 then false
    else RayCrosses(p, s[0], s[|s| - 1]) != ChainParity(p, s)
  }

  lemma {:induction false} ChainParityFront(p: Point, s: seq<Point>)
    requires |s| >= 2
    ensures ChainParity(p, s) == (RayCrosses(p, s[1], s[0]) != ChainParity(p, s[1..]))
  {
    if |s| > 2 {
      var t := s[..|s| - 1];
      ChainParityFront(p, t);
      assert t[1..] == s[1..][..|s[1..]| - 1];
    } else {
      assert s[..|s| - 1][..1] == s[..1];
    }
  }

  lemma {:induction false} ChainParityAppend(p: Point, s: seq<Point>, q: Point)
    requires |s| >= 1
    ensures ChainParity(p, s + [q]) == (ChainParity(p, s) != RayCrosses(p, q, s[|s| - 1]))
  {
    assert (s + [q])[..|s|] == s;
  }

  /** One step of cyclic rotation. */
  function RotateOnce(s: seq<Point>): (r: seq<Point>)
    requires |s| > 0
    ensures |r| == |s| && multiset(r) == multiset(s)
  {
    assert s == [s[0]] + s[1..];
    s[1..] + [s[0]]
  }

  lemma {:induction false} RayParityRotateOnce(p: Point, s: seq<Point>)
    requires |s| > 0
    ensures RayParity(p, RotateOnce(s)) == RayParity(p, s)
  {
    if |s| >= 3 {
      var r := RotateOnce(s);
      ChainParityFront(p, s);
      ChainParityAppend(p, s[1..], s[0]);
      assert r[0] == s[1] && r[|r| - 1] == s[0];
      assert s[1..][|s[1..]| - 1] == s[|s| - 1];
    }
  }

  /** The answer of the ray-casting test does not depend on which point the
      cycle starts at. */
  lemma {:induction false} RayParityRotate(p: Point, s: seq<Point>, k: nat)
    requires k <= |s|
    ensures RayParity(p, s[k..] + s[..k]) == RayParity(p, s)
  {
    if k == 0 {
      assert s[0..] + s[..0] == s;
    } else {
      RayParityRotate(p, s, k - 1);
      RotationStep(s, k);
      RayParityRotateOnce(p, s[k - 1..] + s[..k - 1]);
    }
  }

  /** Rotating the k-1 rotation once more gives the k rotation. */
  lemma RotationStep(s: seq<Point>, k: nat)
    requires 0 < k <= |s|
    ensures |s[k - 1..] + s[..k - 1]| > 0
    ensures RotateOnce(s[k - 1..] + s[..k - 1]) == s[k..] + s[..k]
  {
    var prev := s[k - 1..] + s[..k - 1];
    assert prev[0] == s[k - 1];
    assert prev[1..] == s[k..] + s[..k - 1];
    assert s[..k - 1] + [s[k - 1]] == s[..k];
  }

  // ---------------------------------------------------------------------
  // Parametric segment intersection

  /** Parameter along a1->a2 of the meeting point of the two supporting lines. */
  function ParamT(a1: Point, a2: Point, b1: Point, b2: Point): real
    requires Cross(Sub(a2, a1), Sub(b2, b1)) != 0.0
  {
    Cross(Sub(b1, a1), Sub(b2, b1)) / Cross(Sub(a2, a1), Sub(b2, b1))
  }

  /** Parameter along b1->b2 of the same point. */
  function ParamU(a1: Point, a2: Point, b1: Point, b2: Point): real
    requires Cross(Sub(a2, a1), Sub(b2, b1)) != 0.0
  {
    Cross(Sub(b1, a1), Sub(a2, a1)) / Cross(Sub(a2, a1), Sub(b2, b1))
  }

  function PointAt(a: Point, d: Point, t: real): Point
  {
    Point(a.x + t * d.x, a.y + t * d.y)
  }

  /** The two parameters name the same point on both lines. */
  lemma LinesMeet(a1: Point, a2: Point, b1: Point, b2: Point)
    requires Cross(Sub(a2, a1), Sub(b2, b1)) != 0.0
    ensures PointAt(a1, Sub(a2, a1), ParamT(a1, a2, b1, b2))
         == PointAt(b1, Sub(b2, b1), ParamU(a1, a2, b1, b2))
  {
    var d1, d2, w := Sub(a2, a1), Sub(b2, b1), Sub(b1, a1);
    var c := Cross(d1, d2);
    var t, u := ParamT(a1, a2, b1, b2), ParamU(a1, a2, b1, b2);
    var tc, uc := Cross(w, d2), Cross(w, d1);
    QuotientTimesDivisor(tc, c);
    QuotientTimesDivisor(uc, c);
    MeetIdentity(w.x, w.y, d1.x, d1.y, d2.x, d2.y);
    MeetCoordinate(t, u, c, d1.x, d2.x, w.x, tc, uc);
    MeetCoordinate(t, u, c, d1.y, d2.y, w.y, tc, uc);
  }

  lemma QuotientTimesDivisor(a: real, c: real)
    requires c != 0.0
    ensures (a / c) * c == a
  {
  }

  /** The two numerators combine to each coordinate of b1 - a1 times the
      denominator. */
  lemma MeetIdentity(wx: real, wy: real, px: real, py: real, qx: real, qy: real)
    ensures (wx * qy - wy * qx) * px - (wx * py - wy * px) * qx == wx * (px * qy - py * qx)
    ensures (wx * qy - wy * qx) * py - (wx * py - wy * px) * qy == wy * (px * qy - py * qx)
  {
  }

  /** One coordinate: t d1 - u d2 is w once the denominator c is cancelled. */
  lemma MeetCoordinate(t: real, u: real, c: real, d1: real, d2: real, w: real, tc: real, uc: real)
    requires c != 0.0 && t * c == tc && u * c == uc && tc * d1 - uc * d2 == w * c
    ensures t * d1 - u * d2 == w
  {
    assert (t * d1 - u * d2) * c == (t * c) * d1 - (u * c) * d2;
    CancelFactor(t * d1 - u * d2, w, c);
  }

  lemma CancelFactor(x: real, y: real, c: real)
    requires c != 0.0 && x * c == y * c
    ensures x == y
  {
    assert (x - y) * c == 0.0;
  }

  /** Segment a1a2 against segment b1b2: nearly parallel pairs (|d1 x d2| < eps)
      never meet; otherwise the meeting point a1 + t*d1 when both parameters
      lie in [0, 1]. */
  function SegmentIntersection(a1: Point, a2: Point, b1: Point, b2: Point, eps: real): (r: Option<Point>)
    requires eps > 0.0
    ensures Abs(Cross(Sub(a2, a1), Sub(b2, b1))) < eps ==> r.None?
    ensures r.Some? <==>
      (Abs(Cross(Sub(a2, a1), Sub(b2, b1))) >= eps &&
       0.0 <= ParamT(a1, a2, b1, b2) <= 1.0 && 0.0 <= ParamU(a1, a2, b1, b2) <= 1.0)
    ensures r.Some? ==>
      r.value == PointAt(a1, Sub(a2, a1), ParamT(a1, a2, b1, b2)) &&
      r.value == PointAt(b1, Sub(b2, b1), ParamU(a1, a2, b1, b2))
  {
    var d1, d2 := Sub(a2, a1), Sub(b2, b1);
    var cross := Cross(d1, d2);
    if Abs(cross) < eps then None
    else
      var t := Cross(Sub(b1, a1), d2) / cross;
      var u := Cross(Sub(b1, a1), d1) / cross;
      if 0.0 <= t <= 1.0 && 0.0 <= u <= 1.0 then
        LinesMeet(a1, a2, b1, b2);
        Some(PointAt(a1, d1, t))
      else None
  }

  datatype Option<T> = None | Some(value: T)

  // ---------------------------------------------------------------------
  // Hull chains

  /** Every three consecutive points make a strict left turn. */
  ghost predicate LeftTurns(h: seq<Point>)
  {
    forall k :: 0 <= k < |h| - 2 ==> Turn(h[k], h[k + 1], h[k + 2]) > 0.0
  }

  /** (y, x)-lexicographic "lowest" order used by every hull's start point. */
  predicate LowerYX(a: Point, b: Point)
  {
    a.y < b.y || (a.y == b.y && a.x < b.x)
  }

  /** m is a lowest point of s: no point of s is strictly lower. */
  ghost predicate IsLowest(m: Point, s: seq<Point>)
  {
    m in s && forall q :: q in s ==> !LowerYX(q, m)
  }
}
