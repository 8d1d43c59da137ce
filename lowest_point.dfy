/** The start point of every hull: the scan for the lowest point, least y
    first and least x among equal y, keeping the first such index (the
    Graham scan of the polygon-operations widget and the gift-wrapping walk
    run the same loop). */
module LowestPoint {
  import opened Planar

  /** The index the scan ends with when it is at i holding candidate m. */
  function LowestFrom(s: seq<Point>, i: nat, m: nat): (r: nat)
    requires m < |s| && i <= |s|
    ensures r < |s|
    decreases |s| - i
  {
    if i == |s| then m else LowestFrom(s, i + 1, if LowerYX(s[i], s[m]) then i else m)
  }

  /** The index the whole scan ends with. */
  function Lowest(s: seq<Point>): (r: nat)
    requires |s| >= 1
    ensures r < |s|
  {
    LowestFrom(s, 1, 0)
  }

  lemma LowerTransitive(a: Point, b: Point, c: Point)
    ensures LowerYX(a, b) && LowerYX(b, c) ==> LowerYX(a, c)
    ensures LowerYX(a, b) && !LowerYX(c, b) ==> LowerYX(a, c)
    ensures !LowerYX(a, a)
  {
  }

  lemma {:induction false} LowestFromFacts(s: seq<Point>, i: nat, m: nat)
    requires m < i <= |s|
    requires forall k :: 0 <= k < i ==> !LowerYX(s[k], s[m])
    requires forall k :: 0 <= k < m ==> LowerYX(s[m], s[k])
    ensures var r := LowestFrom(s, i, m);
      (forall k :: 0 <= k < |s| ==> !LowerYX(s[k], s[r])) &&
      (forall k :: 0 <= k < r ==> LowerYX(s[r], s[k]))
    decreases |s| - i
  {
    if i < |s| {
      if LowerYX(s[i], s[m]) {
        forall k | 0 <= k < i + 1
          ensures !LowerYX(s[k], s[i])
        {
          LowerTransitive(s[k], s[i], s[m]);
        }
        forall k | 0 <= k < i
          ensures LowerYX(s[i], s[k])
        {
          LowerTransitive(s[i], s[m], s[k]);
        }
        LowestFromFacts(s, i + 1, i);
      } else {
        LowestFromFacts(s, i + 1, m);
      }
    }
  }

  /** The scan's answer is a lowest point (no point is lower, ties broken
      by least x), and the first index holding it. */
  lemma LowestFacts(s: seq<Point>)
    requires |s| >= 1
    ensures forall k :: 0 <= k < |s| ==> !LowerYX(s[k], s[Lowest(s)])
    ensures forall k :: 0 <= k < Lowest(s) ==> LowerYX(s[Lowest(s)], s[k])
    ensures IsLowest(s[Lowest(s)], s)
  {
    LowestFromFacts(s, 1, 0);
  }

  /** The scan loop: a later point replaces the candidate only when it is
      strictly lower. */
  method LowestIndex(points: seq<Point>) returns (minIdx: nat)
    requires |points| >= 1
    ensures minIdx == Lowest(points)
    ensures minIdx < |points| && IsLowest(points[minIdx], points)
  {
    minIdx := 0;
    var i := 1;
    while i < |points|
      invariant 1 <= i <= |points| && minIdx < i
      invariant LowestFrom(points, i, minIdx) == Lowest(points)
    {
      if points[i].y < points[minIdx].y || (points[i].y == points[minIdx].y && points[i].x < points[minIdx].x) {
        minIdx := i;
      }
      i := i + 1;
    }
    LowestFacts(points);
  }
}
