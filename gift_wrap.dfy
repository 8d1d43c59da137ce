/** The convex-hull widget's hull. Despite its name, `computeGrahamScan` is a
    gift-wrapping walk: it starts at the lowest point and, from the current
    point, scans every point for the next one, until the walk comes back to
    the start. The source does not guarantee that it comes back; the model
    bounds the walk by a fuel count and answers None when the fuel runs out,
    and proves that a fuel of n (the number of points) loses nothing. */
module GiftWrap {
  import opened Planar
  import opened LowestPoint

  type AlgorithmPoint = Point

  /** The value `orientation` classifies. */
  function OrientationValue(p: AlgorithmPoint, q: AlgorithmPoint, r: AlgorithmPoint): real
  {
    (q.y - p.y) * (r.x - q.x) - (q.x - p.x) * (r.y - q.y)
  }

  lemma TurnExpansion(px: real, py: real, qx: real, qy: real, rx: real, ry: real)
    ensures (qy - py) * (rx - qx) - (qx - px) * (ry - qy) == -((qx - px) * (ry - py) - (qy - py) * (rx - px))
  {
    assert (qy - py) * (rx - qx) == (qy - py) * (rx - px) - (qy - py) * (qx - px);
    assert (qx - px) * (ry - qy) == (qx - px) * (ry - py) - (qx - px) * (qy - py);
  }

  /** The classified value is the turn p, q, r with its sign flipped. */
  lemma OrientationValueIsTurn(p: AlgorithmPoint, q: AlgorithmPoint, r: AlgorithmPoint)
    ensures OrientationValue(p, q, r) == -Turn(p, q, r)
  {
    TurnExpansion(p.x, p.y, q.x, q.y, r.x, r.y);
  }

  /** `orientation`: 0 when p, q, r are collinear, 1 when they turn
      clockwise, 2 when they turn counter-clockwise. */
  function Orientation(p: AlgorithmPoint, q: AlgorithmPoint, r: AlgorithmPoint): (o: int)
    ensures 0 <= o <= 2
    ensures o == 0 <==> Turn(p, q, r) == 0.0
    ensures o == 1 <==> Turn(p, q, r) < 0.0
    ensures o == 2 <==> Turn(p, q, r) > 0.0
  {
    var val := OrientationValue(p, q, r);
    OrientationValueIsTurn(p, q, r);
    if val == 0.0 then 0 else if val > 0.0 then 1 else 2
  }

  /** Exchanging q and r exchanges the two turning directions. */
  lemma OrientationSwap(p: AlgorithmPoint, q: AlgorithmPoint, r: AlgorithmPoint)
    ensures Orientation(p, q, r) == 2 <==> Orientation(p, r, q) == 1
    ensures Orientation(p, q, r) == 0 <==> Orientation(p, r, q) == 0
  {
    CrossAntisymmetric(Sub(q, p), Sub(r, p));
  }

  // ---------------------------------------------------------------------
  // One step of the walk: the scan for the next point

  /** The candidate the scan from `current` ends with, when it is at point i
      holding candidate `next`: each point i for which current, i, next turn
      counter-clockwise becomes the candidate. */
  function ScanFrom(pts: seq<AlgorithmPoint>, current: nat, i: nat, next: nat): (r: nat)
    requires current < |pts| && next < |pts| && i <= |pts|
    ensures r < |pts|
    decreases |pts| - i
  {
    if i == |pts| then next
    else ScanFrom(pts, current, i + 1, if Orientation(pts[current], pts[i], pts[next]) == 2 then i else next)
  }

  /** The point the walk moves to from `current`: the scan started with
      the following index, (current + 1) % n. */
  function Successor(pts: seq<AlgorithmPoint>, current: nat): (r: nat)
    requires current < |pts|
    ensures r < |pts|
  {
    ScanFrom(pts, current, 0, Next(current, |pts|))
  }

  lemma {:induction false} ScanFromFacts(pts: seq<AlgorithmPoint>, current: nat, i: nat, next: nat)
    requires current < |pts| && next < |pts| && i <= |pts|
    requires forall j :: next < j < i ==> Orientation(pts[current], pts[j], pts[next]) != 2
    ensures var r := ScanFrom(pts, current, i, next);
      forall j :: r < j < |pts| ==> Orientation(pts[current], pts[j], pts[r]) != 2
    decreases |pts| - i
  {
    if i < |pts| {
      if Orientation(pts[current], pts[i], pts[next]) == 2 {
        ScanFromFacts(pts, current, i + 1, i);
      } else {
        ScanFromFacts(pts, current, i + 1, next);
      }
    }
  }

  /** No point scanned after the chosen one lies counter-clockwise of
      current -> chosen: the chosen point is the last one that replaced the
      candidate, or the starting candidate when none did. */
  lemma SuccessorFacts(pts: seq<AlgorithmPoint>, current: nat)
    requires current < |pts|
    ensures var r := Successor(pts, current);
      forall j :: r < j < |pts| ==> Orientation(pts[current], pts[j], pts[r]) != 2
  {
    ScanFromFacts(pts, current, 0, Next(current, |pts|));
  }

  /** The scan loop. */
  method NextIndex(points: seq<AlgorithmPoint>, current: nat) returns (next: nat)
    requires current < |points|
    ensures next == Successor(points, current)
  {
    next := (current + 1) % |points|;
    var i := 0;
    while i < |points|
      invariant 0 <= i <= |points| && next < |points|
      invariant ScanFrom(points, current, i, next) == Successor(points, current)
    {
      if Orientation(points[current], points[i], points[next]) == 2 {
        next := i;
      }
      i := i + 1;
    }
  }

  // ---------------------------------------------------------------------
  // The walk

  /** Every entry is an index into n points. */
  predicate ValidIndices(idx: seq<nat>, n: nat)
  {
    forall k :: 0 <= k < |idx| ==> idx[k] < n
  }

  /** The do-while from `current`, having output `acc`, with `fuel`
      iterations left: each iteration outputs the current index and moves to
      its successor; the walk ends when that is the start. */
  function Walk(pts: seq<AlgorithmPoint>, start: nat, acc: seq<nat>, current: nat, fuel: nat): (r: Option<seq<nat>>)
    requires start < |pts| && current < |pts| && ValidIndices(acc, |pts|)
    ensures r.Some? ==> ValidIndices(r.value, |pts|)
    decreases fuel
  {
    if fuel == 0 then None
    else
      var next := Successor(pts, current);
      if next == start then Some(acc + [current])
      else Walk(pts, start, acc + [current], next, fuel - 1)
  }

  /** The indices `computeGrahamScan` collects: none below 3 points,
      otherwise the walk from the lowest point. */
  function HullIndices(pts: seq<AlgorithmPoint>, fuel: nat): (r: Option<seq<nat>>)
    ensures r.Some? ==> ValidIndices(r.value, |pts|)
  {
    if |pts| < 3 then Some([])
    else
      var start := Lowest(pts);
      Walk(pts, start, [], start, fuel)
  }

  /** The points at the given indices, in order. */
  function IndexedPoints(pts: seq<AlgorithmPoint>, idx: seq<nat>): (r: seq<AlgorithmPoint>)
    requires ValidIndices(idx, |pts|)
    ensures |r| == |idx| && forall k :: 0 <= k < |idx| ==> r[k] == pts[idx[k]]
  {
    if idx == [] then [] else IndexedPoints(pts, idx[..|idx| - 1]) + [pts[idx[|idx| - 1]]]
  }

  /** The hull `computeGrahamScan` returns, or None when the walk has not
      come back to its start within `fuel` iterations. */
  function GiftWrapHull(pts: seq<AlgorithmPoint>, fuel: nat): Option<seq<AlgorithmPoint>>
  {
    match HullIndices(pts, fuel)
    case None => None
    case Some(idx) => Some(IndexedPoints(pts, idx))
  }

  /** idx is the successor chain from `start` back to it: it begins at the
      start, each entry is the successor of the one before, the successor of
      the last is the start, and the start does not come up again. */
  ghost predicate ClosedChain(pts: seq<AlgorithmPoint>, start: nat, idx: seq<nat>)
    requires start < |pts| && ValidIndices(idx, |pts|)
  {
    |idx| >= 1 && idx[0] == start &&
    (forall k :: 0 <= k < |idx| - 1 ==> idx[k + 1] == Successor(pts, idx[k])) &&
    Successor(pts, idx[|idx| - 1]) == start &&
    (forall k :: 1 <= k < |idx| ==> idx[k] != start)
  }

  /** What a finished walk returns: what it had output, then the chain from
      `current` to the last index before the start comes round again. */
  lemma {:induction false} WalkFacts(pts: seq<AlgorithmPoint>, start: nat, acc: seq<nat>, current: nat, fuel: nat)
    requires start < |pts| && current < |pts| && ValidIndices(acc, |pts|)
    requires Walk(pts, start, acc, current, fuel).Some?
    ensures var r := Walk(pts, start, acc, current, fuel).value;
      |acc| < |r| <= |acc| + fuel && r[..|acc|] == acc && r[|acc|] == current &&
      (forall k :: |acc| <= k < |r| - 1 ==> r[k + 1] == Successor(pts, r[k])) &&
      Successor(pts, r[|r| - 1]) == start &&
      (forall k :: |acc| < k < |r| ==> r[k] != start)
    decreases fuel
  {
    var next := Successor(pts, current);
    if next != start {
      var acc' := acc + [current];
      WalkFacts(pts, start, acc', next, fuel - 1);
      var r := Walk(pts, start, acc', next, fuel - 1).value;
      assert r[..|acc|] == acc by {
        assert r[..|acc'|][..|acc|] == acc;
      }
      assert r[|acc|] == current by {
        assert r[..|acc'|][|acc|] == current;
      }
    }
  }

  /** A finished walk also finishes with exactly as much fuel as it used. */
  lemma {:induction false} WalkLeastFuel(pts: seq<AlgorithmPoint>, start: nat, acc: seq<nat>, current: nat, fuel: nat)
    requires start < |pts| && current < |pts| && ValidIndices(acc, |pts|)
    requires Walk(pts, start, acc, current, fuel).Some?
    ensures var r := Walk(pts, start, acc, current, fuel).value;
      |r| > |acc| && Walk(pts, start, acc, current, |r| - |acc|) == Some(r)
    decreases fuel
  {
    var next := Successor(pts, current);
    WalkFacts(pts, start, acc, current, fuel);
    if next != start {
      WalkLeastFuel(pts, start, acc + [current], next, fuel - 1);
    }
  }

  /** More fuel never changes a finished walk. */
  lemma {:induction false} WalkMoreFuel(pts: seq<AlgorithmPoint>, start: nat, acc: seq<nat>, current: nat, fuel: nat, more: nat)
    requires start < |pts| && current < |pts| && ValidIndices(acc, |pts|)
    requires Walk(pts, start, acc, current, fuel).Some? && fuel <= more
    ensures Walk(pts, start, acc, current, more) == Walk(pts, start, acc, current, fuel)
    decreases fuel
  {
    var next := Successor(pts, current);
    if next != start {
      WalkMoreFuel(pts, start, acc + [current], next, fuel - 1, more - 1);
    }
  }

  /** A repeated index repeats again one step later, as long as the chain
      goes on. */
  lemma {:induction false} RepeatCarriesOn(pts: seq<AlgorithmPoint>, start: nat, idx: seq<nat>, a: nat, b: nat)
    requires start < |pts| && ValidIndices(idx, |pts|) && ClosedChain(pts, start, idx)
    requires a < b < |idx|
    ensures idx[a] == idx[b] ==> idx[a + (|idx| - 1 - b)] == idx[|idx| - 1]
    decreases |idx| - b
  {
    if b < |idx| - 1 {
      RepeatCarriesOn(pts, start, idx, a + 1, b + 1);
    }
  }

  /** The chain of a finished walk never visits an index twice: if it did,
      it would repeat its way round to the last index before reaching it,
      and the start would come up in the middle. */
  lemma NoRepeats(pts: seq<AlgorithmPoint>, start: nat, idx: seq<nat>)
    requires start < |pts| && ValidIndices(idx, |pts|) && ClosedChain(pts, start, idx)
    ensures forall a, b :: 0 <= a < b < |idx| ==> idx[a] != idx[b]
  {
    forall a, b | 0 <= a < b < |idx|
      ensures idx[a] != idx[b]
    {
      RepeatCarriesOn(pts, start, idx, a, b);
      var c := a + (|idx| - 1 - b);
      assert idx[c + 1] == Successor(pts, idx[c]) && idx[c + 1] != start;
    }
  }

  /** Distinct indices below n number at most n. */
  lemma {:induction false} DistinctBelow(idx: seq<nat>, n: nat)
    requires ValidIndices(idx, n)
    requires forall a, b :: 0 <= a < b < |idx| ==> idx[a] != idx[b]
    ensures |idx| <= n
    decreases n
  {
    if |idx| > 0 {
      assert idx[0] < n;
      if p :| 0 <= p < |idx| && idx[p] == n - 1 {
        var rest := idx[..p] + idx[p + 1..];
        assert forall k :: 0 <= k < |rest| ==> rest[k] == if k < p then idx[k] else idx[k + 1];
        DistinctBelow(rest, n - 1);
      } else {
        DistinctBelow(idx, n - 1);
      }
    }
  }

  /** What `computeGrahamScan` collects: nothing below 3 points; otherwise
      the successor chain from the lowest point back to it, which holds
      distinct indices and so at most n of them. */
  lemma HullIndicesFacts(pts: seq<AlgorithmPoint>, fuel: nat)
    requires HullIndices(pts, fuel).Some?
    ensures var idx := HullIndices(pts, fuel).value;
      (|pts| < 3 ==> idx == []) &&
      (|pts| >= 3 ==>
        ClosedChain(pts, Lowest(pts), idx) && |idx| <= fuel && |idx| <= |pts| &&
        forall a, b :: 0 <= a < b < |idx| ==> idx[a] != idx[b])
  {
    if |pts| >= 3 {
      var start := Lowest(pts);
      var idx := HullIndices(pts, fuel).value;
      WalkFacts(pts, start, [], start, fuel);
      NoRepeats(pts, start, idx);
      DistinctBelow(idx, |pts|);
    }
  }

  /** A fuel of n is enough: a walk that comes back to its start with any
      fuel comes back, with the same hull, with fuel n. */
  lemma EnoughFuel(pts: seq<AlgorithmPoint>, fuel: nat)
    requires GiftWrapHull(pts, fuel).Some?
    ensures GiftWrapHull(pts, |pts|) == GiftWrapHull(pts, fuel)
  {
    if |pts| >= 3 {
      var start := Lowest(pts);
      var idx := HullIndices(pts, fuel).value;
      HullIndicesFacts(pts, fuel);
      WalkLeastFuel(pts, start, [], start, fuel);
      WalkMoreFuel(pts, start, [], start, |idx|, |pts|);
    }
  }

  /** The hull: empty below 3 points; otherwise it starts at the lowest
      input point (least y, then least x), has between 1 and n points, and
      every one of them is an input point. */
  lemma GiftWrapFacts(pts: seq<AlgorithmPoint>, fuel: nat)
    requires GiftWrapHull(pts, fuel).Some?
    ensures var h := GiftWrapHull(pts, fuel).value;
      (|pts| < 3 ==> h == []) &&
      (|pts| >= 3 ==>
        1 <= |h| <= |pts| && h[0] == pts[Lowest(pts)] && IsLowest(h[0], pts) &&
        forall q :: q in h ==> q in pts)
  {
    HullIndicesFacts(pts, fuel);
    if |pts| >= 3 {
      LowestFacts(pts);
    }
  }

  /** Below 3 points the answer is the empty hull, whatever the fuel. */
  lemma FewPoints(pts: seq<AlgorithmPoint>, fuel: nat)
    requires |pts| < 3
    ensures GiftWrapHull(pts, fuel) == Some([])
  {
  }

  /** The do-while of `computeGrahamScan`, bounded by `fuel` iterations:
      the walk from the start index. */
  method WalkIndices(points: seq<AlgorithmPoint>, startIndex: nat, fuel: nat) returns (r: Option<seq<nat>>)
    requires startIndex < |points|
    ensures r == Walk(points, startIndex, [], startIndex, fuel)
  {
    var hullIndices: seq<nat> := [];
    var current: nat := startIndex;
    while true
      invariant current < |points| && |hullIndices| <= fuel
      invariant ValidIndices(hullIndices, |points|)
      invariant Walk(points, startIndex, hullIndices, current, fuel - |hullIndices|)
        == Walk(points, startIndex, [], startIndex, fuel)
      decreases fuel - |hullIndices|
    {
      if |hullIndices| == fuel {
        return None;
      }
      hullIndices := hullIndices + [current];
      var next := NextIndex(points, current);
      current := next;
      if current == startIndex {
        return Some(hullIndices);
      }
    }
  }

  /** `computeGrahamScan`, with the do-while bounded by `fuel` iterations. */
  method ComputeGrahamScan(inputPoints: seq<AlgorithmPoint>, fuel: nat) returns (r: Option<seq<AlgorithmPoint>>)
    ensures r == GiftWrapHull(inputPoints, fuel)
  {
    if |inputPoints| < 3 {
      return Some([]);
    }
    var points := inputPoints;
    var startIndex := LowestIndex(points);
    var walked := WalkIndices(points, startIndex, fuel);
    if walked.None? {
      return None;
    }
    var hullIndices := walked.value;
    var convexHull: seq<AlgorithmPoint> := [];
    var k := 0;
    while k < |hullIndices|
      invariant 0 <= k <= |hullIndices|
      invariant convexHull == IndexedPoints(points, hullIndices[..k])
    {
      assert hullIndices[..k + 1][..k] == hullIndices[..k];
      convexHull := convexHull + [points[hullIndices[k]]];
      k := k + 1;
    }
    assert hullIndices[..k] == hullIndices;
    return Some(convexHull);
  }
}
