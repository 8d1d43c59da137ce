/** The push/pop stack of the Graham-scan hulls (the polygon-operations
    widget and the point-in-hull widget run the same loop): points are taken
    in order; before each is pushed, the top is popped while the last two
    stacked points and the new one do not turn strictly left. */
module GrahamStack {
  import opened Planar

  /** The pops made before one point p is pushed. */
  function PopWhile(h: seq<Point>, p: Point): (r: seq<Point>)
    ensures |r| <= |h| && r == h[..|r|]
    ensures |h| >= 1 ==> |r| >= 1
    ensures |r| >= 2 ==> Turn(r[|r| - 2], r[|r| - 1], p) > 0.0
    decreases |h|
  {
    if |h| >= 2 && Turn(h[|h| - 2], h[|h| - 1], p) <= 0.0 then PopWhile(h[..|h| - 1], p) else h
  }

  /** One push: the pops for p, then p on top. */
  function Push(h: seq<Point>, p: Point): (r: seq<Point>)
    ensures |r| >= 1 && r[|r| - 1] == p
  {
    PopWhile(h, p) + [p]
  }

  /** The stack after all of pts have been pushed onto h. */
  function Scan(h: seq<Point>, pts: seq<Point>): seq<Point>
    decreases |pts|
  {
    if pts == [] then h else Scan(Push(h, pts[0]), pts[1..])
  }

  /** One push keeps the left-turn chain and the bottom of the stack. */
  lemma PushFacts(h: seq<Point>, p: Point)
    requires |h| >= 1 && LeftTurns(h)
    ensures var h' := Push(h, p);
      LeftTurns(h') && h'[0] == h[0] && 2 <= |h'| <= |h| + 1
  {
    var r := PopWhile(h, p);
    var h' := r + [p];
    forall k | 0 <= k < |h'| - 2
      ensures Turn(h'[k], h'[k + 1], h'[k + 2]) > 0.0
    {
      if k + 2 < |r| {
        assert h'[k] == h[k] && h'[k + 1] == h[k + 1] && h'[k + 2] == h[k + 2];
      }
    }
  }

  /** What the whole loop keeps: every three consecutive stacked points
      turn strictly left, the bottom point is never popped, and the stack
      holds at least two and at most |h| + |pts| points. */
  lemma {:induction false} ScanFacts(h: seq<Point>, pts: seq<Point>)
    requires |h| >= 2 && LeftTurns(h)
    ensures var s := Scan(h, pts);
      2 <= |s| <= |h| + |pts| && s[0] == h[0] && LeftTurns(s)
    decreases |pts|
  {
    if pts != [] {
      PushFacts(h, pts[0]);
      ScanFacts(Push(h, pts[0]), pts[1..]);
    }
  }

  /** The last point pushed is on top of the stack. */
  lemma {:induction false} ScanTop(h: seq<Point>, pts: seq<Point>)
    requires pts != []
    ensures var s := Scan(h, pts); |s| >= 1 && s[|s| - 1] == pts[|pts| - 1]
    decreases |pts|
  {
    if pts[1..] != [] {
      ScanTop(Push(h, pts[0]), pts[1..]);
      assert pts[1..][|pts[1..]| - 1] == pts[|pts| - 1];
    }
  }

  /** Every stacked point was stacked at the start or pushed. */
  lemma {:induction false} ScanProvenance(h: seq<Point>, pts: seq<Point>)
    ensures forall q :: q in Scan(h, pts) ==> q in h || q in pts
    decreases |pts|
  {
    if pts != [] {
      var r := PopWhile(h, pts[0]);
      ScanProvenance(Push(h, pts[0]), pts[1..]);
      forall q | q in Scan(h, pts)
        ensures q in h || q in pts
      {
        if q in r {
          var i :| 0 <= i < |r| && r[i] == q;
          assert h[i] == q;
        } else if q in pts[1..] {
          var i :| 0 <= i < |pts[1..]| && pts[1..][i] == q;
          assert pts[i + 1] == q;
        }
      }
    }
  }

  /** The two starting points of a hull make a (trivial) left-turn chain. */
  lemma PairLeftTurns(a: Point, b: Point)
    ensures LeftTurns([a, b])
  {
  }

  /** The stack loop: starts from the first two sorted points and pushes
      the others in order. */
  method StackScan(sorted: seq<Point>) returns (hull: seq<Point>)
    requires |sorted| >= 2
    ensures hull == Scan([sorted[0], sorted[1]], sorted[2..])
  {
    hull := [sorted[0], sorted[1]];
    var i := 2;
    while i < |sorted|
      invariant 2 <= i <= |sorted|
      invariant |hull| >= 1
      invariant Scan(hull, sorted[i..]) == Scan([sorted[0], sorted[1]], sorted[2..])
    {
      var p := sorted[i];
      ghost var h0 := hull;
      while |hull| >= 2 && Turn(hull[|hull| - 2], hull[|hull| - 1], p) <= 0.0
        invariant |hull| >= 1
        invariant PopWhile(hull, p) == PopWhile(h0, p)
        decreases |hull|
      {
        hull := hull[..|hull| - 1];
      }
      hull := hull + [p];
      assert hull == Push(h0, p);
      assert sorted[i..][0] == p && sorted[i..][1..] == sorted[i + 1..];
      i := i + 1;
    }
  }
}
