/** Bezier curve sampling: the binomial
    coefficient loop, the Bernstein sum that evaluates one curve point and
    the three sampling functions that differ only in how many control
    points they demand. Doubles are reals. */
module Bezier {
  import opened Planar

  type AlgoPoint = Point

  // ---------------------------------------------------------------------
  // Binomial coefficients

  /** C(n, k) by Pascal's rule: 0 outside 0 <= k <= n, 1 on the border. */
  function Choose(n: int, k: int): nat
    decreases n
  {
    if k < 0 || k > n then 0
    else if k == 0 || k == n then 1
    else Choose(n - 1, k - 1) + Choose(n - 1, k)
  }

  /** Pascal's rule holds for every k once n >= 1, the border cases
      included. */
  lemma Pascal(n: int, k: int)
    requires n >= 1
    ensures Choose(n, k) == Choose(n - 1, k - 1) + Choose(n - 1, k)
  {
  }

  /** The algebra of one absorption step, over plain numbers. */
  lemma AbsorptionAlgebra(n: int, k: int, a: int, b: int, c: int, d: int)
    requires a == c + d && (k - 1) * a == (n - 1) * c && k * b == (n - 1) * d
    ensures k * (a + b) == n * a
  {
    assert k * (a + b) == k * a + k * b;
    assert k * a == a + (k - 1) * a;
    assert (n - 1) * c + (n - 1) * d == (n - 1) * (c + d);
    assert n * a == a + (n - 1) * a;
  }

  /** The absorption identity k C(n, k) = n C(n - 1, k - 1), which is what
      lets the source build C(n, k) one factor at a time. */
  lemma {:induction false} Absorption(n: int, k: int)
    requires n >= 1
    ensures k * Choose(n, k) == n * Choose(n - 1, k - 1)
    decreases n
  {
    Pascal(n, k);
    if n >= 2 {
      Absorption(n - 1, k);
      Absorption(n - 1, k - 1);
      Pascal(n - 1, k - 1);
      var a, b := Choose(n - 1, k - 1), Choose(n - 1, k);
      var c, d := Choose(n - 2, k - 2), Choose(n - 2, k - 1);
      AbsorptionAlgebra(n, k, a, b, c, d);
    } else {
      assert Choose(1, k) == (if k == 0 || k == 1 then 1 else 0);
      assert Choose(0, k - 1) == (if k == 1 then 1 else 0);
    }
  }

  /** C(n, k) = C(n, n - k). */
  lemma {:induction false} ChooseSymmetric(n: int, k: int)
    ensures Choose(n, k) == Choose(n, n - k)
    decreases n
  {
    if 0 < k < n {
      ChooseSymmetric(n - 1, k - 1);
      ChooseSymmetric(n - 1, k);
    }
  }

  /** Absorption for named values: i C(m, i) = m C(m - 1, i - 1). */
  lemma AbsorptionAt(m: int, i: int, prev: nat, next: nat)
    requires m >= 1 && prev == Choose(m - 1, i - 1) && next == Choose(m, i)
    ensures i * next == m * prev
  {
    Absorption(m, i);
  }

  /** One step of the running product, over plain numbers: when
      i A = m B, the real B m / i is exactly A. */
  lemma ExactFactor(result: real, a: int, b: int, m: int, i: int)
    requires i != 0 && i * a == m * b && result == b as real
    ensures result * m as real / i as real == a as real
  {
    var q := result * m as real;
    assert a as real * i as real == q;
    QuotientTimesDivisor(q, i as real);
    CancelFactor(q / i as real, a as real, i as real);
  }

  /** Equal arguments, equal coefficients. */
  lemma ChooseArguments(a: int, b: int, c: int, d: int)
    requires a == c && b == d
    ensures Choose(a, b) == Choose(c, d)
  {
  }

  /** The update `result = result * (n - k + i) / i` of step i, with
      m = n - k + i: it turns C(m - 1, i - 1) into C(m, i). */
  method ProductStep(result: real, m: int, i: int) returns (r: real)
    requires m >= 1 && i != 0 && result == Choose(m - 1, i - 1) as real
    ensures r == Choose(m, i) as real
  {
    ghost var prev := Choose(m - 1, i - 1);
    ghost var next := Choose(m, i);
    AbsorptionAt(m, i, prev, next);
    ExactFactor(result, next, prev, m, i);
    r := result * m as real / i as real;
  }

  /** `binomialCoefficient`: 0 outside 0 <= k <= n, 1 at k = 0 and k = n,
      otherwise the running product (n - k + 1) / 1 * ... * n / k, which
      after step i holds C(n - k + i, i). */
  method BinomialCoefficient(n: int, k: int) returns (r: real)
    ensures r == Choose(n, k) as real
  {
    if k < 0 || k > n {
      return 0.0;
    }
    if k == 0 || k == n {
      return 1.0;
    }
    var result := 1.0;
    var i := 1;
    while i <= k
      invariant 1 <= i <= k + 1
      invariant result == Choose(n - k + i - 1, i - 1) as real
    {
      result := ProductStep(result, n - k + i, i);
      ChooseArguments(n - k + (i + 1) - 1, (i + 1) - 1, n - k + i, i);
      i := i + 1;
    }
    ChooseArguments(n - k + i - 1, i - 1, n, k);
    return result;
  }

  // ---------------------------------------------------------------------
  // One point of the curve

  /** The Bernstein weight of control point i in a curve of degree n. */
  function Weight(n: nat, i: nat, t: real): real
    requires i <= n
  {
    Choose(n, i) as real * Pow(1.0 - t, n - i) * Pow(t, i)
  }

  /** The weights of a curve of degree n at parameter t, by index. */
  function Bernstein(n: nat, t: real): nat -> real
  {
    (i: nat) => if i <= n then Weight(n, i, t) else 0.0
  }

  /** The weight the loop computes for index i is the Bernstein weight. */
  lemma BernsteinAt(n: nat, i: nat, t: real, b: real, c: real)
    requires i <= n && b == Choose(n, i) as real && c == b * Pow(1.0 - t, n - i) * Pow(t, i)
    ensures c == Bernstein(n, t)(i)
  {
  }

  /** The sum of the first j control points, each times its weight. */
  function PartialSum(points: seq<AlgoPoint>, w: nat -> real, j: nat): AlgoPoint
    requires j <= |points|
  {
    if j == 0 then Origin
    else
      var s := PartialSum(points, w, j - 1);
      Point(s.x + w(j - 1) * points[j - 1].x, s.y + w(j - 1) * points[j - 1].y)
  }

  /** One more term of the sum, for a known prefix and a known weight. */
  lemma PartialSumNext(points: seq<AlgoPoint>, w: nat -> real, j: nat, s: AlgoPoint, c: real)
    requires j < |points| && s == PartialSum(points, w, j) && c == w(j)
    ensures PartialSum(points, w, j + 1) == Point(s.x + c * points[j].x, s.y + c * points[j].y)
  {
  }

  /** The degree of the curve: one less than the number of control points. */
  function Degree(points: seq<AlgoPoint>): nat
  {
    if |points| == 0 then 0 else |points| - 1
  }

  /** The curve point at parameter t: the sum over all control points; the
      origin when there are none. */
  function CurvePoint(points: seq<AlgoPoint>, t: real): AlgoPoint
  {
    PartialSum(points, Bernstein(Degree(points), t), |points|)
  }

  /** `bezierPoint`: accumulates each control point times its weight. For an
      empty list the degree `points.size() - 1` is -1 and the loop does not
      run, so the result is the default point. */
  method BezierPoint(points: seq<AlgoPoint>, t: real) returns (result: AlgoPoint)
    ensures result == CurvePoint(points, t)
  {
    var n := |points| - 1;
    result := Point(0.0, 0.0);
    var i := 0;
    while i <= n
      invariant 0 <= i <= |points|
      invariant result == PartialSum(points, Bernstein(Degree(points), t), i)
    {
      assert n == Degree(points);
      var b := BinomialCoefficient(n, i);
      var coeff := b * Pow(1.0 - t, n - i) * Pow(t, i);
      BernsteinAt(n, i, t, b, coeff);
      PartialSumNext(points, Bernstein(Degree(points), t), i, result, coeff);
      result := Point(result.x + coeff * points[i].x, result.y + coeff * points[i].y);
      i := i + 1;
    }
  }

  /** At t = 0 only the first control point has a non-zero weight. */
  lemma {:induction false} PartialSumAtZero(points: seq<AlgoPoint>, j: nat)
    requires 1 <= j <= |points|
    ensures PartialSum(points, Bernstein(Degree(points), 0.0), j) == points[0]
  {
    var n := |points| - 1;
    PowOfOne(n - (j - 1));
    PowOfZero(j - 1);
    if j > 1 {
      PartialSumAtZero(points, j - 1);
    } else {
      assert Choose(n, 0) == 1;
    }
  }

  /** At t = 1 only the last control point has a non-zero weight. */
  lemma {:induction false} PartialSumAtOne(points: seq<AlgoPoint>, j: nat)
    requires j <= |points|
    ensures j < |points| ==> PartialSum(points, Bernstein(Degree(points), 1.0), j) == Origin
    ensures j == |points| > 0 ==> PartialSum(points, Bernstein(Degree(points), 1.0), j) == points[j - 1]
  {
    var n := |points| - 1;
    if j > 0 {
      PartialSumAtOne(points, j - 1);
      PowOfZero(n - (j - 1));
      PowOfOne(j - 1);
      if j == |points| {
        assert Choose(n, n) == 1;
      }
    }
  }

  /** The curve starts at the first control point and ends at the last. */
  lemma CurveEndpoints(points: seq<AlgoPoint>)
    requires |points| > 0
    ensures CurvePoint(points, 0.0) == points[0]
    ensures CurvePoint(points, 1.0) == points[|points| - 1]
  {
    PartialSumAtZero(points, |points|);
    PartialSumAtOne(points, |points|);
  }

  // ---------------------------------------------------------------------
  // Sampling

  /** The samples at t = i / segments for i = 0 .. segments: none when
      segments is negative, since the loop does not run. */
  function Samples(points: seq<AlgoPoint>, segments: int): (r: seq<AlgoPoint>)
    requires segments != 0
  {
    if segments < 0 then []
    else seq(segments + 1, i => CurvePoint(points, i as real / segments as real))
  }

  /** Samples has segments + 1 points, each on the curve at its own
      parameter, and runs from the first control point to the last. */
  lemma SamplesShape(points: seq<AlgoPoint>, segments: int)
    requires segments != 0
    ensures segments < 0 ==> Samples(points, segments) == []
    ensures segments > 0 ==> |Samples(points, segments)| == segments + 1
    ensures segments > 0 ==> forall i :: 0 <= i <= segments ==>
      Samples(points, segments)[i] == CurvePoint(points, i as real / segments as real)
    ensures segments > 0 && |points| > 0 ==>
      Samples(points, segments)[0] == points[0] && Samples(points, segments)[segments] == points[|points| - 1]
  {
    if segments > 0 && |points| > 0 {
      CurveEndpoints(points);
      assert segments as real / segments as real == 1.0;
      assert 0 as real / segments as real == 0.0;
    }
  }

  /** The sampling loop every `computeBezier*` function runs. */
  method SampleCurve(points: seq<AlgoPoint>, segments: int) returns (curve: seq<AlgoPoint>)
    requires segments != 0
    ensures curve == Samples(points, segments)
  {
    curve := [];
    var i := 0;
    while i <= segments
      invariant segments < 0 ==> i == 0 && curve == []
      invariant segments > 0 ==> 0 <= i <= segments + 1
      invariant |curve| == i
      invariant forall j :: 0 <= j < i ==> curve[j] == CurvePoint(points, j as real / segments as real)
    {
      var t := i as real / segments as real;
      var p := BezierPoint(points, t);
      curve := curve + [p];
      i := i + 1;
    }
  }

  /** `computeBezierQuadratic`: nothing for fewer than 3 control points. */
  method ComputeBezierQuadratic(points: seq<AlgoPoint>, segments: int) returns (curve: seq<AlgoPoint>)
    requires segments != 0
    ensures |points| < 3 ==> curve == []
    ensures |points| >= 3 ==> curve == Samples(points, segments)
  {
    if |points| < 3 {
      return [];
    }
    curve := SampleCurve(points, segments);
  }

  /** `computeBezierCubic`: nothing for fewer than 4 control points. */
  method ComputeBezierCubic(points: seq<AlgoPoint>, segments: int) returns (curve: seq<AlgoPoint>)
    requires segments != 0
    ensures |points| < 4 ==> curve == []
    ensures |points| >= 4 ==> curve == Samples(points, segments)
  {
    if |points| < 4 {
      return [];
    }
    curve := SampleCurve(points, segments);
  }

  /** The guard `points.size() < order + 1`: the int is converted to the
      unsigned size type, so a negative order + 1 becomes huge and the
      guard holds for every list. */
  predicate TooFewForOrder(size: nat, order: int)
  {
    order + 1 < 0 || size < order + 1
  }

  /** `computeBezierNthOrder`: nothing when the guard holds; otherwise the
      curve through ALL the control points, whatever the order. */
  method ComputeBezierNthOrder(points: seq<AlgoPoint>, segments: int, order: int) returns (curve: seq<AlgoPoint>)
    requires segments != 0
    ensures TooFewForOrder(|points|, order) ==> curve == []
    ensures !TooFewForOrder(|points|, order) ==> curve == Samples(points, segments)
  {
    if TooFewForOrder(|points|, order) {
      return [];
    }
    curve := SampleCurve(points, segments);
  }
}
