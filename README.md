# Geometry widgets: a verified model of their algorithm cores

The repository is a set of small Qt teaching widgets. Each widget keeps its
algorithm in a UI-free source file, and this Dafny project models those
algorithms and proves what they promise:

- **Polygon boolean engine** (folder 10). Epsilon-equal `BoolPoint`s,
  ray-casting point-in-polygon, parametric segment intersection, the
  shoelace area and winding normalisation. On top of these, the
  UNION / INTERSECTION / DIFFERENCE composer builds de-duplicated candidate
  lists and turns them into contours (modules `BoolPoints`,
  `PolygonBoolSpec`, `PolygonBoolean`).
- **Exact position of a point relative to a segment** (folder 3).
  - `BigNumber`: a sign and a decimal digit string, with normalisation,
    parse and print, compare, add and subtract with carry and borrow, and
    schoolbook multiplication over an array of cells (modules
    `DecimalDigits`, `BigNumbers`, `BigNumberArith`).
  - The text-point parser and the exact cross-product classifier of the
    segment widget (module `ExactPosition`).
- **Integer segment intersection** (folder 1). Orientation, the on-segment
  box test, the intersection decision, the intersection point with C++
  truncating division, and the widget state that keeps the found point
  (module `IntSegments`).
- **Hull-based polygon operations** (folder 789). The `AlgoPolygon`
  container, with a Graham scan in place. The collect-then-hull
  intersection, union and difference (modules `AlgoPolygons`,
  `PolygonOps`, with `Planar`, `LowestPoint` and `GrahamStack` shared with
  folder 11).
- **Point-in-hull classification and hull** (folder 11, module
  `PointInHull`).
- **Gift-wrapping hull**, which the source calls `computeGrahamScan`
  (folder 5, module `GiftWrap`).
- **Bowyer–Watson Delaunay bookkeeping** (folder 6). The circumcircle test,
  the super-triangle, edge normalisation, the unique-edge filter and the
  final index filter (modules `Delaunay`, `DelaunayBuild`).
- **Bézier sampling** (folder 13). The binomial-coefficient loop, the
  Bernstein sum and the three sampling functions (module `Bezier`).

Coordinates that the source keeps in `double` are exact `real`s here. The
epsilon literals are kept as real constants: 1e-9 for point equality and
for the folder-789 parallel test, 1e-12 for the folder-10 parallel test.
Every `atan2` or epsilon sort becomes a parameter that is only known to
permute its input (and, for the folder-11 pre-sort, to put a least-(y, x)
point first). Where the source works step by step, the model does too: its
loops are methods with invariants, each proved against a specification
function, and the properties are lemmas about those functions.

## Model

| member | source | states |
|---|---|---|
| BoolPoints.EqReflexiveSymmetric | 10/polygon_bool_algorithms.h:11-13 | point equality is reflexive and symmetric, and holds iff both coordinate differences are below 1e-9 |
| BoolPoints.NeqIsNotEq | 10/polygon_bool_algorithms.h:15-17 | `!=` is exactly the negation of `==` and is symmetric |
| BoolPoints.LessIrreflexiveAndByX | 10/polygon_bool_algorithms.h:19-22 | `<` is irreflexive; points more than 1e-9 apart in x are ordered by x alone; tolerance-equal points are ordered by y |
| BoolPoints.SetEquivalentMeaning | 10/polygon_bool_algorithms.h:19-22 | two points are equivalent under `<` iff their x values are within 1e-9 and their y values are identical |
| BoolPoints.ToleranceNotTransitive | 10/polygon_bool_algorithms.h:11-22 | concrete points show that neither `==` nor the `<`-equivalence is transitive |
| BoolPoints.SubAndCross | 10/polygon_bool_algorithms.h:24-34 | subtraction is componentwise; cross is antisymmetric and zero on equal vectors; dot is symmetric |
| BoolPoints.DefaultContour | 10/polygon_bool_algorithms.h:37-42 | a default contour has no points and is not a hole |
| PolygonBoolean.PointInPolygon | 10/polygon_bool_algorithms.cpp:7-19 | the toggle loop returns the ray-crossing parity of the contour's edges, which is false for fewer than 3 points |
| Planar.RayParityRotate | 10/polygon_bool_algorithms.cpp:7-19 | the ray-crossing parity does not change when the vertex list is rotated cyclically |
| PolygonBoolean.PointInPolygonList | 10/polygon_bool_algorithms.cpp:21-28 | false when no contour contains the point; otherwise `!isHole` of the first contour that does |
| PolygonBoolSpec.SegmentsIntersect | 10/polygon_bool_algorithms.cpp:30-48 | no point when the cross of the directions is below 1e-12 in absolute value; a returned point has t and u in [0,1] and equals both a1 + t·d1 and b1 + u·d2 |
| Planar.LinesMeet | 10/polygon_bool_algorithms.cpp:36-43 | for non-parallel directions the two parametric points coincide, so the written point lies on both lines |
| PolygonBoolean.PolygonArea | 10/polygon_bool_algorithms.cpp:50-60 | the accumulation loop yields the shoelace area, which is 0 below 3 points |
| PolygonBoolSpec.AreaReverse | 10/polygon_bool_algorithms.cpp:50-60 | reversing the point list negates the area |
| PolygonBoolSpec.WindingFixed | 10/polygon_bool_algorithms.cpp:62-71 | fewer than 3 points stay unchanged; otherwise the list is kept or exactly reversed, as a permutation |
| PolygonBoolSpec.WindingCounterClockwise | 10/polygon_bool_algorithms.cpp:62-71 | with `clockwise` false the area becomes non-negative and a second call changes nothing |
| PolygonBoolSpec.WindingClockwiseFlipsFlatContour | 10/polygon_bool_algorithms.cpp:62-71 | with `clockwise` true a zero-area contour is reversed on every call, so the call is not idempotent |
| PolygonBoolean.EnsureWindingOrder | 10/polygon_bool_algorithms.cpp:62-71 | returns the contour with its points replaced by WindingFixed (kept, or exactly reversed) and its hole flag kept |
| PolygonBoolSpec.ContainsMeaning | 10/polygon_bool_algorithms.cpp:107-109 | the set lookup finds a point iff some stored point is `<`-equivalent to it |
| PolygonBoolSpec.InsertFacts | 10/polygon_bool_algorithms.cpp:107-109 | a guarded insert keeps the list as a prefix, adds at most the point itself at the end, makes it found, and keeps the list free of equivalent pairs |
| PolygonBoolSpec.PairCandidatesFacts | 10/polygon_bool_algorithms.cpp:102-141 | the intersection candidates are pairwise non-equivalent; each is a vertex inside the other contour or an edge-pair crossing; and every such vertex and crossing is found among them |
| PolygonBoolSpec.DiffCandidatesFacts | 10/polygon_bool_algorithms.cpp:179-218 | the difference candidates are pairwise non-equivalent; each is a vertex outside every subtrahend or a crossing with a subtrahend of at least 3 points; and every such point is found among them |
| PolygonBoolSpec.FinishFacts | 10/polygon_bool_algorithms.cpp:143-165 | a contour is emitted iff at least 3 candidates exist; it is a permutation of them, not a hole, with non-negative area and at least 3 points |
| PolygonBoolSpec.UnionAll | 10/polygon_bool_algorithms.cpp:82-91 | union emits one contour per input contour |
| PolygonBoolSpec.UnionProperties | 10/polygon_bool_algorithms.cpp:80-91 | union returns poly1's contours then poly2's, in order, each equal to its source or its reverse, not a hole, with non-negative area from 3 points up |
| PolygonBoolSpec.QualifyingFrom | 10/polygon_bool_algorithms.cpp:96-100 | the number of contours with at least 3 points never exceeds the number of contours |
| PolygonBoolSpec.IntersectionProperties | 10/polygon_bool_algorithms.cpp:93-170 | empty when either operand is empty; at most one contour per pair of qualifying contours; every output has at least 3 pairwise non-equivalent points and is not a hole |
| PolygonBoolSpec.DifferenceProperties | 10/polygon_bool_algorithms.cpp:172-246 | empty when poly1 is empty; poly1 unchanged when poly2 is empty; otherwise at most one well-formed contour per qualifying contour of poly1 |
| PolygonBoolean.CollectInside | 10/polygon_bool_algorithms.cpp:105-121 | the vertex loop leaves the candidate list the specification function describes |
| PolygonBoolean.CollectEdgeHits | 10/polygon_bool_algorithms.cpp:123-141 | the nested edge loops leave the candidate list the specification function describes |
| PolygonBoolean.IntersectRow | 10/polygon_bool_algorithms.cpp:99-166 | one pass over poly2 for a fixed contour1 appends what the specification function describes |
| PolygonBoolean.InsideAnyOf | 10/polygon_bool_algorithms.cpp:183-189 | the early-exit loop answers whether any subtrahend contains the point |
| PolygonBoolean.CollectOutside | 10/polygon_bool_algorithms.cpp:182-194 | the outside-vertex loop leaves the candidate list the specification function describes |
| PolygonBoolean.CollectDiffHits | 10/polygon_bool_algorithms.cpp:196-218 | the crossing loops leave the candidate list the specification function describes |
| PolygonBoolean.ComputeCenter | 10/polygon_bool_algorithms.cpp:145-151 | the summing loop gives the centroid of the candidates |
| PolygonBoolean.FinishContour | 10/polygon_bool_algorithms.cpp:143-165 | emits the sorted, winding-fixed contour exactly when the specification function does |
| PolygonBoolean.UnionOp | 10/polygon_bool_algorithms.cpp:82-91 | the union loops give the union specification |
| PolygonBoolean.IntersectionOp | 10/polygon_bool_algorithms.cpp:93-170 | the intersection loops give the intersection specification |
| PolygonBoolean.DifferenceOp | 10/polygon_bool_algorithms.cpp:172-246 | the difference loops give the difference specification |
| PolygonBoolean.BooleanOperation | 10/polygon_bool_algorithms.cpp:73-249 | the dispatcher returns the boolean result whose properties are proved above |
| DecimalDigits.LexLessIsNumeric | 3/main.cpp:84-88 | for digit strings of equal length, character order is numeric order, and equal value means equal strings |
| BigNumbers.Zero | 3/main.cpp:32 | the default number is the single digit "0", not negative |
| BigNumbers.IsZeroMeaning | 3/main.cpp:92-94 | `isZero` holds iff the digit value, and so the signed value, is 0 |
| BigNumbers.StripZeros | 3/main.cpp:21-29 | strips exactly the leading '0's, leaving a suffix that does not start with '0' |
| BigNumbers.RemoveLeadingZeros | 3/main.cpp:21-29 | the result is non-empty without a leading zero, zero is not negative, and for digit strings the value is kept and the sign is kept unless the value is 0 |
| BigNumbers.RemoveLeadingZerosIdempotent | 3/main.cpp:21-29 | normalising a normalised number changes nothing |
| BigNumbers.DeleteFirstDot | 3/main.cpp:44-49 | only the first '.' is deleted, when there is one |
| BigNumbers.FromString | 3/main.cpp:34-52 | the parsed number is normalised; it is negative iff the text starts with '-' and its value is not 0 |
| BigNumbers.FromStringOfDigits | 3/main.cpp:34-52 | for a signed digit text with at most one dot, the value is the digits' value, negated after a '-' |
| BigNumbers.FromStringToString | 3/main.cpp:56-72 | parsing what `toString` prints gives back the same number |
| BigNumbers.CompareFacts | 3/main.cpp:74-90 | `compare` returns only -1, 0 or 1, returns 0 iff sign and digits coincide, and is antisymmetric |
| BigNumbers.CompareIsNumeric | 3/main.cpp:74-90 | on normalised numbers `compare` agrees with signed numeric order in each of its three outcomes |
| BigNumbers.Compare | 3/main.cpp:74-90 | the digit loop computes the comparison the lemmas describe |
| BigNumberArith.PadLeft | 3/main.cpp:150-151 | padding with leading '0's reaches the target length and keeps the value and the original digits at the end |
| BigNumberArith.AddDigits | 3/main.cpp:153-164 | the carry loop yields a digit string whose value is the sum of the two equal-length operands |
| BigNumberArith.SubtractDigits | 3/main.cpp:116-131 | the borrow loop yields the difference of the two equal-length operands when the first is not smaller |
| BigNumberArith.SubtractMagnitudes | 3/main.cpp:105-137 | the magnitude is \|a−b\| and the result is negative iff a < b |
| BigNumberArith.Add | 3/main.cpp:140-171 | equal signs add magnitudes and keep the sign; mixed signs route through subtract; the signed value is that of the source's sign rule |
| BigNumberArith.Subtract | 3/main.cpp:96-138 | equal signs give \|a−b\| signed by the magnitude comparison alone; mixed signs route through add; the signed value is that of the source's sign rule |
| BigNumberArith.AsWrittenFacts | 3/main.cpp:96-171 | add is exact except when a negative meets a non-negative, and subtract is exact except for two negatives of different magnitude; otherwise the result has the right magnitude and the wrong sign |
| BigNumberArith.ProductRow | 3/main.cpp:181-188 | one row of the schoolbook loop keeps every cell a digit and adds digit i's share to the product held in the cells |
| BigNumberArith.ProductCells | 3/main.cpp:175-189 | the nested loops leave cells that hold the product of the two digit strings |
| BigNumberArith.CellDigits | 3/main.cpp:191-197 | skipping leading zero cells gives the digit string of the cells' value with no leading zero |
| BigNumberArith.Multiply | 3/main.cpp:173-203 | zero operands give non-negative "0"; otherwise the digits are the product of the magnitudes and the sign is the XOR of the signs; the signed value is the product |
| ExactPosition.Cleaned | 3/main.cpp:321-325 | the cleaned text keeps no parenthesis or white space |
| ExactPosition.CleanedKeeps | 3/main.cpp:321-325 | cleaning text that has nothing to drop changes nothing, and cleaning is idempotent |
| ExactPosition.JoinSplit | 3/main.cpp:327 | splitting on ',' and joining with ',' gives back the text |
| ExactPosition.UnsignedDecimalMeaning | 3/main.cpp:335-338 | the number pattern matches exactly a digit run, or digits, one '.', and a digit run |
| ExactPosition.NumberTextValue | 3/main.cpp:335-338 | a text the pattern accepts parses to a normalised number of the decimal value with the dot removed |
| ExactPosition.ParsePoint | 3/main.cpp:318-343 | an accepted text yields two coordinates that both match the number pattern |
| ExactPosition.ParsePointSound | 3/main.cpp:318-343 | an accepted text is non-empty and cleans to exactly "x,y" with no further comma |
| ExactPosition.ParsePointComplete | 3/main.cpp:318-343 | every non-empty text that cleans to "x,y" with two pattern-matching parts is accepted with those parts |
| ExactPosition.CrossTerm | 3/main.cpp:350-352 | the BigNumber cross term has the signed value that the source's subtract gives |
| ExactPosition.BoxTest | 3/main.cpp:354-365 | the BigNumber min/max test is membership in the segment's closed bounding box |
| ExactPosition.PositionClass | 3/main.cpp:345-376 | the classification is -1, 0 or 1: 0 for a zero cross term inside the box, 1 for zero outside it or a positive term, -1 for a negative term |
| ExactPosition.IntendedClass | 3/main.cpp:366-373 | the classification by the true cross product: 0 iff collinear and inside the box, -1 iff the true orientation is negative |
| ExactPosition.PositionOfNonNegative | 3/main.cpp:350-352 | for non-negative coordinates the widget's answer is the intended one, except when both terms are negative and differ, where it is the opposite |
| ExactPosition.BothTermsNegativeMisclassify | 3/main.cpp:350-352 | segment (2,0)-(0,1) and point (1,1): the true class is -1 but the widget computes 1 |
| ExactPosition.SegmentWidget.constructor | 3/main.cpp:210 | the widget starts with empty coordinate texts and result 0 |
| ExactPosition.SegmentWidget.CalculateExactPosition | 3/main.cpp:345-376 | sets `result` to the classification of the parsed coordinates and leaves the coordinate texts unchanged |
| IntSegments.IsValidMeaning | 1/main.cpp:164-168 | a segment is valid iff neither endpoint is (0,0); this is symmetric in the endpoints, and the default segment is not valid |
| IntSegments.Orientation | 1/main.cpp:206-211 | returns 0 iff the orientation value is 0, 1 iff it is positive (a clockwise turn), and 2 otherwise |
| IntSegments.OrientationSymmetries | 1/main.cpp:206-211 | rotating the three points keeps the orientation; swapping the first two flips 1 and 2 |
| IntSegments.OnSegmentMeaning | 1/main.cpp:198-204 | true iff the point lies in the closed bounding box of the endpoints; endpoints are on their segment; order-independent |
| IntSegments.IntersectSymmetric | 1/main.cpp:213-233 | the intersection decision is symmetric in the two segments |
| IntSegments.IntersectEndOrder | 1/main.cpp:213-233 | the decision does not depend on the order of either segment's endpoints |
| IntSegments.IntersectSharedEnd | 1/main.cpp:213-233 | every segment intersects itself, and segments sharing a first endpoint intersect |
| IntSegments.TruncDivFacts | 1/main.cpp:192-193 | the modelled C++ division is exact on multiples; its remainder is smaller than the divisor and takes the dividend's sign |
| IntSegments.IntersectionPoint | 1/main.cpp:170-196 | returns (0,0) when the segments do not intersect or the denominator is 0 |
| IntSegments.FormulaOnBothLines | 1/main.cpp:186-193 | the scaled line–line formula lies on both supporting lines |
| IntSegments.ExactPointOnBothLines | 1/main.cpp:170-196 | when the division is exact, the returned point lies on both supporting lines |
| IntSegments.IntersectionWidget.constructor | 1/main.cpp:18-20 | the widget starts with two default segments and no intersection point |
| IntSegments.IntersectionWidget.UpdateIntersection | 1/main.cpp:253-263 | the point list becomes the single intersection point when both segments are valid and the point is non-null, and is empty otherwise; the segments are unchanged |
| AlgoPolygons.AlgoPointAlgebra | 789/polygon_ops_algorithms.h:11-19 | +, − and scalar * act componentwise; cross is antisymmetric; dist2 is the non-negative self dot product; the default point is (0,0) |
| AlgoPolygons.AlgoPolygon.AddPoint | 789/polygon_ops_algorithms.h:26 | appends exactly the point and keeps the earlier points |
| AlgoPolygons.AlgoPolygon.Clear | 789/polygon_ops_algorithms.h:27 | leaves no points, so the polygon is empty |
| AlgoPolygons.AlgoPolygon.Empty | 789/polygon_ops_algorithms.h:28 | empty holds iff the size is 0 |
| AlgoPolygons.AlgoPolygon.Size | 789/polygon_ops_algorithms.h:29 | the size is the number of points |
| AlgoPolygons.Swap | 789/polygon_ops_algorithms.cpp:14 | the swap puts the chosen point first and permutes the list |
| AlgoPolygons.PivotSorted | 789/polygon_ops_algorithms.cpp:6-23 | the lowest point is moved to the front and the rest is permuted |
| AlgoPolygons.ConvexHullFacts | 789/polygon_ops_algorithms.cpp:3-44 | fewer than 3 points stay unchanged; otherwise the hull has 2 to n input points, starts at the least-(y, x) point and turns strictly left at every consecutive triple |
| AlgoPolygons.ConvexHullEmpty | 789/polygon_ops_algorithms.cpp:3-44 | the hull is empty iff the input is |
| AlgoPolygons.AlgoPolygon.ComputeConvexHull | 789/polygon_ops_algorithms.cpp:3-44 | replaces the points by the hull of the old points |
| LowestPoint.LowestFacts | 789/polygon_ops_algorithms.cpp:6-13 | the scan finds a least-(y, x) point, the first of its kind |
| LowestPoint.LowestIndex | 789/polygon_ops_algorithms.cpp:6-13 | the index loop returns that least-(y, x) point's index |
| GrahamStack.PopWhile | 789/polygon_ops_algorithms.cpp:29-33 | popping keeps a prefix of the stack, never empties it, and stops at a strict left turn towards the new point |
| GrahamStack.PushFacts | 789/polygon_ops_algorithms.cpp:29-35 | pop-then-push keeps the left-turn invariant and the bottom point, with 2 to size+1 points |
| GrahamStack.ScanFacts | 789/polygon_ops_algorithms.cpp:25-44 | the scan keeps the bottom point, strict left turns throughout, and 2 to n points |
| GrahamStack.ScanProvenance | 789/polygon_ops_algorithms.cpp:25-44 | every stacked point comes from the input |
| GrahamStack.StackScan | 789/polygon_ops_algorithms.cpp:25-44 | the push/pop loop computes the scan the lemmas describe |
| PolygonOps.LineSegmentIntersection | 789/polygon_ops_algorithms.cpp:155-171 | no point when the cross of the directions is below 1e-9; otherwise a point iff t and u lie in [0,1], equal to a1 + d1·t and b1 + d2·u |
| PolygonOps.IsPointInsidePolygon | 789/polygon_ops_algorithms.cpp:141-153 | the toggle loop returns the ray-crossing parity |
| PolygonOps.InsideNeedsThreeVertices | 789/polygon_ops_algorithms.cpp:141-153 | no point is inside a polygon of fewer than 3 vertices |
| PolygonOps.KeptMeaning | 789/polygon_ops_algorithms.cpp:64-74 | a point is kept iff it is a vertex whose inside-ness matches what the loop keeps |
| PolygonOps.EdgeHitsComplete | 789/polygon_ops_algorithms.cpp:76-87 | the edge loops collect exactly the crossings of some edge pair |
| PolygonOps.CandidatesMeaning | 789/polygon_ops_algorithms.cpp:59-139 | a point is an intersection candidate iff it is a vertex inside the other polygon or an edge crossing; a difference candidate iff it is a vertex of poly1 outside poly2 or a crossing |
| PolygonOps.FinishFacts | 789/polygon_ops_algorithms.cpp:89-91 | an empty collection is returned un-hulled; the hull draws only collected points, and from 3 points it turns left and starts at the lowest point |
| PolygonOps.UnionFacts | 789/polygon_ops_algorithms.cpp:95-109 | union is empty iff both inputs are, and uses only their points |
| PolygonOps.IntersectionDifferenceFacts | 789/polygon_ops_algorithms.cpp:59-139 | every intersection or difference output point is a candidate of the matching kind |
| PolygonOps.CollectVertices | 789/polygon_ops_algorithms.cpp:64-74 | the vertex loop appends exactly the kept vertices to the result polygon |
| PolygonOps.CollectEdgeHits | 789/polygon_ops_algorithms.cpp:76-87 | the nested edge loops append exactly the crossings |
| PolygonOps.ComputeIntersection | 789/polygon_ops_algorithms.cpp:59-93 | returns a fresh polygon holding the finished intersection candidates |
| PolygonOps.ComputeUnion | 789/polygon_ops_algorithms.cpp:95-109 | returns a fresh polygon holding the hull of all points of both polygons, in order |
| PolygonOps.ComputeDifference | 789/polygon_ops_algorithms.cpp:111-139 | returns a fresh polygon holding the finished difference candidates |
| PolygonOps.ComputeOperation | 789/polygon_ops_algorithms.cpp:47-57 | dispatches each operation to its own routine |
| PointInHull.CrossAt | 11/point_in_hull_algorithms.cpp:3-5 | `cross(a,b,c)` is the turn of c relative to the directed line ab |
| PointInHull.CrossAtSymmetries | 11/point_in_hull_algorithms.cpp:3-5 | swapping b and c negates the cross; rotating the points keeps it |
| PointInHull.ProjectionParam | 11/point_in_hull_algorithms.cpp:15 | the clamped projection parameter lies in [0,1] |
| PointInHull.PointToSegmentDistance2 | 11/point_in_hull_algorithms.cpp:11-18 | the squared distance is non-negative, and for a zero-length segment it is the distance to a |
| PointInHull.MeasuredOnSegment | 11/point_in_hull_algorithms.cpp:11-18 | the distance is measured to a point of the segment |
| PointInHull.NearestOnSegment | 11/point_in_hull_algorithms.cpp:11-18 | no point of the segment is closer than the measured one |
| PointInHull.DegenerateSegment | 11/point_in_hull_algorithms.cpp:12-13 | a zero-length segment measures the distance to its endpoint |
| PointInHull.MinDistMeaning | 11/point_in_hull_algorithms.cpp:23-31 | after k edges the minimum is present iff k > 0, is at most every edge distance, and is attained by one |
| PointInHull.CheckMeaning | 11/point_in_hull_algorithms.cpp:20-42 | returns 0, 1 or 2; 0 below 3 vertices; 2 iff some edge is closer than 3; 1 iff no edge is that close and the ray parity says inside |
| PointInHull.CheckPoint | 11/point_in_hull_algorithms.cpp:20-42 | the two loops compute that classification |
| PointInHull.SortedForHull | 11/point_in_hull_algorithms.cpp:47-58 | the two sorts give a permutation that starts with the first point of the (y, x) sort |
| PointInHull.SortedFirstIsLowest | 11/point_in_hull_algorithms.cpp:48-51 | the first point of the (y, x) sort is a least-(y, x) input point |
| PointInHull.HullFacts | 11/point_in_hull_algorithms.cpp:44-77 | fewer than 3 points are returned unchanged; otherwise 2 to n input points, starting at the lowest, turning strictly left throughout |
| PointInHull.Compute | 11/point_in_hull_algorithms.cpp:44-77 | the sort-and-stack code computes that hull |
| GiftWrap.Orientation | 5/convex_hull_algorithms.cpp:3-7 | 0 iff the cross value is 0, 1 iff the turn is clockwise, 2 iff counter-clockwise |
| GiftWrap.OrientationSwap | 5/convex_hull_algorithms.cpp:3-7 | swapping the last two points exchanges 1 and 2 and keeps 0 |
| GiftWrap.SuccessorFacts | 5/convex_hull_algorithms.cpp:29-34 | the chosen successor is a valid index with no later candidate counter-clockwise of it |
| GiftWrap.NextIndex | 5/convex_hull_algorithms.cpp:29-34 | the candidate loop returns that successor |
| GiftWrap.Walk | 5/convex_hull_algorithms.cpp:24-38 | a finished walk lists only valid indices |
| GiftWrap.WalkFacts | 5/convex_hull_algorithms.cpp:24-38 | a finished walk emits one index per step, each the successor of the one before, and stops exactly when the start comes back |
| GiftWrap.NoRepeats | 5/convex_hull_algorithms.cpp:24-38 | a finished walk never repeats an index, so it has at most n points |
| GiftWrap.EnoughFuel | 5/convex_hull_algorithms.cpp:24-38 | a fuel bound of n steps decides the walk for every larger bound |
| GiftWrap.HullIndicesFacts | 5/convex_hull_algorithms.cpp:9-38 | no indices below 3 points; otherwise a closed successor chain from the lowest point with distinct indices |
| GiftWrap.GiftWrapFacts | 5/convex_hull_algorithms.cpp:9-46 | empty output below 3 points; otherwise 1 to n input points, starting at the least-(y, x) point |
| GiftWrap.FewPoints | 5/convex_hull_algorithms.cpp:10-12 | fewer than 3 points give the empty hull |
| GiftWrap.WalkIndices | 5/convex_hull_algorithms.cpp:24-38 | the do-while loop computes the walk |
| GiftWrap.ComputeGrahamScan | 5/convex_hull_algorithms.cpp:9-46 | the whole routine computes the gift-wrapping hull |
| Delaunay.MakeEdge | 6/delaunay_algorithms.h:25 | the edge stores its two indices, smaller first |
| Delaunay.EdgeEquality | 6/delaunay_algorithms.h:25-28 | edges are equal iff they join the same two indices, in either order |
| Delaunay.EdgeOrder | 6/delaunay_algorithms.h:29-32 | edge `<` is a strict lexicographic order on (p1, p2), consistent with `==` |
| Delaunay.TriangleRotation | 6/delaunay_algorithms.h:18-20 | a rotated triangle is equal only when all three indices coincide |
| Delaunay.DenominatorIsTurn | 6/delaunay_algorithms.cpp:4-6 | d is twice the turn of the three corners |
| Delaunay.CircumcentreEquidistant | 6/delaunay_algorithms.cpp:8-16 | for a non-degenerate triangle the centre is equally far from all three corners |
| Delaunay.CircumcircleMeaning | 6/delaunay_algorithms.cpp:3-24 | p is in the circle iff it is no farther from the centre than any corner, and the corners themselves are in it |
| Delaunay.CircumcircleRotation | 6/delaunay_algorithms.cpp:3-24 | rotating the corners keeps d, the centre and the answer |
| DelaunayBuild.BoxFacts | 6/delaunay_algorithms.cpp:33-41 | the min/max box encloses every point and each bound is attained |
| DelaunayBuild.BoundingBox | 6/delaunay_algorithms.cpp:33-41 | the min/max loop computes that box |
| DelaunayBuild.SuperVertices | 6/delaunay_algorithms.cpp:43-59 | the three super-triangle corners, computed from the box's midpoint and its largest side; SuperTriangleEncloses states what they enclose |
| DelaunayBuild.SuperTriangleEncloses | 6/delaunay_algorithms.cpp:43-59 | every point of the box is strictly inside the super-triangle |
| DelaunayBuild.FlaggedMeaning | 6/delaunay_algorithms.cpp:65-76 | a triangle is flagged iff it is listed and its circumcircle holds the new point |
| DelaunayBuild.FindBadTriangles | 6/delaunay_algorithms.cpp:65-76 | the loop collects the flagged triangles in order, and their three edges each |
| DelaunayBuild.WithoutMeaning | 6/delaunay_algorithms.cpp:78-83 | after removal a triangle remains iff it was listed and not flagged; equal copies go too |
| DelaunayBuild.RemoveTriangles | 6/delaunay_algorithms.cpp:78-83 | the erase loop removes every flagged triangle |
| DelaunayBuild.CountOf | 6/delaunay_algorithms.cpp:87 | the count is the edge's multiplicity |
| DelaunayBuild.UniqueEdgesMeaning | 6/delaunay_algorithms.cpp:85-91 | an edge is kept iff it occurs exactly once, and then once |
| DelaunayBuild.CollectUniqueEdges | 6/delaunay_algorithms.cpp:85-91 | the counting loop keeps those edges |
| DelaunayBuild.Fan | 6/delaunay_algorithms.cpp:93-95 | each kept edge contributes the triangle (p1, p2, i) |
| DelaunayBuild.AddFan | 6/delaunay_algorithms.cpp:93-95 | the loop appends those triangles |
| DelaunayBuild.InsertStepMeaning | 6/delaunay_algorithms.cpp:62-95 | after a step a triangle is listed iff it was listed and not flagged, or it joins the new point to an edge that occurs once among the flagged triangles |
| DelaunayBuild.InsertStepBelow | 6/delaunay_algorithms.cpp:49-95 | every index stays below n+3 |
| DelaunayBuild.InsertPoint | 6/delaunay_algorithms.cpp:62-95 | one pass of the outer loop is that insertion step |
| DelaunayBuild.InsertAll | 6/delaunay_algorithms.cpp:61-96 | the outer loop applies the step for each input point, keeping indices below n+3 |
| DelaunayBuild.InputOnly | 6/delaunay_algorithms.cpp:98-103 | keeps exactly the triangles whose indices are all below n |
| DelaunayBuild.KeepInputTriangles | 6/delaunay_algorithms.cpp:98-103 | the filter loop keeps them, in order |
| DelaunayBuild.DelaunayResultBelow | 6/delaunay_algorithms.cpp:26-106 | fewer than 3 points give no triangles; every result index is below n |
| DelaunayBuild.ComputeDelaunay | 6/delaunay_algorithms.cpp:26-106 | the whole routine computes the triangulation specification |
| Bezier.Pascal | 13/bezier_algorithms.cpp:3-12 | Pascal's rule for the binomial coefficient |
| Bezier.ChooseSymmetric | 13/bezier_algorithms.cpp:3-12 | C(n,k) = C(n,n−k) |
| Bezier.ProductStep | 13/bezier_algorithms.cpp:9 | one step of the product loop turns C(m−1,i−1) into C(m,i) |
| Bezier.BinomialCoefficient | 13/bezier_algorithms.cpp:3-12 | returns C(n,k): 0 outside 0..n, 1 at either end, and the product loop in between |
| Bezier.BezierPoint | 13/bezier_algorithms.cpp:14-25 | the accumulation loop gives the Bernstein sum over all control points |
| Bezier.CurveEndpoints | 13/bezier_algorithms.cpp:14-25 | the curve starts at the first control point and ends at the last |
| Bezier.SamplesShape | 13/bezier_algorithms.cpp:30-37 | segments+1 samples, the i-th at i/segments, from the first to the last control point; none for negative segments |
| Bezier.SampleCurve | 13/bezier_algorithms.cpp:30-37 | the sampling loop produces those samples |
| Bezier.ComputeBezierQuadratic | 13/bezier_algorithms.cpp:27-38 | nothing below 3 points, otherwise the samples over all points |
| Bezier.ComputeBezierCubic | 13/bezier_algorithms.cpp:40-51 | nothing below 4 points, otherwise the samples over all points |
| Bezier.ComputeBezierNthOrder | 13/bezier_algorithms.cpp:53-64 | nothing when the unsigned size guard holds, otherwise the samples over all points whatever the order |

## Left out

- IntSegments.Orientation: coordinates and products are unbounded integers. The 32-bit `int` overflow of the orientation value is not modelled.
- IntSegments.IntersectionPoint: likewise unbounded. The 32-bit overflow of the numerators and the denominator (1/main.cpp:186-193) is not modelled. The C++ truncating division is modelled.
- PolygonBoolSpec.Contains: the `std::set<BoolPoint>` lookup is a linear scan under the `<`-equivalence (x within 1e-9, y identical). The balanced tree is not modelled. Because that comparator is not a strict weak order, the real tree may answer differently from a scan.
- PolygonBoolSpec.Insert: appends under the same linear scan. The tree insertion is not modelled.
- PolygonBoolSpec.Finish: the `atan2` angular sort (10/polygon_bool_algorithms.cpp:153-158, 230-235) is a parameter that is only known to permute its input.
- AlgoPolygons.PivotSorted: the epsilon cross/distance sort (789/polygon_ops_algorithms.cpp:17-23) is a parameter that is only known to permute its input.
- PointInHull.SortedForHull: the (y, x) sort and the `atan2` sort (11/point_in_hull_algorithms.cpp:48-58) are parameters. One only permutes its input and puts a least-(y, x) point first; the other only permutes.
- GiftWrap.Walk: the do-while loop has no termination guarantee. The model walks with a fuel bound and returns None if the walk has not closed in time. GiftWrap.EnoughFuel shows that n steps settle it.
- Bezier.SampleCurve: requires `segments != 0`. With 0 the source computes 0/0 and emits one NaN sample; the model has no NaN. The same precondition is on Bezier.SamplesShape, Bezier.ComputeBezierQuadratic, Bezier.ComputeBezierCubic and Bezier.ComputeBezierNthOrder.
- DelaunayBuild.Flags: a triangle with collinear corners (d == 0) is never flagged. In the source the division by zero decides. (0,0),(1,1),(2,2) gives infinities, and `inf <= inf` flags the triangle. (0,0),(1,0),(2,0) gives NaN and is not flagged.
- ExactPosition.Cleaned: drops '(', ')', the ASCII space and the ASCII control white space. `trimmed`/`simplified` (3/main.cpp:321-325) also remove Unicode white space, which is not modelled.
- Floating point: every `double` is an exact `real`. The 1e-9 and 1e-12 tolerance tests are exact comparisons. `binomialCoefficient`'s division is exact. The super-triangle is exact. Rounding, overflow and NaN are not modelled.
- PolygonBoolean.EnsureWindingOrder: takes a contour and returns the normalised one. The source reverses the contour's points in place through a reference (10/polygon_bool_algorithms.cpp:62-71), so aliasing of that reference is not modelled.
- PointInHull.PointToSegmentDistance2: compares squared distances. `sqrt`, `hypot` and the threshold 3 become squared quantities and 9, which is equivalent for non-negative values.
- PointInHull.MinDistMeaning: the initial `DBL_MAX` of `minDist` is modelled as "no distance yet" (None).
- BigNumberArith.Multiply: requires normalised operands, as every BigNumber the constructors build is. An operand with leading zeros, which only direct field writes could make, is not covered.
- BigNumberArith.Add: requires the digit fields to hold digits only. The source does not check this.
- BigNumberArith.Subtract: requires the digit fields to hold digits only, as for Add.
- Bezier.ComputeBezierNthOrder: the `size_t` conversion in the guard is modelled as "a negative order + 1 makes the guard hold". The wrap to a huge value is otherwise not modelled.
- Qt user interface: widgets, layouts, `paintEvent`, mouse and key handlers, message boxes and `main` are not modelled.
- The `setSegmentFromText`, `setPointFromText` and `clearAll` slots of 3/main.cpp are not modelled. They only copy parsed text into the widget's fields. ExactPosition.ParsePoint and the precondition Parsed() of ExactPosition.SegmentWidget.CalculateExactPosition cover what they establish.
- The folder-1 mouse slots, `findClosestPoint` and `toggleInteractiveMode` are user-interface code and are not modelled.
- 2/main.cpp, a pixel-tolerance classifier with `sqrt` inside a mouse handler, is not part of this model.
- The sphere widget of folder 15 is not part of this model: it is floating-point trigonometry.
- Some loops are split into helper methods (a row of the multiplication, one Delaunay insertion, one pass of an intersection row). The order of the work is unchanged.

## Findings

| source | as written | input that shows it | evidently intended | confidence | as-written member | corrected member |
|---|---|---|---|---|---|---|
| 3/main.cpp:96-135 and 3/main.cpp:350-352 | `subtract` of two negative numbers takes its sign from the magnitude comparison alone, so the cross term `term1 - term2` gets the wrong sign when both terms are negative and differ | segment (2,0)-(0,1), point (1,1): term1 = -2 and term2 = -1, `subtract` yields +1, so the widget shows 1 while the true cross product is -1 | the classification by the sign of the true cross product | not executed | ExactPosition.PositionClass, ExactPosition.BothTermsNegativeMisclassify | ExactPosition.IntendedClass, ExactPosition.PositionOfNonNegative |
