/** The exact orientation widget: point text validated by `parsePoint`,
    turned into BigNumbers, and the side of the segment the point lies on
    computed with BigNumber subtract, multiply and compare. */
module ExactPosition {
  import opened DecimalDigits
  import opened BigNumbers
  import opened BigNumberArith
  import Planar

  // ---------------------------------------------------------------------
  // Cleaning and splitting the text

  /** Characters `parsePoint` throws away: the parentheses, and white space
      (which `simplified` collapses and the blank replacement removes). */
  predicate Dropped(c: char)
  {
    c == '(' || c == ')' || c == ' ' || ('\t' <= c <= '\r')
  }

  /** The text with every dropped character removed, order kept. */
  function Cleaned(s: seq<char>): (r: seq<char>)
    ensures |r| <= |s|
    ensures forall i :: 0 <= i < |r| ==> !Dropped(r[i])
  {
    if s == [] then []
    else (if Dropped(s[0]) then [] else [s[0]]) + Cleaned(s[1..])
  }

  /** Cleaning keeps text that has nothing to drop, and is idempotent. */
  lemma {:induction false} CleanedKeeps(s: seq<char>)
    ensures (forall i :: 0 <= i < |s| ==> !Dropped(s[i])) ==> Cleaned(s) == s
    ensures Cleaned(Cleaned(s)) == Cleaned(s)
  {
    if s != [] {
      CleanedKeeps(s[1..]);
      CleanedAppend(if Dropped(s[0]) then [] else [s[0]], Cleaned(s[1..]));
    }
  }

  lemma {:induction false} CleanedAppend(s: seq<char>, t: seq<char>)
    ensures Cleaned(s + t) == Cleaned(s) + Cleaned(t)
  {
    if s == [] {
      assert s + t == t;
    } else {
      assert (s + t)[1..] == s[1..] + t;
      CleanedAppend(s[1..], t);
    }
  }

  /** `QString::split(',')`: the pieces between the commas, empty pieces
      kept; always at least one piece. */
  function Split(s: seq<char>): (parts: seq<seq<char>>)
    ensures |parts| >= 1
    ensures forall k :: 0 <= k < |parts| ==> ',' !in parts[k]
  {
    if s == [] then [[]]
    else
      var rest := Split(s[1..]);
      if s[0] == ',' then [[]] + rest
      else [[s[0]] + rest[0]] + rest[1..]
  }

  /** The pieces joined back with commas. */
  function Join(parts: seq<seq<char>>): seq<char>
    requires |parts| >= 1
  {
    if |parts| == 1 then parts[0] else parts[0] + [','] + Join(parts[1..])
  }

  /** Joining the pieces gives back the text. */
  lemma {:induction false} JoinSplit(s: seq<char>)
    ensures Join(Split(s)) == s
  {
    if s != [] {
      var rest := Split(s[1..]);
      JoinSplit(s[1..]);
      if s[0] == ',' {
        assert ([[]] + rest)[1..] == rest;
      } else {
        var parts := [[s[0]] + rest[0]] + rest[1..];
        if |rest| > 1 {
          assert parts[1..] == rest[1..];
          assert Join(rest) == rest[0] + [','] + Join(rest[1..]);
        }
      }
    }
  }

  /** Splitting text with no comma gives the text itself. */
  lemma {:induction false} SplitNoComma(s: seq<char>)
    requires ',' !in s
    ensures Split(s) == [s]
  {
    if s != [] {
      assert ',' !in s[1..];
      SplitNoComma(s[1..]);
      assert [s[0]] + s[1..] == s;
    }
  }

  /** Splitting x,rest with no comma in x gives x then the pieces of rest. */
  lemma {:induction false} SplitAfter(x: seq<char>, rest: seq<char>)
    requires ',' !in x
    ensures Split(x + [','] + rest) == [x] + Split(rest)
  {
    if x == [] {
      assert ([] + [','] + rest)[1..] == rest;
    } else {
      assert (x + [','] + rest)[1..] == x[1..] + [','] + rest;
      assert ',' !in x[1..];
      SplitAfter(x[1..], rest);
      assert [x[0]] + x[1..] == x;
    }
  }

  // ---------------------------------------------------------------------
  // The number pattern -?\d*\.?\d+

  /** \d+ */
  predicate DigitRun(u: seq<char>)
  {
    |u| >= 1 && IsDigits(u)
  }

  /** \d*\.?\d+, matched from the front. */
  predicate UnsignedDecimal(u: seq<char>)
  {
    u != [] &&
    if u[0] == '.' then DigitRun(u[1..])
    else IsDigit(u[0]) && (DigitRun(u) || UnsignedDecimal(u[1..]))
  }

  /** The whole pattern: an optional minus sign, then \d*\.?\d+. */
  predicate NumberText(s: seq<char>)
  {
    UnsignedDecimal(Unsigned(s))
  }

  /** The integer a coordinate text stands for once the constructor has
      read it: its digits with the dot deleted, negated after a minus. */
  function TextValue(s: seq<char>): int
  {
    if HasMinus(s) then -Nat(DeleteFirstDot(Unsigned(s))) else Nat(DeleteFirstDot(Unsigned(s)))
  }

  /** u is digits, a dot at k, and at least one digit after it. */
  predicate DotSplitAt(u: seq<char>, k: int)
  {
    0 <= k < |u| && u[k] == '.' && IsDigits(u[..k]) && DigitRun(u[k + 1..])
  }

  /** A match of the pattern is a digit run or splits at a dot. */
  lemma {:induction false} UnsignedDecimalSplits(u: seq<char>)
    requires UnsignedDecimal(u)
    ensures DigitRun(u) || exists k :: DotSplitAt(u, k)
  {
    if u[0] == '.' {
      assert u[..0] == [];
      assert DotSplitAt(u, 0);
    } else if !DigitRun(u) {
      UnsignedDecimalSplits(u[1..]);
      var k :| DotSplitAt(u[1..], k);
      assert u[..k + 1] == [u[0]] + u[1..][..k] && u[k + 2..] == u[1..][k + 1..];
      assert DotSplitAt(u, k + 1);
    }
  }

  /** Digits, a dot and a digit run match the pattern. */
  lemma {:induction false} DotSplitMatches(u: seq<char>, k: int)
    requires DotSplitAt(u, k)
    ensures UnsignedDecimal(u)
    decreases k
  {
    if k > 0 {
      assert u[0] == u[..k][0];
      assert u[1..][..k - 1] == u[1..k] && u[1..][k..] == u[k + 1..];
      assert DotSplitAt(u[1..], k - 1);
      DotSplitMatches(u[1..], k - 1);
    }
  }

  /** \d*\.?\d+ read declaratively: digits alone, or digits, one dot and at
      least one digit. */
  lemma UnsignedDecimalMeaning(u: seq<char>)
    ensures UnsignedDecimal(u) <==>
      DigitRun(u) ||
      exists k :: 0 <= k < |u| && u[k] == '.' && IsDigits(u[..k]) && DigitRun(u[k + 1..])
  {
    if UnsignedDecimal(u) {
      UnsignedDecimalSplits(u);
    }
    if k :| 0 <= k < |u| && u[k] == '.' && IsDigits(u[..k]) && DigitRun(u[k + 1..]) {
      DotSplitMatches(u, k);
    }
  }

  /** Matched text, with its sign and dot taken away, is a digit string
      with at least one digit. */
  lemma {:induction false} UnsignedDecimalDigits(u: seq<char>)
    requires UnsignedDecimal(u)
    ensures IsDigits(DeleteFirstDot(u)) && |DeleteFirstDot(u)| >= 1
  {
    if u[0] != '.' && !DigitRun(u) {
      UnsignedDecimalDigits(u[1..]);
      assert DeleteFirstDot(u) == [u[0]] + DeleteFirstDot(u[1..]);
    } else if u[0] != '.' {
      assert '.' !in u;
    }
  }

  /** A coordinate that matches the pattern makes a valid BigNumber whose
      value is the digits with the dot taken away, negated after a minus. */
  lemma NumberTextValue(s: seq<char>)
    requires NumberText(s)
    ensures Valid(FromString(s))
    ensures SignedValue(FromString(s)) == TextValue(s)
  {
    UnsignedDecimalDigits(Unsigned(s));
    FromStringOfDigits(s);
  }

  // ---------------------------------------------------------------------
  // parsePoint

  /** The two coordinate texts `parsePoint` writes back. */
  datatype PointText = PointText(x: seq<char>, y: seq<char>)

  /** `parsePoint`: fails on empty text; otherwise the cleaned text must
      split at commas into exactly two pieces, each matching the number
      pattern. */
  function ParsePoint(text: seq<char>): (r: Planar.Option<PointText>)
    ensures r.Some? ==> NumberText(r.value.x) && NumberText(r.value.y)
  {
    if text == [] then Planar.None
    else
      var parts := Split(Cleaned(text));
      if |parts| != 2 then Planar.None
      else if NumberText(parts[0]) && NumberText(parts[1]) then Planar.Some(PointText(parts[0], parts[1]))
      else Planar.None
  }

  /** A successful parse: the text was not empty, and its cleaned form is
      the two coordinates joined by the only comma. */
  lemma ParsePointSound(text: seq<char>)
    requires ParsePoint(text).Some?
    ensures var p := ParsePoint(text).value;
      text != [] && Cleaned(text) == p.x + [','] + p.y && ',' !in p.x && ',' !in p.y
  {
    var parts := Split(Cleaned(text));
    JoinSplit(Cleaned(text));
    assert parts[1..] == [parts[1]];
  }

  /** Every text whose cleaned form is two matching coordinates around one
      comma parses to those coordinates. */
  lemma ParsePointComplete(text: seq<char>, x: seq<char>, y: seq<char>)
    requires text != [] && Cleaned(text) == x + [','] + y && ',' !in x && ',' !in y
    requires NumberText(x) && NumberText(y)
    ensures ParsePoint(text) == Planar.Some(PointText(x, y))
  {
    SplitAfter(x, y);
    SplitNoComma(y);
  }

  // ---------------------------------------------------------------------
  // calculateExactPosition

  /** The bounding-box test of the collinear case. */
  predicate InBox(x1: int, y1: int, x2: int, y2: int, xp: int, yp: int)
  {
    (if x1 <= x2 then x1 else x2) <= xp <= (if x1 <= x2 then x2 else x1) &&
    (if y1 <= y2 then y1 else y2) <= yp <= (if y1 <= y2 then y2 else y1)
  }

  /** The class `calculateExactPosition` computes from the six values, with
      subtract as written: 0 for a zero cross term inside the box, 1 for a
      zero cross term outside it or a positive one, -1 for a negative one. */
  function PositionClass(x1: int, y1: int, x2: int, y2: int, xp: int, yp: int): (c: int)
    ensures c in {-1, 0, 1}
  {
    var cross := CrossAsWritten(x1, y1, x2, y2, xp, yp);
    if cross == 0 then (if InBox(x1, y1, x2, y2, xp, yp) then 0 else 1)
    else if cross > 0 then 1 else -1
  }

  /** The cross term as the widget computes it: the products are exact,
      each difference is `subtract` as written. */
  function CrossAsWritten(x1: int, y1: int, x2: int, y2: int, xp: int, yp: int): int
  {
    SubtractAsWritten(SubtractAsWritten(x2, x1) * SubtractAsWritten(yp, y1),
                      SubtractAsWritten(y2, y1) * SubtractAsWritten(xp, x1))
  }

  /** (B - A) x (P - A), the orientation the widget sets out to report. */
  function Orientation(x1: int, y1: int, x2: int, y2: int, xp: int, yp: int): int
  {
    (x2 - x1) * (yp - y1) - (y2 - y1) * (xp - x1)
  }

  /** The class with true subtraction: the sign of the orientation, and 0
      or 1 for collinear points inside or outside the box. */
  function IntendedClass(x1: int, y1: int, x2: int, y2: int, xp: int, yp: int): (c: int)
    ensures c == 0 <==> Orientation(x1, y1, x2, y2, xp, yp) == 0 && InBox(x1, y1, x2, y2, xp, yp)
    ensures c == -1 <==> Orientation(x1, y1, x2, y2, xp, yp) < 0
  {
    var cross := Orientation(x1, y1, x2, y2, xp, yp);
    if cross == 0 then (if InBox(x1, y1, x2, y2, xp, yp) then 0 else 1)
    else if cross > 0 then 1 else -1
  }

  /** With non-negative coordinates every coordinate difference is exact;
      the class is the intended one unless both cross terms are negative,
      and then (for a non-zero cross term) it is the opposite one. */
  lemma PositionOfNonNegative(x1: int, y1: int, x2: int, y2: int, xp: int, yp: int)
    requires 0 <= x1 && 0 <= y1 && 0 <= x2 && 0 <= y2 && 0 <= xp && 0 <= yp
    ensures var t1 := (x2 - x1) * (yp - y1);
            var t2 := (y2 - y1) * (xp - x1);
            PositionClass(x1, y1, x2, y2, xp, yp) ==
              if t1 < 0 && t2 < 0 && t1 != t2 then -IntendedClass(x1, y1, x2, y2, xp, yp)
              else IntendedClass(x1, y1, x2, y2, xp, yp)
  {
    AsWrittenFacts(x2, x1);
    AsWrittenFacts(yp, y1);
    AsWrittenFacts(y2, y1);
    AsWrittenFacts(xp, x1);
    AsWrittenFacts((x2 - x1) * (yp - y1), (y2 - y1) * (xp - x1));
  }

  /** The segment from (2,0) to (0,1) and the point (1,1): the orientation
      is -1, so the point is on the negative side, but both cross terms
      are negative and subtract negates their difference: the widget
      reports 1. */
  lemma BothTermsNegativeMisclassify()
    ensures Orientation(2, 0, 0, 1, 1, 1) == -1
    ensures IntendedClass(2, 0, 0, 1, 1, 1) == -1
    ensures PositionClass(2, 0, 0, 1, 1, 1) == 1
  {
  }

  /** The cross term of `calculateExactPosition`:
      (x2 - x1)(yp - y1) - (y2 - y1)(xp - x1), each `-` being `subtract` as
      written and each product `multiply`. */
  method CrossTerm(x1: BigNumber, y1: BigNumber, x2: BigNumber, y2: BigNumber, xp: BigNumber, yp: BigNumber)
    returns (cross: BigNumber)
    requires Valid(x1) && Valid(y1) && Valid(x2) && Valid(y2) && Valid(xp) && Valid(yp)
    ensures Valid(cross)
    ensures SignedValue(cross) == CrossAsWritten(SignedValue(x1), SignedValue(y1), SignedValue(x2),
                                                 SignedValue(y2), SignedValue(xp), SignedValue(yp))
  {
    var dx := Subtract(x2, x1);
    var dyp := Subtract(yp, y1);
    var term1 := Multiply(dx, dyp);
    var dy := Subtract(y2, y1);
    var dxp := Subtract(xp, x1);
    var term2 := Multiply(dy, dxp);
    cross := Subtract(term1, term2);
  }

  /** `BigNumber(text.c_str())` on a coordinate text that matched the
      number pattern. */
  method ParsedCoordinate(text: seq<char>) returns (n: BigNumber)
    requires NumberText(text)
    ensures Valid(n) && SignedValue(n) == TextValue(text)
  {
    NumberTextValue(text);
    n := FromString(text);
  }

  /** The collinear case of `calculateExactPosition`: the box corners
      chosen by compare, and the point compared with each. */
  method BoxTest(x1: BigNumber, y1: BigNumber, x2: BigNumber, y2: BigNumber, xp: BigNumber, yp: BigNumber)
    returns (inside: bool)
    requires Valid(x1) && Valid(y1) && Valid(x2) && Valid(y2) && Valid(xp) && Valid(yp)
    ensures inside == InBox(SignedValue(x1), SignedValue(y1), SignedValue(x2), SignedValue(y2),
                            SignedValue(xp), SignedValue(yp))
  {
    var cx := Compare(x1, x2);
    var cy := Compare(y1, y2);
    CompareIsNumeric(x1, x2);
    CompareIsNumeric(y1, y2);
    var minX := if cx <= 0 then x1 else x2;
    var maxX := if cx <= 0 then x2 else x1;
    var minY := if cy <= 0 then y1 else y2;
    var maxY := if cy <= 0 then y2 else y1;
    var c1 := Compare(xp, minX);
    var c2 := Compare(xp, maxX);
    var c3 := Compare(yp, minY);
    var c4 := Compare(yp, maxY);
    CompareIsNumeric(xp, minX);
    CompareIsNumeric(xp, maxX);
    CompareIsNumeric(yp, minY);
    CompareIsNumeric(yp, maxY);
    inside := c1 >= 0 && c2 <= 0 && c3 >= 0 && c4 <= 0;
  }

  /** The widget: six coordinate texts as `parsePoint` left them, and the
      integer it shows. */
  class SegmentWidget {
    var segAx: seq<char>
    var segAy: seq<char>
    var segBx: seq<char>
    var segBy: seq<char>
    var pointX: seq<char>
    var pointY: seq<char>
    var result: int

    /** The widget starts with no coordinates and shows 0. */
    constructor ()
      ensures segAx == [] && segAy == [] && segBx == [] && segBy == []
      ensures pointX == [] && pointY == [] && result == 0
    {
      segAx, segAy, segBx, segBy := [], [], [], [];
      pointX, pointY := [], [];
      result := 0;
    }

    /** Every coordinate text came out of a successful `parsePoint`. */
    ghost predicate Parsed()
      reads this
    {
      NumberText(segAx) && NumberText(segAy) && NumberText(segBx) &&
      NumberText(segBy) && NumberText(pointX) && NumberText(pointY)
    }

    /** `calculateExactPosition`: the cross term from BigNumber subtract
        and multiply, then the zero test, the box test by compare, or the
        sign by compare with zero; only `result` changes. */
    method CalculateExactPosition()
      requires Parsed()
      modifies this
      ensures result == PositionClass(TextValue(segAx), TextValue(segAy), TextValue(segBx),
                                      TextValue(segBy), TextValue(pointX), TextValue(pointY))
      ensures segAx == old(segAx) && segAy == old(segAy) && segBx == old(segBx)
      ensures segBy == old(segBy) && pointX == old(pointX) && pointY == old(pointY)
    {
      var x1 := ParsedCoordinate(segAx);
      var y1 := ParsedCoordinate(segAy);
      var x2 := ParsedCoordinate(segBx);
      var y2 := ParsedCoordinate(segBy);
      var xp := ParsedCoordinate(pointX);
      var yp := ParsedCoordinate(pointY);

      var cross := CrossTerm(x1, y1, x2, y2, xp, yp);
      IsZeroMeaning(cross);

      if IsZero(cross) {
        var inside := BoxTest(x1, y1, x2, y2, xp, yp);
        if inside {
          result := 0;
        } else {
          result := 1;
        }
      } else {
        var zero := ParsedCoordinate("0");
        var c := Compare(cross, zero);
        CompareIsNumeric(cross, zero);
        if c > 0 {
          result := 1;
        } else {
          result := -1;
        }
      }
    }
  }
}
