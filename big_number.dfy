/** BigNumber of the exact orientation widget: a sign flag and a decimal
    digit string. The decimal point of the input text is deleted, not
    remembered, so "1.5" and "15" make the same number. */
module BigNumbers {
  import opened DecimalDigits

  datatype BigNumber = BigNumber(value: seq<char>, negative: bool)

  /** The default constructor: "0", not negative. */
  function Zero(): (z: BigNumber)
    ensures Nat(z.value) == 0 && !z.negative && |z.value| == 1
  {
    BigNumber("0", false)
  }

  /** No leading '0' unless the whole string is "0"; never empty. */
  predicate Normal(s: seq<char>)
  {
    |s| > 0 && (s[0] != '0' || s == "0")
  }

  /** What every BigNumber the program builds satisfies. */
  ghost predicate Valid(n: BigNumber)
  {
    IsDigits(n.value) && Normal(n.value) && (n.value == "0" ==> !n.negative)
  }

  /** The signed integer the number stands for. */
  function SignedValue(n: BigNumber): int
  {
    if n.negative then -Nat(n.value) else Nat(n.value)
  }

  /** `isZero`. */
  predicate IsZero(n: BigNumber)
  {
    n.value == "0"
  }

  lemma IsZeroMeaning(n: BigNumber)
    requires Valid(n)
    ensures IsZero(n) <==> Nat(n.value) == 0
    ensures IsZero(n) <==> SignedValue(n) == 0
  {
    NatZero(n.value);
    if !IsZero(n) {
      assert n.value[0] != '0';
    }
  }

  /** On a valid number the sign flag is the sign of the value. */
  lemma SignOf(n: BigNumber)
    requires Valid(n)
    ensures n.negative <==> SignedValue(n) < 0
    ensures Nat(n.value) >= 0
  {
    IsZeroMeaning(n);
    NatBounds(n.value);
  }

  // ---------------------------------------------------------------------
  // removeLeadingZeros

  /** The suffix from the first character that is not '0'. */
  function StripZeros(s: seq<char>): (r: seq<char>)
    ensures |r| <= |s| && r == s[|s| - |r|..]
    ensures forall i :: 0 <= i < |s| - |r| ==> s[i] == '0'
    ensures r != [] ==> r[0] != '0'
  {
    if s == [] then []
    else if s[0] == '0' then StripZeros(s[1..])
    else s
  }

  /** `removeLeadingZeros`: an all-zero (or empty) digit string becomes
      non-negative "0"; otherwise the leading zeros are dropped. */
  function RemoveLeadingZeros(n: BigNumber): (r: BigNumber)
    ensures Normal(r.value) && (r.value == "0" ==> !r.negative)
    ensures IsDigits(n.value) ==>
      IsDigits(r.value) && Nat(r.value) == Nat(n.value) &&
      (r.negative <==> n.negative && Nat(n.value) != 0)
  {
    var t := StripZeros(n.value);
    if IsDigits(n.value) then
      StripZerosValue(n.value);
      if t == [] then BigNumber("0", false) else BigNumber(t, n.negative)
    else if t == [] then BigNumber("0", false) else BigNumber(t, n.negative)
  }

  lemma {:induction false} StripZerosValue(s: seq<char>)
    requires IsDigits(s)
    ensures IsDigits(StripZeros(s)) && Nat(StripZeros(s)) == Nat(s)
    ensures StripZeros(s) == [] <==> Nat(s) == 0
  {
    if s != [] {
      if s[0] == '0' {
        var rest := s[1..];
        StripZerosValue(rest);
        assert s == ['0'] + rest;
        ZeroPadding(rest);
      } else {
        NatLeading(s);
      }
    }
  }

  lemma RemoveLeadingZerosIdempotent(n: BigNumber)
    requires Valid(n)
    ensures RemoveLeadingZeros(n) == n
  {
    IsZeroMeaning(n);
  }

  // ---------------------------------------------------------------------
  // The string constructor and toString

  /** The text with its first '.' deleted. */
  function DeleteFirstDot(s: seq<char>): (r: seq<char>)
    ensures '.' !in s ==> r == s
    ensures '.' in s ==> |r| == |s| - 1
  {
    if s == [] then []
    else if s[0] == '.' then s[1..]
    else [s[0]] + DeleteFirstDot(s[1..])
  }

  /** Exactly the first '.' goes: the text before it and after it are kept. */
  lemma {:induction false} DeleteFirstDotAt(s: seq<char>, k: nat)
    requires k < |s| && s[k] == '.' && '.' !in s[..k]
    ensures DeleteFirstDot(s) == s[..k] + s[k + 1..]
  {
    if k > 0 {
      assert s[1..][..k - 1] == s[1..k];
      DeleteFirstDotAt(s[1..], k - 1);
      assert s[..k] == [s[0]] + s[1..k];
    }
  }

  /** The end of the string constructor: leading zeros removed and zero
      made non-negative. */
  function Normalize(digits: seq<char>, negative: bool): (n: BigNumber)
    ensures Normal(n.value) && (n.value == "0" ==> !n.negative)
  {
    var r := RemoveLeadingZeros(BigNumber(digits, negative));
    if r.value == "0" then r.(negative := false) else r
  }

  /** On a digit string the result is valid and has the signed value the
      digits and the sign flag spell. */
  lemma NormalizeDigits(digits: seq<char>, negative: bool)
    requires IsDigits(digits)
    ensures Valid(Normalize(digits, negative))
    ensures SignedValue(Normalize(digits, negative)) == if negative then -Nat(digits) else Nat(digits)
  {
    StripZerosValue(digits);
    var r := RemoveLeadingZeros(BigNumber(digits, negative));
    if Nat(digits) == 0 {
      assert r == BigNumber("0", false);
    } else {
      assert Normalize(digits, negative) == r;
    }
  }

  /** The text starts with a minus sign. */
  predicate HasMinus(s: seq<char>)
  {
    |s| > 0 && s[0] == '-'
  }

  /** The text after an optional leading minus sign. */
  function Unsigned(s: seq<char>): (u: seq<char>)
    ensures HasMinus(s) ==> s == ['-'] + u
    ensures !HasMinus(s) ==> u == s
  {
    if HasMinus(s) then s[1..] else s
  }

  /** `BigNumber(const char*)`: a leading '-' sets the sign, the first '.'
      is deleted, leading zeros are removed, and zero is made
      non-negative. */
  function FromString(s: seq<char>): (n: BigNumber)
    ensures Normal(n.value) && (n.value == "0" ==> !n.negative)
    ensures n.negative ==> HasMinus(s)
    ensures n.value != "0" ==> (n.negative <==> HasMinus(s))
  {
    Normalize(DeleteFirstDot(Unsigned(s)), HasMinus(s))
  }

  /** `toString`: "0" for zero; otherwise an optional '-', the first digit,
      and, when there are more digits, '.' and the rest. */
  function ToString(n: BigNumber): seq<char>
  {
    if n.value == "0" then "0"
    else (if n.negative then "-" else "") +
         (if |n.value| <= 1 then n.value else n.value[..1] + "." + n.value[1..])
  }

  /** The dot that toString puts after the first digit is the one the
      constructor deletes. */
  lemma DeleteDotAfterFirst(v: seq<char>)
    requires |v| > 1 && v[0] != '.'
    ensures DeleteFirstDot(v[..1] + "." + v[1..]) == v
  {
    var shown := v[..1] + "." + v[1..];
    assert shown[..1] == v[..1] && shown[2..] == v[1..];
    DeleteFirstDotAt(shown, 1);
  }

  /** Parsing the printed text gives back the same digits and sign. */
  lemma FromStringToString(n: BigNumber)
    requires Valid(n)
    ensures FromString(ToString(n)) == n
  {
    var t := ToString(n);
    if n.value != "0" {
      var v := n.value;
      var shown := if |v| <= 1 then v else v[..1] + "." + v[1..];
      var sign: seq<char> := if n.negative then "-" else "";
      assert t == sign + shown;
      assert shown[0] == v[0] && IsDigit(v[0]);
      assert HasMinus(t) == n.negative && Unsigned(t) == shown;
      if |v| > 1 {
        DeleteDotAfterFirst(v);
      } else {
        assert '.' !in shown;
      }
      assert StripZeros(v) == v;
      assert RemoveLeadingZeros(n) == n;
      assert FromString(t) == Normalize(v, n.negative);
    } else {
      assert t == "0" && '.' !in t;
      assert StripZeros(t) == StripZeros([]) == [];
      assert FromString(t) == Normalize("0", false);
    }
  }

  /** A digit string of the input text, once its sign and dot are taken
      away, gives a valid number of the same value. */
  lemma FromStringOfDigits(s: seq<char>)
    requires IsDigits(DeleteFirstDot(Unsigned(s)))
    ensures Valid(FromString(s))
    ensures SignedValue(FromString(s)) ==
      if HasMinus(s) then -Nat(DeleteFirstDot(Unsigned(s))) else Nat(DeleteFirstDot(Unsigned(s)))
  {
    NormalizeDigits(DeleteFirstDot(Unsigned(s)), HasMinus(s));
  }

  // ---------------------------------------------------------------------
  // compare

  /** The first differing character of two strings decides; 0 when one
      runs out first or none differs. */
  function LexCompare(u: seq<char>, v: seq<char>): int
  {
    if u == [] || v == [] then 0
    else if u[0] > v[0] then 1
    else if u[0] < v[0] then -1
    else LexCompare(u[1..], v[1..])
  }

  /** `compare`: signs first, then digit counts, then the first differing
      digit, each answer flipped for two negative numbers. */
  function CompareResult(a: BigNumber, b: BigNumber): int
  {
    if a.negative && !b.negative then -1
    else if !a.negative && b.negative then 1
    else
      var s := if a.negative then -1 else 1;
      if |a.value| > |b.value| then s
      else if |a.value| < |b.value| then -s
      else s * LexCompare(a.value, b.value)
  }

  lemma {:induction false} LexCompareFacts(u: seq<char>, v: seq<char>)
    requires |u| == |v|
    ensures LexCompare(u, v) in {-1, 0, 1}
    ensures LexCompare(u, v) == 0 <==> u == v
    ensures LexCompare(v, u) == -LexCompare(u, v)
  {
    if u != [] {
      LexCompareFacts(u[1..], v[1..]);
      assert u == [u[0]] + u[1..] && v == [v[0]] + v[1..];
    }
  }

  lemma {:induction false} LexCompareIsNumeric(u: seq<char>, v: seq<char>)
    requires IsDigits(u) && IsDigits(v) && |u| == |v|
    ensures LexCompare(u, v) == -1 <==> Nat(u) < Nat(v)
    ensures LexCompare(u, v) == 0 <==> Nat(u) == Nat(v)
  {
    LexCompareFacts(u, v);
    LexLessIsNumeric(u, v);
    LexLessMatchesCompare(u, v);
  }

  lemma {:induction false} LexLessMatchesCompare(u: seq<char>, v: seq<char>)
    requires |u| == |v|
    ensures LexLess(u, v) <==> LexCompare(u, v) == -1
  {
    if u != [] && u[0] == v[0] {
      LexLessMatchesCompare(u[1..], v[1..]);
    }
  }

  /** compare answers only -1, 0 or 1; 0 exactly when sign and digits
      coincide; swapping the operands negates the answer. */
  lemma CompareFacts(a: BigNumber, b: BigNumber)
    ensures CompareResult(a, b) in {-1, 0, 1}
    ensures CompareResult(a, b) == 0 <==> a == b
    ensures CompareResult(b, a) == -CompareResult(a, b)
  {
    if |a.value| == |b.value| {
      LexCompareFacts(a.value, b.value);
    }
  }

  /** Shorter normal digit strings spell smaller numbers. */
  lemma ShorterIsSmaller(u: seq<char>, v: seq<char>)
    requires IsDigits(u) && IsDigits(v) && Normal(u) && Normal(v) && |u| < |v|
    ensures Nat(u) < Nat(v)
  {
    NatBounds(u);
    NatLeading(v);
    Pow10Monotone(|u|, |v| - 1);
  }

  /** On valid numbers compare is the sign of the difference. */
  lemma CompareIsNumeric(a: BigNumber, b: BigNumber)
    requires Valid(a) && Valid(b)
    ensures CompareResult(a, b) == -1 <==> SignedValue(a) < SignedValue(b)
    ensures CompareResult(a, b) == 0 <==> SignedValue(a) == SignedValue(b)
    ensures CompareResult(a, b) == 1 <==> SignedValue(a) > SignedValue(b)
  {
    IsZeroMeaning(a);
    IsZeroMeaning(b);
    NatBounds(a.value);
    NatBounds(b.value);
    if a.negative != b.negative {
      assert a.negative ==> SignedValue(a) < 0 <= SignedValue(b);
      assert b.negative ==> SignedValue(b) < 0 <= SignedValue(a);
    } else if |a.value| < |b.value| {
      ShorterIsSmaller(a.value, b.value);
      assert CompareResult(a, b) == if a.negative then 1 else -1;
    } else if |a.value| > |b.value| {
      ShorterIsSmaller(b.value, a.value);
      assert CompareResult(a, b) == if a.negative then -1 else 1;
    } else {
      LexCompareFacts(a.value, b.value);
      LexCompareIsNumeric(a.value, b.value);
    }
  }

  /** `compare`, as the source's loop over the digits. */
  method Compare(a: BigNumber, b: BigNumber) returns (r: int)
    ensures r == CompareResult(a, b)
  {
    if a.negative && !b.negative {
      return -1;
    }
    if !a.negative && b.negative {
      return 1;
    }
    var len1, len2 := |a.value|, |b.value|;
    if len1 > len2 {
      return if a.negative then -1 else 1;
    }
    if len1 < len2 {
      return if a.negative then 1 else -1;
    }
    var i := 0;
    while i < len1
      invariant 0 <= i <= len1
      invariant LexCompare(a.value[i..], b.value[i..]) == LexCompare(a.value, b.value)
    {
      assert a.value[i..][1..] == a.value[i + 1..] && b.value[i..][1..] == b.value[i + 1..];
      if a.value[i] > b.value[i] {
        return if a.negative then -1 else 1;
      }
      if a.value[i] < b.value[i] {
        return if a.negative then 1 else -1;
      }
      i := i + 1;
    }
    return 0;
  }
}
