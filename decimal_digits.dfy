/** Decimal digit strings and the natural numbers they spell. */
module DecimalDigits {

  predicate IsDigit(c: char)
  {
    '0' <= c <= '9'
  }

  predicate IsDigits(s: seq<char>)
  {
    forall i :: 0 <= i < |s| ==> IsDigit(s[i])
  }

  /** `c - '0'`. */
  function DigitValue(c: char): int
  {
    (c as int) - ('0' as int)
  }

  /** `char(d + '0')`. */
  function DigitChar(d: int): (c: char)
    requires 0 <= d <= 9
    ensures IsDigit(c) && DigitValue(c) == d
  {
    ((d + '0' as int) as char)
  }

  function Pow10(k: nat): (r: nat)
    ensures r >= 1
  {
    if k == 0 then 1 else 10 * Pow10(k - 1)
  }

  lemma {:induction false} Pow10Add(a: nat, b: nat)
    ensures Pow10(a + b) == Pow10(a) * Pow10(b)
  {
    if b > 0 {
      Pow10Add(a, b - 1);
      assert Pow10(a + b) == 10 * Pow10(a + b - 1);
    }
  }

  lemma Pow10Monotone(a: nat, b: nat)
    requires a <= b
    ensures Pow10(a) <= Pow10(b)
  {
    Pow10Add(a, b - a);
  }

  /** The number a digit string spells, most significant digit first
      (Horner's rule from the right end). */
  function Nat(s: seq<char>): int
  {
    if s == [] then 0 else Nat(s[..|s| - 1]) * 10 + DigitValue(s[|s| - 1])
  }

  lemma {:induction false} NatAppend(s: seq<char>, t: seq<char>)
    ensures Nat(s + t) == Nat(s) * Pow10(|t|) + Nat(t)
  {
    if t == [] {
      assert s + t == s;
    } else {
      var t' := t[..|t| - 1];
      assert (s + t)[..|s + t| - 1] == s + t';
      NatAppend(s, t');
      calc {
        Nat(s + t);
        Nat(s + t') * 10 + DigitValue(t[|t| - 1]);
        (Nat(s) * Pow10(|t'|) + Nat(t')) * 10 + DigitValue(t[|t| - 1]);
        { assert (Nat(s) * Pow10(|t'|)) * 10 == Nat(s) * (10 * Pow10(|t'|)); }
        Nat(s) * Pow10(|t|) + Nat(t);
      }
    }
  }

  /** The leading digit weighs 10^(|s|-1). */
  lemma {:induction false} NatFront(c: char, s: seq<char>)
    ensures Nat([c] + s) == DigitValue(c) * Pow10(|s|) + Nat(s)
  {
    NatAppend([c], s);
    assert [c][..0] == [];
    assert Nat([c]) == DigitValue(c);
  }

  lemma {:induction false} NatBounds(s: seq<char>)
    requires IsDigits(s)
    ensures 0 <= Nat(s) < Pow10(|s|)
  {
    if s != [] {
      NatBounds(s[..|s| - 1]);
    }
  }

  /** Leading zeros do not change the value. */
  lemma ZeroPadding(s: seq<char>)
    ensures Nat(['0'] + s) == Nat(s)
  {
    NatFront('0', s);
  }

  /** A digit string without a leading zero has exactly |s| digits' worth
      of value: at least 10^(|s|-1). */
  lemma NatLeading(s: seq<char>)
    requires IsDigits(s) && |s| > 0 && s[0] != '0'
    ensures Nat(s) >= Pow10(|s| - 1)
  {
    assert s == [s[0]] + s[1..];
    NatFront(s[0], s[1..]);
    NatBounds(s[1..]);
  }

  /** Only the all-zero strings spell 0. */
  lemma {:induction false} NatZero(s: seq<char>)
    requires IsDigits(s)
    ensures Nat(s) == 0 <==> forall i :: 0 <= i < |s| ==> s[i] == '0'
  {
    if s != [] {
      var init := s[..|s| - 1];
      NatZero(init);
      NatBounds(init);
      assert forall i :: 0 <= i < |init| ==> init[i] == s[i];
    }
  }

  /** `std::string operator<`: lexicographic order of the characters. */
  predicate LexLess(u: seq<char>, v: seq<char>)
  {
    if u == [] then v != []
    else if v == [] then false
    else if u[0] != v[0] then u[0] < v[0]
    else LexLess(u[1..], v[1..])
  }

  lemma LeadingBound(du: int, dv: int, ru: int, rv: int, p: int)
    requires 0 <= ru < p && 0 <= rv && du + 1 <= dv
    ensures du * p + ru < dv * p + rv
  {
    var k := dv - du;
    assert dv * p == du * p + k * p;
    assert (k - 1) * p >= 0;
    assert k * p == (k - 1) * p + p;
  }

  /** A smaller leading digit decides the order of two equal-length
      digit strings. */
  lemma LeadingDigitDecides(u: seq<char>, v: seq<char>)
    requires IsDigits(u) && IsDigits(v) && |u| == |v| > 0 && u[0] < v[0]
    ensures Nat(u) < Nat(v)
  {
    assert u == [u[0]] + u[1..] && v == [v[0]] + v[1..];
    NatFront(u[0], u[1..]);
    NatFront(v[0], v[1..]);
    NatBounds(u[1..]);
    NatBounds(v[1..]);
    LeadingBound(DigitValue(u[0]), DigitValue(v[0]), Nat(u[1..]), Nat(v[1..]), Pow10(|u| - 1));
  }

  /** For digit strings of the same length, the lexicographic order is the
      numeric order. */
  lemma {:induction false} LexLessIsNumeric(u: seq<char>, v: seq<char>)
    requires IsDigits(u) && IsDigits(v) && |u| == |v|
    ensures LexLess(u, v) <==> Nat(u) < Nat(v)
    ensures Nat(u) == Nat(v) <==> u == v
  {
    if u != [] {
      if u[0] == v[0] {
        assert u == [u[0]] + u[1..] && v == [v[0]] + v[1..];
        NatFront(u[0], u[1..]);
        NatFront(v[0], v[1..]);
        LexLessIsNumeric(u[1..], v[1..]);
      } else if u[0] < v[0] {
        LeadingDigitDecides(u, v);
      } else {
        LeadingDigitDecides(v, u);
      }
    }
  }
}
