/** BigNumber add, subtract and multiply: digit strings padded with zeros,
    then combined right to left with a carry or a borrow, and the
    schoolbook product over a vector of digit cells. */
module BigNumberArith {
  import opened DecimalDigits
  import opened BigNumbers

  /** |d| of an integer. */
  function Magnitude(d: int): nat
  {
    if d < 0 then -d else d
  }

  // ---------------------------------------------------------------------
  // Arithmetic steps of the digit loops

  /** One column of the carry loop: the digit written and the carry passed
      on weigh exactly the column sum. */
  lemma CarryStep(da: int, db: int, carry: int, carry': int, digit: int, rest: int, p: int)
    requires digit + 10 * carry' == da + db + carry
    ensures digit * p + rest + carry' * (10 * p) == da * p + db * p + carry * p + rest
  {
    assert carry' * (10 * p) == (10 * carry') * p;
    assert digit * p + (10 * carry') * p == (da + db + carry) * p;
  }

  /** One column of the borrow loop. */
  lemma BorrowStep(da: int, db: int, borrow: int, borrow': int, digit: int, rest: int, p: int)
    requires digit == da - db - borrow + 10 * borrow'
    ensures digit * p + rest - borrow' * (10 * p) == da * p - db * p - borrow * p + rest
  {
    assert digit * p == da * p - db * p - borrow * p + (10 * borrow') * p;
    assert borrow' * (10 * p) == (10 * borrow') * p;
  }

  /** Splitting off the first digit of a suffix. */
  lemma SuffixFront(s: seq<char>, i: nat)
    requires i < |s|
    ensures Nat(s[i..]) == DigitValue(s[i]) * Pow10(|s| - i - 1) + Nat(s[i + 1..])
  {
    assert s[i..] == [s[i]] + s[i + 1..];
    NatFront(s[i], s[i + 1..]);
  }

  /** A digit written in front of a digit string weighs 10^|s|. */
  lemma PrependDigit(d: int, s: seq<char>)
    requires 0 <= d <= 9 && IsDigits(s)
    ensures IsDigits([DigitChar(d)] + s)
    ensures Nat([DigitChar(d)] + s) == d * Pow10(|s|) + Nat(s)
  {
    NatFront(DigitChar(d), s);
  }

  // ---------------------------------------------------------------------
  // Padding, the carry loop and the borrow loop

  /** The padding loop: prepend '0' until the string is n long. */
  method PadLeft(s: seq<char>, n: nat) returns (t: seq<char>)
    requires IsDigits(s)
    ensures |t| == if |s| < n then n else |s|
    ensures IsDigits(t) && Nat(t) == Nat(s)
    ensures t[|t| - |s|..] == s
  {
    t := s;
    while |t| < n
      invariant |s| <= |t| && (|s| < n ==> |t| <= n) && (|s| >= n ==> t == s)
      invariant IsDigits(t) && Nat(t) == Nat(s)
      invariant t[|t| - |s|..] == s
      decreases n - |t|
    {
      ZeroPadding(t);
      assert (['0'] + t)[|t| + 1 - |s|..] == t[|t| - |s|..];
      t := ['0'] + t;
    }
  }

  /** The value of the digits s[i..], read from the front: what the
      columns not yet reached by a right-to-left loop are worth. */
  function SuffixValue(s: seq<char>, i: nat): int
    requires i <= |s|
    decreases |s| - i
  {
    if i == |s| then 0 else DigitValue(s[i]) * Pow10(|s| - i - 1) + SuffixValue(s, i + 1)
  }

  /** Read from the front or from the back, a suffix has the same value. */
  lemma {:induction false} SuffixValueNat(s: seq<char>, i: nat)
    requires i <= |s|
    ensures SuffixValue(s, i) == Nat(s[i..])
    decreases |s| - i
  {
    if i < |s| {
      SuffixValueNat(s, i + 1);
      SuffixFront(s, i);
    } else {
      assert s[i..] == [];
    }
  }

  /** One pass of the carry loop keeps the weighted sum of the digits
      written and the carry equal to the value of the columns read. */
  lemma CarryColumn(a: seq<char>, b: seq<char>, i: nat, result: seq<char>, carry: int, digit: int, carry': int)
    requires IsDigits(a) && IsDigits(b) && |a| == |b| && i < |a|
    requires |result| == |a| - 1 - i
    requires Nat(result) + carry * Pow10(|result|) == SuffixValue(a, i + 1) + SuffixValue(b, i + 1)
    requires digit + 10 * carry' == DigitValue(a[i]) + DigitValue(b[i]) + carry && 0 <= digit <= 9
    ensures Nat([DigitChar(digit)] + result) + carry' * Pow10(|result| + 1) == SuffixValue(a, i) + SuffixValue(b, i)
  {
    var p := Pow10(|result|);
    assert |a| - i - 1 == |result| && |b| - i - 1 == |result|;
    NatFront(DigitChar(digit), result);
    CarryStep(DigitValue(a[i]), DigitValue(b[i]), carry, carry', digit, Nat(result), p);
  }

  /** The carry loop of `add` on two padded digit strings, including the
      final carry digit: the digit string of the sum. */
  method AddDigits(a: seq<char>, b: seq<char>) returns (result: seq<char>)
    requires IsDigits(a) && IsDigits(b) && |a| == |b|
    ensures IsDigits(result) && Nat(result) == Nat(a) + Nat(b)
    ensures |a| <= |result| <= |a| + 1
  {
    result := [];
    var carry := 0;
    var i := |a| - 1;
    while i >= 0
      invariant -1 <= i < |a|
      invariant |result| == |a| - 1 - i
      invariant IsDigits(result)
      invariant 0 <= carry <= 1
      invariant Nat(result) + carry * Pow10(|result|) == SuffixValue(a, i + 1) + SuffixValue(b, i + 1)
    {
      var sum := DigitValue(a[i]) + DigitValue(b[i]) + carry;
      CarryColumn(a, b, i, result, carry, sum % 10, sum / 10);
      carry := sum / 10;
      result := [DigitChar(sum % 10)] + result;
      i := i - 1;
    }
    WholeValue(a, b);
    if carry > 0 {
      PrependDigit(carry, result);
      result := [DigitChar(carry)] + result;
    }
  }

  /** Once every column is read, the columns are worth the operands. */
  lemma WholeValue(a: seq<char>, b: seq<char>)
    ensures SuffixValue(a, 0) + SuffixValue(b, 0) == Nat(a) + Nat(b)
  {
    SuffixValueNat(a, 0);
    SuffixValueNat(b, 0);
    assert a[0..] == a && b[0..] == b;
  }

  /** One pass of the borrow loop keeps the digits written, less the
      borrow, equal to the difference of the columns read. */
  lemma BorrowColumn(a: seq<char>, b: seq<char>, i: nat, result: seq<char>, borrow: int, diff: int, borrow': int)
    requires IsDigits(a) && IsDigits(b) && |a| == |b| && i < |a|
    requires |result| == |a| - 1 - i && 0 <= borrow <= 1
    requires Nat(result) - borrow * Pow10(|result|) == SuffixValue(a, i + 1) - SuffixValue(b, i + 1)
    requires diff == DigitValue(a[i]) - DigitValue(b[i]) - borrow + 10 * borrow'
    requires 0 <= diff <= 9
    ensures Nat([DigitChar(diff)] + result) - borrow' * Pow10(|result| + 1) == SuffixValue(a, i) - SuffixValue(b, i)
  {
    assert |a| - i - 1 == |result| && |b| - i - 1 == |result|;
    NatFront(DigitChar(diff), result);
    BorrowStep(DigitValue(a[i]), DigitValue(b[i]), borrow, borrow', diff, Nat(result), Pow10(|result|));
  }

  /** The borrow loop of `subtract` on two padded digit strings, the first
      not smaller than the second: the digit string of the difference. */
  method SubtractDigits(a: seq<char>, b: seq<char>) returns (result: seq<char>)
    requires IsDigits(a) && IsDigits(b) && |a| == |b| && Nat(a) >= Nat(b)
    ensures IsDigits(result) && Nat(result) == Nat(a) - Nat(b)
    ensures |result| == |a|
  {
    result := [];
    var borrow := 0;
    var i := |a| - 1;
    while i >= 0
      invariant -1 <= i < |a|
      invariant |result| == |a| - 1 - i
      invariant IsDigits(result)
      invariant 0 <= borrow <= 1
      invariant Nat(result) - borrow * Pow10(|result|) == SuffixValue(a, i + 1) - SuffixValue(b, i + 1)
    {
      var diff := DigitValue(a[i]) - DigitValue(b[i]) - borrow;
      // a negative column difference borrows ten from the next column
      var borrow' := if diff < 0 then 1 else 0;
      diff := diff + 10 * borrow';
      BorrowColumn(a, b, i, result, borrow, diff, borrow');
      borrow := borrow';
      result := [DigitChar(diff)] + result;
      i := i - 1;
    }
    NoFinalBorrow(a, b, result, borrow);
  }

  /** The borrow left after the last column is 0 when the first operand is
      not the smaller, so the digits written are the difference. */
  lemma NoFinalBorrow(a: seq<char>, b: seq<char>, result: seq<char>, borrow: int)
    requires IsDigits(result) && 0 <= borrow <= 1 && Nat(a) >= Nat(b)
    requires Nat(result) - borrow * Pow10(|result|) == SuffixValue(a, 0) - SuffixValue(b, 0)
    ensures Nat(result) == Nat(a) - Nat(b)
  {
    SuffixValueNat(a, 0);
    SuffixValueNat(b, 0);
    assert a[0..] == a && b[0..] == b;
    NatBounds(result);
    BorrowIsZero(Nat(result), borrow, Pow10(|result|), Nat(a) - Nat(b));
  }

  lemma BorrowIsZero(n: int, borrow: int, p: int, d: int)
    requires 0 <= n < p && 0 <= borrow <= 1 && n - borrow * p == d && d >= 0
    ensures n == d
  {
  }

  // ---------------------------------------------------------------------
  // add and subtract

  /** What `removeLeadingZeros` leaves of a digit string and a sign. */
  lemma Normalized(digits: seq<char>, negative: bool)
    requires IsDigits(digits)
    ensures Valid(RemoveLeadingZeros(BigNumber(digits, negative)))
    ensures Nat(RemoveLeadingZeros(BigNumber(digits, negative)).value) == Nat(digits)
    ensures RemoveLeadingZeros(BigNumber(digits, negative)).negative <==> negative && Nat(digits) != 0
  {
  }

  /** The signed value `add` returns for valid operands: the sum, except
      that a negative first operand with a non-negative second gives the
      negated sum. */
  function AddAsWritten(u: int, v: int): int
  {
    if u < 0 && v >= 0 then -(u + v) else u + v
  }

  /** The signed value `subtract` returns for valid operands: the
      difference, except that two negative operands give the negated
      difference. */
  function SubtractAsWritten(u: int, v: int): int
  {
    if u < 0 && v < 0 then v - u else u - v
  }

  /** Where the two differ from true addition and subtraction, and only
      there. */
  lemma AsWrittenFacts(u: int, v: int)
    ensures AddAsWritten(u, v) == u + v <==> !(u < 0 && v >= 0) || u + v == 0
    ensures SubtractAsWritten(u, v) == u - v <==> !(u < 0 && v < 0) || u == v
    ensures AddAsWritten(u, v) == u + v || AddAsWritten(u, v) == -(u + v)
    ensures SubtractAsWritten(u, v) == u - v || SubtractAsWritten(u, v) == -(u - v)
  {
  }

  /** `add`. With equal signs the magnitudes add and the sign is the first
      operand's (dropped for zero). With different signs it subtracts the
      negated second operand, so the magnitude is the difference and the
      result is negative exactly when the first magnitude is the smaller:
      correct when the first operand is the non-negative one, the negated
      sum when it is the negative one. */
  method Add(x: BigNumber, y: BigNumber) returns (r: BigNumber)
    requires IsDigits(x.value) && IsDigits(y.value)
    ensures Valid(r)
    ensures x.negative == y.negative ==>
      Nat(r.value) == Nat(x.value) + Nat(y.value) && (r.negative <==> x.negative && Nat(r.value) != 0)
    ensures x.negative != y.negative ==>
      Nat(r.value) == Magnitude(Nat(x.value) - Nat(y.value)) && (r.negative <==> Nat(x.value) < Nat(y.value))
    ensures Valid(x) && Valid(y) ==> SignedValue(r) == AddAsWritten(SignedValue(x), SignedValue(y))
    decreases if x.negative == y.negative then 0 else 1
  {
    if x.negative != y.negative {
      r := Subtract(x, y.(negative := !y.negative));
    } else {
      var a := PadLeft(x.value, |y.value|);
      var b := PadLeft(y.value, |a|);
      var result := AddDigits(a, b);
      Normalized(result, x.negative);
      r := RemoveLeadingZeros(BigNumber(result, x.negative));
    }
    if Valid(x) && Valid(y) {
      AddValue(x, y, r);
    }
  }

  lemma AddValue(x: BigNumber, y: BigNumber, r: BigNumber)
    requires Valid(x) && Valid(y) && Valid(r)
    requires x.negative == y.negative ==>
      Nat(r.value) == Nat(x.value) + Nat(y.value) && (r.negative <==> x.negative && Nat(r.value) != 0)
    requires x.negative != y.negative ==>
      Nat(r.value) == Magnitude(Nat(x.value) - Nat(y.value)) && (r.negative <==> Nat(x.value) < Nat(y.value))
    ensures SignedValue(r) == AddAsWritten(SignedValue(x), SignedValue(y))
  {
    SignOf(x);
    SignOf(y);
  }

  /** Comparing the padded strings compares the magnitudes, and the larger
      less the smaller is the magnitude of their difference. */
  lemma PaddedOrder(m: int, n: int, a: seq<char>, b: seq<char>)
    requires IsDigits(a) && IsDigits(b) && |a| == |b| && Nat(a) == m && Nat(b) == n
    ensures LexLess(a, b) <==> m < n
    ensures LexLess(a, b) ==> Nat(b) >= Nat(a) && Nat(b) - Nat(a) == Magnitude(m - n)
    ensures !LexLess(a, b) ==> Nat(a) >= Nat(b) && Nat(a) - Nat(b) == Magnitude(m - n)
  {
    LexLessIsNumeric(a, b);
  }

  lemma SubtractValue(x: BigNumber, y: BigNumber, r: BigNumber)
    requires Valid(x) && Valid(y) && Valid(r)
    requires x.negative == y.negative ==>
      Nat(r.value) == Magnitude(Nat(x.value) - Nat(y.value)) && (r.negative <==> Nat(x.value) < Nat(y.value))
    requires x.negative != y.negative ==>
      Nat(r.value) == Nat(x.value) + Nat(y.value) && (r.negative <==> x.negative && Nat(r.value) != 0)
    ensures SignedValue(r) == SubtractAsWritten(SignedValue(x), SignedValue(y))
  {
    SignOf(x);
    SignOf(y);
  }

  /** `subtract`. With equal signs the magnitude is the difference of the
      magnitudes, and the result is negative exactly when the first
      magnitude is the smaller, whatever the operands' own sign: for two
      negative operands this is the negated difference. With different
      signs it adds the negated second operand. */
  method Subtract(x: BigNumber, y: BigNumber) returns (r: BigNumber)
    requires IsDigits(x.value) && IsDigits(y.value)
    ensures Valid(r)
    ensures x.negative == y.negative ==>
      Nat(r.value) == Magnitude(Nat(x.value) - Nat(y.value)) && (r.negative <==> Nat(x.value) < Nat(y.value))
    ensures x.negative != y.negative ==>
      Nat(r.value) == Nat(x.value) + Nat(y.value) && (r.negative <==> x.negative && Nat(r.value) != 0)
    ensures Valid(x) && Valid(y) ==> SignedValue(r) == SubtractAsWritten(SignedValue(x), SignedValue(y))
    decreases if x.negative == y.negative then 0 else 1
  {
    if x.negative != y.negative {
      r := Add(x, y.(negative := !y.negative));
    } else {
      r := SubtractMagnitudes(x.value, y.value);
    }
    if Valid(x) && Valid(y) {
      SubtractValue(x, y, r);
    }
  }

  /** The equal-signs branch of `subtract`: both digit strings padded to
      the same length, the smaller taken from the larger, and the result
      negative exactly when the first was the smaller. */
  method SubtractMagnitudes(xs: seq<char>, ys: seq<char>) returns (r: BigNumber)
    requires IsDigits(xs) && IsDigits(ys)
    ensures Valid(r)
    ensures Nat(r.value) == Magnitude(Nat(xs) - Nat(ys)) && (r.negative <==> Nat(xs) < Nat(ys))
  {
    var a := PadLeft(xs, |ys|);
    var b := PadLeft(ys, |a|);
    PaddedOrder(Nat(xs), Nat(ys), a, b);
    var resultNegative := false;
    if LexLess(a, b) {
      a, b := b, a;
      resultNegative := true;
    }
    var result := SubtractDigits(a, b);
    Normalized(result, resultNegative);
    r := RemoveLeadingZeros(BigNumber(result, resultNegative));
  }

  // ---------------------------------------------------------------------
  // multiply

  /** The number a vector of decimal cells spells, most significant cell
      first; a cell may hold more than one digit's worth while the product
      is being accumulated. */
  function CellValue(cells: seq<int>): int
  {
    if cells == [] then 0 else CellValue(cells[..|cells| - 1]) * 10 + cells[|cells| - 1]
  }

  /** Changing cell k changes the value by the change times 10^(weight of k). */
  lemma {:induction false} CellValueUpdate(cells: seq<int>, k: nat, v: int)
    requires k < |cells|
    ensures CellValue(cells[k := v]) == CellValue(cells) + (v - cells[k]) * Pow10(|cells| - 1 - k)
  {
    var last := |cells| - 1;
    var init := cells[..last];
    assert cells[k := v][..last] == if k == last then init else init[k := v];
    if k < last {
      CellValueUpdate(init, k, v);
      assert Pow10(|cells| - 1 - k) == 10 * Pow10(|init| - 1 - k);
      assert (v - cells[k]) * Pow10(|cells| - 1 - k) == ((v - cells[k]) * Pow10(|init| - 1 - k)) * 10;
    }
  }

  /** A vector of zeros spells 0. */
  lemma {:induction false} CellValueZeros(n: nat)
    ensures CellValue(seq(n, _ => 0)) == 0
  {
    if n > 0 {
      assert seq(n, _ => 0)[..n - 1] == seq(n - 1, _ => 0);
      CellValueZeros(n - 1);
    }
  }

  /** One inner step on the cells: the product mul added into cell k+1,
      whose low digit stays there while its tens are added into cell k. */
  function StepCells(cells: seq<int>, k: nat, mul: int): (r: seq<int>)
    requires k + 1 < |cells|
    ensures |r| == |cells|
  {
    var sum := mul + cells[k + 1];
    cells[k + 1 := sum % 10][k := cells[k] + sum / 10]
  }

  /** Writing the low digit of a column sum into cell k+1 and adding its
      tens into cell k adds the column's new product to the value. */
  lemma CarryIntoCells(cells: seq<int>, k: nat, mul: int)
    requires k + 1 < |cells|
    ensures CellValue(StepCells(cells, k, mul)) == CellValue(cells) + mul * Pow10(|cells| - 2 - k)
  {
    var sum := mul + cells[k + 1];
    var cells1 := cells[k + 1 := sum % 10];
    var w := Pow10(|cells| - 2 - k);
    CellValueUpdate(cells, k + 1, sum % 10);
    CellValueUpdate(cells1, k, cells[k] + sum / 10);
    assert Pow10(|cells| - 1 - k) == 10 * w;
    CarryArith(sum, cells[k + 1], mul, w);
  }

  lemma CarryArith(sum: int, prior: int, mul: int, w: int)
    requires sum == mul + prior
    ensures (sum % 10 - prior) * w + (sum / 10) * (10 * w) == mul * w
  {
    assert sum == (sum / 10) * 10 + sum % 10;
    assert (sum / 10) * (10 * w) == ((sum / 10) * 10) * w;
    assert (sum % 10 - prior) * w + ((sum / 10) * 10) * w == (sum - prior) * w;
  }

  /** The arithmetic of one inner step of the product loop. */
  lemma ProductArith(da: int, db: int, pa: int, pb: int, w: int, restA: int, restB: int, nb: int)
    requires w == pa * pb && restB == db * pb + nb
    ensures restA + da * pa * nb + da * db * w == restA + da * pa * restB
  {
    assert da * pa * restB == da * pa * (db * pb) + da * pa * nb;
    assert da * pa * (db * pb) == da * db * (pa * pb);
  }

  /** The value the cells spell part-way through row i: the rows already
      done (the digits of a after i, times b) plus digit i of a, at its
      weight, times the digits of b from k on. */
  function RowPartial(a: seq<char>, b: seq<char>, i: nat, k: nat): int
    requires i < |a| && k <= |b|
  {
    Nat(a[i + 1..]) * Nat(b) + DigitValue(a[i]) * Pow10(|a| - 1 - i) * Nat(b[k..])
  }

  /** One inner step of the product loop: the digit product, added into
      cell i+j+1 with its tens moved into cell i+j, leaves the cells
      spelling the partial product with one more digit of b. */
  lemma MultiplyStep(cells: seq<int>, a: seq<char>, b: seq<char>, i: nat, j: nat)
    requires IsDigits(a) && IsDigits(b) && i < |a| && j < |b| && |cells| == |a| + |b|
    requires CellValue(cells) == RowPartial(a, b, i, j + 1)
    ensures CellValue(StepCells(cells, i + j, DigitValue(a[i]) * DigitValue(b[j]))) == RowPartial(a, b, i, j)
  {
    var da, db := DigitValue(a[i]), DigitValue(b[j]);
    CarryIntoCells(cells, i + j, da * db);
    SuffixFront(b, j);
    Pow10Add(|a| - 1 - i, |b| - 1 - j);
    ProductArith(da, db, Pow10(|a| - 1 - i), Pow10(|b| - 1 - j), Pow10(|cells| - 2 - (i + j)),
                 Nat(a[i + 1..]) * Nat(b), Nat(b[j..]), Nat(b[j + 1..]));
  }

  lemma RowArith(v: int, rest: int, nb: int, d: int, p: int, whole: int)
    requires v == rest * nb + d * p * nb && whole == d * p + rest
    ensures v == whole * nb
  {
    assert whole * nb == (d * p) * nb + rest * nb;
  }

  /** The end of one row of the product loop: digit i of a has been
      multiplied by the whole of b. */
  lemma MultiplyRowEnd(a: seq<char>, b: seq<char>, i: nat, v: int)
    requires IsDigits(a) && i < |a|
    requires i < |a| && v == RowPartial(a, b, i, 0)
    ensures v == Nat(a[i..]) * Nat(b)
  {
    assert b[0..] == b;
    SuffixFront(a, i);
    RowArith(v, Nat(a[i + 1..]), Nat(b), DigitValue(a[i]), Pow10(|a| - 1 - i), Nat(a[i..]));
  }

  lemma DigitProduct(da: int, db: int)
    requires 0 <= da <= 9 && 0 <= db <= 9
    ensures 0 <= da * db <= 81
  {
  }

  /** Signs multiply as the magnitudes do, negated when they differ. */
  lemma SignedProduct(u: int, v: int, nu: bool, nv: bool)
    ensures (if nu then -u else u) * (if nv then -v else v) == if nu != nv then -(u * v) else u * v
  {
  }

  lemma PositiveProduct(u: int, v: int)
    requires u >= 1 && v >= 1
    ensures u * v >= 1
  {
  }

  /** Every cell holds a single digit. */
  ghost predicate DigitCells(c: seq<int>)
  {
    forall k :: 0 <= k < |c| ==> 0 <= c[k] <= 9
  }

  /** The first n cells are still zero. */
  ghost predicate ZeroPrefix(c: seq<int>, n: nat)
  {
    n <= |c| && forall k :: 0 <= k < n ==> c[k] == 0
  }

  /** The cells part-way through row i, before digit j of b: each a single
      digit except cell i+j+1, which may hold up to 18 while the row runs;
      the cells before the row's reach are still zero. */
  ghost predicate RowCells(c: seq<int>, i: nat, j: int)
    requires -1 <= j && i + j + 1 < |c|
  {
    (forall k :: 0 <= k < |c| && k != i + j + 1 ==> 0 <= c[k] <= 9) &&
    0 <= c[i + j + 1] <= (if j < 0 then 9 else 18) &&
    (j >= 0 ==> c[i] == 0) &&
    ZeroPrefix(c, i)
  }

  /** Before the row: all of it is still to come. */
  lemma RowStart(c: seq<int>, a: seq<char>, b: seq<char>, i: nat)
    requires IsDigits(a) && IsDigits(b) && i < |a| && |c| == |a| + |b|
    requires DigitCells(c) && ZeroPrefix(c, i + 1) && CellValue(c) == Nat(a[i + 1..]) * Nat(b)
    ensures RowCells(c, i, |b| - 1) && CellValue(c) == RowPartial(a, b, i, |b|)
  {
    assert b[|b|..] == [];
  }

  /** After the row: digit i of a has been multiplied by the whole of b. */
  lemma RowFinish(c: seq<int>, a: seq<char>, b: seq<char>, i: nat)
    requires IsDigits(a) && IsDigits(b) && i < |a| && |c| == |a| + |b|
    requires RowCells(c, i, -1) && CellValue(c) == RowPartial(a, b, i, 0)
    ensures DigitCells(c) && ZeroPrefix(c, i) && CellValue(c) == Nat(a[i..]) * Nat(b)
  {
    MultiplyRowEnd(a, b, i, CellValue(c));
  }

  /** One inner step keeps the row's cell bounds and adds digit j of b. */
  lemma RowStep(c: seq<int>, a: seq<char>, b: seq<char>, i: nat, j: nat)
    requires IsDigits(a) && IsDigits(b) && i < |a| && j < |b| && |c| == |a| + |b|
    requires RowCells(c, i, j) && CellValue(c) == RowPartial(a, b, i, j + 1)
    ensures var c' := StepCells(c, i + j, DigitValue(a[i]) * DigitValue(b[j]));
      RowCells(c', i, j - 1) && CellValue(c') == RowPartial(a, b, i, j)
  {
    DigitProduct(DigitValue(a[i]), DigitValue(b[j]));
    MultiplyStep(c, a, b, i, j);
  }

  /** The body of the inner product loop: mul added into cell k+1, whose
      low digit stays there while its tens are added into cell k. */
  method AddIntoCells(result: array<int>, k: nat, mul: int)
    requires k + 1 < result.Length
    modifies result
    ensures result[..] == StepCells(old(result[..]), k, mul)
  {
    var sum := mul + result[k + 1];
    result[k + 1] := sum % 10;
    result[k] := result[k] + sum / 10;
  }

  /** One row of the product loop: digit i of a times every digit of b,
      right to left, each digit product added into cell i+j+1 and its tens
      carried into cell i+j. */
  method ProductRow(result: array<int>, a: seq<char>, b: seq<char>, i: nat)
    requires IsDigits(a) && IsDigits(b) && i < |a| && result.Length == |a| + |b|
    requires DigitCells(result[..]) && ZeroPrefix(result[..], i + 1)
    requires CellValue(result[..]) == Nat(a[i + 1..]) * Nat(b)
    modifies result
    ensures DigitCells(result[..]) && ZeroPrefix(result[..], i)
    ensures CellValue(result[..]) == Nat(a[i..]) * Nat(b)
  {
    var j := |b| - 1;
    RowStart(result[..], a, b, i);
    while j >= 0
      invariant -1 <= j < |b|
      invariant RowCells(result[..], i, j)
      invariant CellValue(result[..]) == RowPartial(a, b, i, j + 1)
    {
      RowStep(result[..], a, b, i, j);
      var mul := DigitValue(a[i]) * DigitValue(b[j]);
      AddIntoCells(result, i + j, mul);
      j := j - 1;
    }
    RowFinish(result[..], a, b, i);
  }

  /** The cell vector of the schoolbook product: len1+len2 cells, each a
      single digit, spelling the product of the two digit strings. */
  method ProductCells(a: seq<char>, b: seq<char>) returns (result: array<int>)
    requires IsDigits(a) && IsDigits(b)
    ensures result.Length == |a| + |b|
    ensures DigitCells(result[..]) && CellValue(result[..]) == Nat(a) * Nat(b)
  {
    result := new int[|a| + |b|](_ => 0);
    CellValueZeros(|a| + |b|);
    assert result[..] == seq(|a| + |b|, _ => 0);
    var i := |a| - 1;
    while i >= 0
      invariant -1 <= i < |a|
      invariant DigitCells(result[..]) && ZeroPrefix(result[..], i + 1)
      invariant CellValue(result[..]) == Nat(a[i + 1..]) * Nat(b)
    {
      ProductRow(result, a, b, i);
      i := i - 1;
    }
    assert a[0..] == a;
  }

  /** One more cell multiplies the value by ten and adds the cell. */
  lemma CellPrefix(cells: seq<int>, k: nat)
    requires k < |cells|
    ensures CellValue(cells[..k + 1]) == CellValue(cells[..k]) * 10 + cells[k]
  {
    assert cells[..k + 1][..k] == cells[..k];
  }

  /** A digit appended on the right: ten times the value, plus the digit. */
  lemma AppendDigit(s: seq<char>, d: int)
    requires IsDigits(s) && 0 <= d <= 9
    ensures IsDigits(s + [DigitChar(d)]) && Nat(s + [DigitChar(d)]) == Nat(s) * 10 + d
  {
    assert (s + [DigitChar(d)])[..|s|] == s;
  }

  /** The read-out loop: every cell's digit, except the zeros met while
      nothing has been written yet. */
  method CellDigits(cells: array<int>) returns (s: seq<char>)
    requires DigitCells(cells[..])
    ensures IsDigits(s) && Nat(s) == CellValue(cells[..])
    ensures s != [] ==> s[0] != '0'
  {
    s := [];
    var k := 0;
    while k < cells.Length
      invariant 0 <= k <= cells.Length
      invariant IsDigits(s) && Nat(s) == CellValue(cells[..k])
      invariant s != [] ==> s[0] != '0'
    {
      CellPrefix(cells[..], k);
      if !(s == [] && cells[k] == 0) {
        AppendDigit(s, cells[k]);
        s := s + [DigitChar(cells[k])];
      }
      k := k + 1;
    }
    assert cells[..cells.Length] == cells[..];
  }

  /** `multiply`: "0" when either operand is zero; otherwise the schoolbook
      product of the digit strings, read out without leading zeros,
      negative exactly when the signs differ. */
  method Multiply(x: BigNumber, y: BigNumber) returns (r: BigNumber)
    requires Valid(x) && Valid(y)
    ensures Valid(r)
    ensures IsZero(x) || IsZero(y) ==> r == BigNumber("0", false)
    ensures Nat(r.value) == Nat(x.value) * Nat(y.value)
    ensures !IsZero(x) && !IsZero(y) ==> r.negative == (x.negative != y.negative)
    ensures SignedValue(r) == SignedValue(x) * SignedValue(y)
  {
    IsZeroMeaning(x);
    IsZeroMeaning(y);
    if IsZero(x) || IsZero(y) {
      return BigNumber("0", false);
    }
    var cells := ProductCells(x.value, y.value);
    var resStr := CellDigits(cells);
    NatLeading(x.value);
    NatLeading(y.value);
    PositiveProduct(Nat(x.value), Nat(y.value));
    SignedProduct(Nat(x.value), Nat(y.value), x.negative, y.negative);
    if resStr == [] {
      resStr := "0";
    }
    r := BigNumber(resStr, x.negative != y.negative);
  }
}
