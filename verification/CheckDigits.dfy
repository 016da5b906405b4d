/** SIN and PHN validation of app/domains/registration/validators.py, over ASCII input.

    A digit string is valid when a weighted sum of its digits vanishes modulo 10 or 11;
    the error-detection theorems follow from what one changed position does to that sum.
 */
module CheckDigits {
  import opened Prelude

  type Digit = d: int | 0 <= d <= 9

  datatype ValidationError = MustBeNineDigits | SinMustBeValid | MustBeTenDigits | PhnMustBeValid

  /* ---------- Digits of a raw string ---------- */

  predicate IsDigit(c: char) {
    '0' <= c <= '9'
  }

  function Value(c: char): Digit
    requires IsDigit(c)
  {
    c as int - '0' as int
  }

  function Char(d: Digit): char
    ensures IsDigit(Char(d)) && Value(Char(d)) == d
  {
    (d + '0' as int) as char
  }

  // `re.sub(r"\D", "", raw)`
  function DigitsOf(raw: string): (s: string)
    ensures forall i :: 0 <= i < |s| ==> IsDigit(s[i])
  {
    if raw == "" then ""
    else (if IsDigit(raw[0]) then [raw[0]] else "") + DigitsOf(raw[1..])
  }

  function Values(s: string): (ds: seq<Digit>)
    requires forall i :: 0 <= i < |s| ==> IsDigit(s[i])
    ensures |ds| == |s| && forall i :: 0 <= i < |s| ==> ds[i] == Value(s[i])
  {
    seq(|s|, i requires 0 <= i < |s| => Value(s[i]))
  }

  // The digits by name.
  lemma {:induction false} DigitAlphabet(c: char)
    ensures IsDigit(c) <==> c in "0123456789"
    ensures forall d :: 0 <= d < 10 ==> IsDigit("0123456789"[d]) && Value("0123456789"[d]) == d
  {
    if IsDigit(c) {
      assert c == "0123456789"[c as int - '0' as int];
    }
  }

  // Validating a validated number again finds the same digits.
  lemma {:induction false} DigitsOfDigits(s: string)
    requires forall i :: 0 <= i < |s| ==> IsDigit(s[i])
    ensures DigitsOf(s) == s
  {
    if s != "" {
      DigitsOfDigits(s[1..]);
    }
  }

  // Separators play no part: inserting a non-digit anywhere changes nothing.
  lemma {:induction false} SeparatorsIgnored(left: string, c: char, right: string)
    requires !IsDigit(c)
    ensures DigitsOf(left + [c] + right) == DigitsOf(left + right)
  {
    if left == "" {
      assert left + [c] + right == [c] + right && left + right == right;
    } else {
      SeparatorsIgnored(left[1..], c, right);
      assert (left + [c] + right)[1..] == left[1..] + [c] + right;
      assert (left + right)[1..] == left[1..] + right;
    }
  }

  /* ---------- Sums over positions ---------- */

  // The sum over the first n positions of what each digit contributes at its position.
  function Sum(ds: seq<Digit>, term: (int, Digit) -> int, n: nat): int
    requires n <= |ds|
  {
    if n == 0 then 0 else Sum(ds, term, n - 1) + term(n - 1, ds[n - 1])
  }

  lemma {:induction false} SumAfterChange(ds: seq<Digit>, term: (int, Digit) -> int, n: nat, i: nat, d: Digit)
    requires n <= |ds| && i < |ds|
    ensures Sum(ds[i := d], term, n) ==
            Sum(ds, term, n) + if i < n then term(i, d) - term(i, ds[i]) else 0
  {
    if n > 0 {
      SumAfterChange(ds, term, n - 1, i, d);
    }
  }

  function Swapped(ds: seq<Digit>, i: nat, j: nat): seq<Digit>
    requires i < |ds| && j < |ds|
  {
    ds[i := ds[j]][j := ds[i]]
  }

  lemma {:induction false} SumAfterSwap(ds: seq<Digit>, term: (int, Digit) -> int, i: nat, j: nat)
    requires i < j < |ds|
    ensures Sum(Swapped(ds, i, j), term, |ds|) ==
            Sum(ds, term, |ds|) + term(i, ds[j]) - term(i, ds[i]) + term(j, ds[i]) - term(j, ds[j])
  {
    SumAfterChange(ds, term, |ds|, i, ds[j]);
    SumAfterChange(ds[i := ds[j]], term, |ds|, j, ds[i]);
  }

  /* ---------- SIN: the Luhn formula ---------- */

  // Annex B of ISO/IEC 7812-1: counting from the right, the check digit stands alone and
  // every second digit from its left neighbour on is doubled, its product's digits added.
  function LuhnTerm(length: int): (int, Digit) -> int {
    (i: int, d: Digit) =>
      if (length - 1 - i) % 2 == 1 then (2 * d) / 10 + (2 * d) % 10 else d
  }

  function LuhnSum(ds: seq<Digit>): int {
    Sum(ds, LuhnTerm(|ds|), |ds|)
  }

  predicate ValidSin(ds: seq<Digit>) {
    && |ds| == 9
    && LuhnSum(ds) % 10 == 0
    && exists i :: 0 <= i < 9 && ds[i] != 0
  }

  const ZEROS := "000000000"

  method ValidateSin(raw: string) returns (r: Result<string, ValidationError>)
    ensures |DigitsOf(raw)| != 9 <==> r == Err(MustBeNineDigits)
    ensures |DigitsOf(raw)| == 9 ==>
              r == if ValidSin(Values(DigitsOf(raw))) then Ok(DigitsOf(raw)) else Err(SinMustBeValid)
  {
    var digits := DigitsOf(raw);
    if |digits| != 9 {
      return Err(MustBeNineDigits);
    }
    ghost var ds := Values(digits);
    if digits == ZEROS {
      assert forall i :: 0 <= i < 9 ==> digits[i] == ZEROS[i] == '0';
      return Err(SinMustBeValid);
    }
    assert exists i :: 0 <= i < 9 && ds[i] != 0 by {
      var i :| 0 <= i < 9 && digits[i] != ZEROS[i];
      assert ds[i] != 0;
    }
    var total := 0;
    for i := 0 to |digits|
      invariant total == Sum(ds, LuhnTerm(9), i)
    {
      var n: int := Value(digits[i]);
      DoubledDigits(n);
      if i % 2 == 1 {
        n := n * 2;
        if n > 9 {
          n := n - 9;
        }
      }
      total := total + n;
    }
    if total % 10 != 0 {
      return Err(SinMustBeValid);
    }
    return Ok(digits);
  }

  lemma NotBothMultiples(s: int, t: int)
    requires s % 10 == 0 && -9 <= t <= 9
    ensures (s + t) % 10 == 0 <==> t == 0
  {}

  lemma LuhnTermInjective(i: nat, d: Digit, e: Digit)
    requires d != e
    ensures 0 <= LuhnTerm(9)(i, d) <= 9 && 0 <= LuhnTerm(9)(i, e) <= 9
    ensures LuhnTerm(9)(i, d) != LuhnTerm(9)(i, e)
  {
    DoubledDigits(d);
    DoubledDigits(e);
  }

  // Any two valid SINs differ in at least two digits: no single wrong digit passes.
  lemma {:induction false} SinDetectsOneDigit(ds: seq<Digit>, i: nat, d: Digit)
    requires ValidSin(ds) && i < 9 && d != ds[i]
    ensures !ValidSin(ds[i := d])
  {
    SumAfterChange(ds, LuhnTerm(9), |ds|, i, d);
    LuhnTermInjective(i, ds[i], d);
    NotBothMultiples(LuhnSum(ds), LuhnTerm(9)(i, d) - LuhnTerm(9)(i, ds[i]));
    assert LuhnSum(ds[i := d]) == LuhnSum(ds) + (LuhnTerm(9)(i, d) - LuhnTerm(9)(i, ds[i]));
  }

  lemma {:induction false} ValidSinsDifferTwice(ds: seq<Digit>, es: seq<Digit>)
    requires ValidSin(ds) && ValidSin(es) && ds != es
    ensures exists i, j :: 0 <= i < j < 9 && ds[i] != es[i] && ds[j] != es[j]
  {
    var i :| 0 <= i < 9 && ds[i] != es[i];
    if forall j :: 0 <= j < 9 && j != i ==> ds[j] == es[j] {
      assert es == ds[i := es[i]];
      SinDetectsOneDigit(ds, i, es[i]);
    }
  }

  lemma {:induction false} LuhnAfterSwap(ds: seq<Digit>, i: nat)
    requires |ds| == 9 && i < 8
    ensures var a: int, b: int := ds[i], ds[i + 1];
            var change: int := if (a < 5) == (b < 5) then b - a else if a < 5 then b - a - 9 else b - a + 9;
            LuhnSum(Swapped(ds, i, i + 1)) == LuhnSum(ds) + if i % 2 == 1 then change else -change
  {
    SumAfterSwap(ds, LuhnTerm(9), i, i + 1);
    DoubledDigits(ds[i]);
    DoubledDigits(ds[i + 1]);
  }

  lemma DoubledDigits(d: Digit)
    ensures (2 * d) / 10 + (2 * d) % 10 == if d < 5 then 2 * d else 2 * d - 9
  {}

  // An adjacent swap of two different digits goes unnoticed exactly for the pair 0 and 9.
  lemma {:induction false} SinSwapUndetectedIff(ds: seq<Digit>, i: nat)
    requires ValidSin(ds) && i < 8 && ds[i] != ds[i + 1]
    ensures ValidSin(Swapped(ds, i, i + 1))
            <==> (ds[i] == 0 && ds[i + 1] == 9) || (ds[i] == 9 && ds[i + 1] == 0)
  {
    var es := Swapped(ds, i, i + 1);
    assert es[i] != 0 || es[i + 1] != 0;
    LuhnAfterSwap(ds, i);
    NotBothMultiples(LuhnSum(ds), LuhnSum(es) - LuhnSum(ds));
  }

  // What is valid, written out: doubling the second, fourth, sixth and eighth digit and casting
  // out nines from the products, all nine digits add up to a multiple of 10; and not all are 0.
  lemma {:induction false} SinLaw(ds: seq<Digit>)
    requires |ds| == 9
    ensures var d: seq<int>, doubled: seq<int> := ds, [0, 2, 4, 6, 8, 1, 3, 5, 7, 9];
            ValidSin(ds) <==>
              && (d[0] + doubled[d[1]] + d[2] + doubled[d[3]] + d[4] +
                  doubled[d[5]] + d[6] + doubled[d[7]] + d[8]) % 10 == 0
              && d != [0, 0, 0, 0, 0, 0, 0, 0, 0]
  {
    var doubled: seq<int> := [0, 2, 4, 6, 8, 1, 3, 5, 7, 9];
    forall i | 0 <= i < 9
      ensures LuhnTerm(9)(i, ds[i]) == if i % 2 == 1 then doubled[ds[i]] else ds[i]
    {
      CastOut(ds[i]);
    }
    SumOfNine(ds, LuhnTerm(9));
    if forall i :: 0 <= i < 9 ==> ds[i] == 0 {
      assert ds == [0, 0, 0, 0, 0, 0, 0, 0, 0];
    }
  }

  lemma CastOut(d: Digit)
    ensures (2 * d as int) / 10 + (2 * d as int) % 10 == [0, 2, 4, 6, 8, 1, 3, 5, 7, 9][d]
  {
    assert d in {0, 1, 2, 3, 4, 5, 6, 7, 8, 9};
  }

  lemma {:induction false} SumOfNine(ds: seq<Digit>, term: (int, Digit) -> int)
    requires |ds| >= 9
    ensures Sum(ds, term, 9) == term(0, ds[0]) + term(1, ds[1]) + term(2, ds[2]) + term(3, ds[3]) + term(4, ds[4]) +
                                term(5, ds[5]) + term(6, ds[6]) + term(7, ds[7]) + term(8, ds[8])
  {
    assert Sum(ds, term, 1) == term(0, ds[0]);
    assert Sum(ds, term, 3) == Sum(ds, term, 2) + term(2, ds[2]) == Sum(ds, term, 1) + term(1, ds[1]) + term(2, ds[2]);
    assert Sum(ds, term, 5) == Sum(ds, term, 4) + term(4, ds[4]) == Sum(ds, term, 3) + term(3, ds[3]) + term(4, ds[4]);
    assert Sum(ds, term, 7) == Sum(ds, term, 6) + term(6, ds[6]) == Sum(ds, term, 5) + term(5, ds[5]) + term(6, ds[6]);
  }

  // So every eight digits but eight zeros have exactly one check digit.
  lemma {:induction false} SinCheckDigit(p: seq<Digit>, c: Digit)
    requires |p| == 8
    ensures var d: seq<int>, doubled: seq<int> := p, [0, 2, 4, 6, 8, 1, 3, 5, 7, 9];
            var sum := d[0] + d[2] + d[4] + d[6] + doubled[d[1]] + doubled[d[3]] + doubled[d[5]] + doubled[d[7]];
            ValidSin(p + [c]) <==> c == (10 - sum % 10) % 10 && d != [0, 0, 0, 0, 0, 0, 0, 0]
  {
    var d: seq<int>, doubled: seq<int> := p, [0, 2, 4, 6, 8, 1, 3, 5, 7, 9];
    var sum := d[0] + d[2] + d[4] + d[6] + doubled[d[1]] + doubled[d[3]] + doubled[d[5]] + doubled[d[7]];
    SinLaw(p + [c]);
    TensComplement(sum, c);
    assert (p + [c])[..8] == p;
    assert [0, 0, 0, 0, 0, 0, 0, 0, 0][..8] == [0, 0, 0, 0, 0, 0, 0, 0];
    if d == [0, 0, 0, 0, 0, 0, 0, 0] && c == 0 {
      assert p + [c] == [0, 0, 0, 0, 0, 0, 0, 0, 0];
    }
  }

  lemma TensComplement(sum: int, c: Digit)
    ensures (sum + c) % 10 == 0 <==> c == (10 - sum % 10) % 10
  {}

  /* ---------- PHN: weighted sum modulo 11 ---------- */

  const WEIGHTS := [2, 4, 8, 5, 10, 9, 7, 3, 1]

  // The check digit counts with weight 1.
  const ALL_WEIGHTS: seq<int> := WEIGHTS + [1]

  function WeightTerm(): (int, Digit) -> int {
    (i: int, d: Digit) => if 0 <= i < 10 then ALL_WEIGHTS[i] * d else 0
  }

  predicate ValidPhn(ds: seq<Digit>) {
    |ds| == 10 && Sum(ds, WeightTerm(), |ds|) % 11 == 0
  }

  // The ASCII characters that `str.strip` removes: 9 to 13, the separators 28 to 31, space.
  predicate IsSpace(c: char) {
    9 as char <= c <= 13 as char || 28 as char <= c <= 31 as char || c == ' '
  }

  predicate IsBlank(raw: string) {
    forall i :: 0 <= i < |raw| ==> IsSpace(raw[i])
  }

  function WeightedSum(ds: seq<Digit>, n: nat): int
    requires n <= 9 && n <= |ds|
  {
    if n == 0 then 0 else WeightedSum(ds, n - 1) + ds[n - 1] * WEIGHTS[n - 1]
  }

  function ValidatePhn(raw: string): (r: Result<string, ValidationError>)
    ensures r == Ok("") <==> forall i :: 0 <= i < |raw| ==>
                                raw[i] as int in {9, 10, 11, 12, 13, 28, 29, 30, 31, 32}
    ensures IsBlank(raw) ==> r == Ok("")
    ensures !IsBlank(raw) && |DigitsOf(raw)| != 10 ==> r == Err(MustBeTenDigits)
    ensures !IsBlank(raw) && |DigitsOf(raw)| == 10 ==>
              r == if ValidPhn(Values(DigitsOf(raw))) then Ok(DigitsOf(raw)) else Err(PhnMustBeValid)
  {
    if IsBlank(raw) then Ok("")
    else
      var digits := DigitsOf(raw);
      if |digits| != 10 then Err(MustBeTenDigits)
      else
        var ds := Values(digits);
        var total := WeightedSum(ds, 9);
        var remainder := total % 11;
        var check := if remainder != 0 then 11 - remainder else 0;
        WeightedSumIsSum(ds, 9);
        if check == 10 then Err(PhnMustBeValid)
        else if check != ds[9] then Err(PhnMustBeValid)
        else Ok(digits)
  }

  lemma {:induction false} WeightedSumIsSum(ds: seq<Digit>, n: nat)
    requires n <= 9 && n <= |ds|
    ensures WeightedSum(ds, n) == Sum(ds, WeightTerm(), n)
  {
    if n > 0 {
      WeightedSumIsSum(ds, n - 1);
    }
  }

  // What is valid, written out.
  lemma {:induction false} PhnLaw(ds: seq<Digit>)
    requires |ds| == 10
    ensures var d: seq<int> := ds;
            ValidPhn(ds) <==>
              (2 * d[0] + 4 * d[1] + 8 * d[2] + 5 * d[3] + 10 * d[4] +
               9 * d[5] + 7 * d[6] + 3 * d[7] + 1 * d[8] + 1 * d[9]) % 11 == 0
  {
    SumOfNine(ds, WeightTerm());
    assert WEIGHTS == [2, 4, 8, 5, 10, 9, 7, 3, 1];
  }

  lemma WeightRange(i: nat)
    requires i < 10
    ensures 1 <= ALL_WEIGHTS[i] <= 10
  {}

  lemma WeightsDistinct(i: nat, j: nat)
    requires i < j < 10
    ensures ALL_WEIGHTS[i] == ALL_WEIGHTS[j] <==> i == 8 && j == 9
  {}

  lemma SwapDifference(v: int, w: int, a: int, b: int)
    ensures v * b - v * a + w * a - w * b == (v - w) * (b - a)
  {}

  lemma SumModulo(s: int, t: int)
    requires s % 11 == 0
    ensures (s + t) % 11 == 0 <==> t % 11 == 0
  {}

  // 11 is prime: a product of two small factors is a multiple of 11 only if one of them is 0.
  lemma {:induction false} NoZeroDivisors(w: int, x: int)
    requires -10 <= w <= 10 && -10 <= x <= 10
    ensures (w * x) % 11 == 0 <==> w == 0 || x == 0
    decreases w < 0
  {
    if w < 0 {
      NoZeroDivisors(-w, -x);
      assert w * x == (-w) * (-x);
    } else if w > 0 {
      // w * y is 1 modulo 11, so x is y * (w * x) modulo 11.
      var y := Inverse(w);
      if (w * x) % 11 == 0 {
        var q := w * x / 11;
        assert w * x == 11 * q;
        assert y * (w * x) == (w * y) * x;
        assert x == 11 * (y * q - (w * y / 11) * x);
      }
    }
  }

  function Inverse(w: int): (y: int)
    requires 1 <= w <= 10
    ensures w * y == 11 * (w * y / 11) + 1
  {
    [1, 6, 4, 3, 9, 2, 8, 7, 5, 10][w - 1]
  }

  // No single wrong digit passes.
  lemma {:induction false} PhnDetectsOneDigit(ds: seq<Digit>, i: nat, d: Digit)
    requires ValidPhn(ds) && i < 10 && d != ds[i]
    ensures !ValidPhn(ds[i := d])
  {
    SumAfterChange(ds, WeightTerm(), |ds|, i, d);
    var w: int, x: int := ALL_WEIGHTS[i], d as int - ds[i] as int;
    assert WeightTerm()(i, d) - WeightTerm()(i, ds[i]) == w * x;
    WeightRange(i);
    NoZeroDivisors(w, x);
    SumModulo(Sum(ds, WeightTerm(), |ds|), w * x);
  }

  // Swapping two different digits at any two positions is noticed, except at the last two.
  lemma {:induction false} PhnSwapUndetectedIff(ds: seq<Digit>, i: nat, j: nat)
    requires ValidPhn(ds) && i < j < 10 && ds[i] != ds[j]
    ensures ValidPhn(Swapped(ds, i, j)) <==> i == 8 && j == 9
  {
    var v: int, w: int, x: int := ALL_WEIGHTS[i], ALL_WEIGHTS[j], ds[j] as int - ds[i] as int;
    PhnAfterSwap(ds, i, j);
    WeightRange(i);
    WeightRange(j);
    WeightsDistinct(i, j);
    NoZeroDivisors(v - w, x);
    SumModulo(Sum(ds, WeightTerm(), |ds|), (v - w) * x);
  }

  lemma {:induction false} PhnAfterSwap(ds: seq<Digit>, i: nat, j: nat)
    requires |ds| == 10 && i < j < 10
    ensures Sum(Swapped(ds, i, j), WeightTerm(), |ds|)
            == Sum(ds, WeightTerm(), |ds|) + (ALL_WEIGHTS[i] - ALL_WEIGHTS[j]) * (ds[j] as int - ds[i] as int)
  {
    SumAfterSwap(ds, WeightTerm(), i, j);
    SwapDifference(ALL_WEIGHTS[i], ALL_WEIGHTS[j], ds[i], ds[j]);
  }

  // A nine-digit prefix has at most one check digit, and none exactly when its weighted sum
  // is 1 modulo 11.
  lemma {:induction false} PhnCheckDigitUnique(prefix: seq<Digit>, d: Digit, e: Digit)
    requires |prefix| == 9
    requires ValidPhn(prefix + [d]) && ValidPhn(prefix + [e])
    ensures d == e
  {
    PhnCheckDigit(prefix, d);
    PhnCheckDigit(prefix, e);
  }

  lemma {:induction false} PhnCheckDigitExistsIff(prefix: seq<Digit>)
    requires |prefix| == 9
    ensures var p: seq<int> := prefix;
            (exists c: Digit :: ValidPhn(prefix + [c]))
            <==> (2 * p[0] + 4 * p[1] + 8 * p[2] + 5 * p[3] + 10 * p[4] +
                  9 * p[5] + 7 * p[6] + 3 * p[7] + p[8]) % 11 != 1
  {
    var p: seq<int> := prefix;
    var s := 2 * p[0] + 4 * p[1] + 8 * p[2] + 5 * p[3] + 10 * p[4] + 9 * p[5] + 7 * p[6] + 3 * p[7] + p[8];
    if s % 11 != 1 {
      var c: Digit := (11 - s % 11) % 11;
      PhnCheckDigit(prefix, c);
    } else {
      forall c: Digit
        ensures !ValidPhn(prefix + [c])
      {
        PhnCheckDigit(prefix, c);
      }
    }
  }

  lemma {:induction false} PhnCheckDigit(prefix: seq<Digit>, c: Digit)
    requires |prefix| == 9
    ensures var p: seq<int> := prefix;
            var s := 2 * p[0] + 4 * p[1] + 8 * p[2] + 5 * p[3] + 10 * p[4] + 9 * p[5] + 7 * p[6] + 3 * p[7] + p[8];
            ValidPhn(prefix + [c]) <==> c == (11 - s % 11) % 11
  {
    var p: seq<int> := prefix;
    PhnLaw(prefix + [c]);
    ComplementOf(2 * p[0] + 4 * p[1] + 8 * p[2] + 5 * p[3] + 10 * p[4] + 9 * p[5] + 7 * p[6] + 3 * p[7] + p[8], c);
  }

  lemma ComplementOf(s: int, c: Digit)
    ensures (s + c) % 11 == 0 <==> c == (11 - s % 11) % 11
  {}
}
