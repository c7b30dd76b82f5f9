/** Digit strings: Ruby's `Integer#to_s(base)` for bases 2 to 16 (lower-case
    digits, no leading zeros) and the value of a digit string, as read by
    `String#to_i` on plain decimal text and by `String#hex`. */
module Numerals {
  import opened Arith
  import opened Text

  predicate IsHexDigit(c: char) { IsDigit(c) || 'a' <= c <= 'f' || 'A' <= c <= 'F' }

  /** The digits `Integer#to_s` writes: `0-9` and lower-case `a-f`. */
  predicate IsLowerHexDigit(c: char) { IsDigit(c) || 'a' <= c <= 'f' }

  function DigitValue(c: char): (d: nat)
    requires IsHexDigit(c)
    ensures d < 16
    ensures IsDigit(c) ==> d < 10
  {
    if IsDigit(c) then c as int - '0' as int
    else if 'a' <= c <= 'f' then c as int - 'a' as int + 10
    else c as int - 'A' as int + 10
  }

  function DigitChar(d: nat): (c: char)
    requires d < 16
    ensures IsLowerHexDigit(c) && DigitValue(c) == d
    ensures d < 10 ==> IsDigit(c)
  {
    if d < 10 then ('0' as int + d) as char else ('a' as int + d - 10) as char
  }

  lemma DigitCharOfValue(c: char)
    requires IsLowerHexDigit(c)
    ensures DigitChar(DigitValue(c)) == c
  {}

  /** `c` is a digit `Integer#to_s(b)` may write. */
  predicate IsBaseDigit(c: char, b: nat)
  {
    IsLowerHexDigit(c) && DigitValue(c) < b
  }

  function Digits(s: string): (ds: seq<nat>)
    requires AllChars(s, IsHexDigit)
    ensures |ds| == |s| && AllBelow(ds, 16)
  {
    seq(|s|, i requires 0 <= i < |s| => DigitValue(s[i]))
  }

  /** The number a digit string denotes in base `b`. */
  function ValueOf(s: string, b: nat): nat
    requires AllChars(s, IsHexDigit)
  {
    ValueBE(Digits(s), b)
  }

  lemma ValueOfSnoc(s: string, b: nat)
    requires AllChars(s, IsHexDigit) && |s| > 0
    ensures ValueOf(s, b) == ValueOf(s[..|s| - 1], b) * b + DigitValue(s[|s| - 1])
  {
    assert Digits(s)[..|s| - 1] == Digits(s[..|s| - 1]);
  }

  /** A leading `0` does not change the value. */
  lemma ValueOfLeadingZero(s: string, b: nat)
    requires AllChars(s, IsHexDigit)
    ensures ValueOf("0" + s, b) == ValueOf(s, b)
  {
    assert Digits("0" + s) == [0] + Digits(s);
    ValueAppend([0], Digits(s), b);
    assert ValueBE([0], b) == 0 by {
      assert [0][..0] == [];
    }
  }

  /** Concatenated digit strings: the value of the left part is shifted by
      as many digits as the right part has. */
  lemma ValueOfConcat(s: string, t: string, b: nat)
    requires AllChars(s, IsHexDigit) && AllChars(t, IsHexDigit)
    ensures ValueOf(s + t, b) == ValueOf(s, b) * Power(b, |t|) + ValueOf(t, b)
  {
    assert Digits(s + t) == Digits(s) + Digits(t);
    ValueAppend(Digits(s), Digits(t), b);
  }

  /** The base-`b` digits of `n`, most significant first, with no leading zero. */
  function ToDigits(n: nat, b: nat): (ds: seq<nat>)
    requires 2 <= b <= 16
    ensures |ds| >= 1 && AllBelow(ds, b)
    ensures |ds| > 1 ==> ds[0] > 0
    decreases n
  {
    if n < b then [n] else ToDigits(n / b, b) + [n % b]
  }

  /** `Integer#to_s(b)` of a non-negative integer. */
  function Numeral(n: nat, b: nat): (r: string)
    requires 2 <= b <= 16
    ensures |r| >= 1
    ensures forall i :: 0 <= i < |r| ==> IsBaseDigit(r[i], b)
    ensures AllChars(r, IsHexDigit)
  {
    var ds := ToDigits(n, b);
    seq(|ds|, i requires 0 <= i < |ds| => DigitChar(ds[i]))
  }

  function Decimal(n: nat): (r: string)
    ensures AllChars(r, IsDigit)
  {
    var r := Numeral(n, 10);
    assert forall i :: 0 <= i < |r| ==> IsBaseDigit(r[i], 10);
    r
  }

  function Hex(n: nat): string
  {
    Numeral(n, 16)
  }

  lemma DigitsOfNumeral(n: nat, b: nat)
    requires 2 <= b <= 16
    ensures Digits(Numeral(n, b)) == ToDigits(n, b)
  {}

  lemma {:induction false} ToDigitsValue(n: nat, b: nat)
    requires 2 <= b <= 16
    ensures ValueBE(ToDigits(n, b), b) == n
    decreases n
  {
    if n >= b {
      var q, r := n / b, n % b;
      ToDigitsStep(n, b);
      QuotientSmaller(n, b);
      ToDigitsValue(q, b);
      DivModEquation(n, b);
      SnocValue(ToDigits(q, b), q, r, n, b);
    } else {
      SnocValue([], 0, n, n, b);
      assert [] + [n] == ToDigits(n, b);
    }
  }

  /** Appending digit `r` to digits worth `q` gives `q * b + r`. */
  lemma SnocValue(xs: seq<nat>, q: nat, r: nat, n: nat, b: nat)
    requires ValueBE(xs, b) == q && n == q * b + r
    ensures ValueBE(xs + [r], b) == n
  {
    assert (xs + [r])[..|xs|] == xs;
  }

  lemma QuotientSmaller(n: nat, b: nat)
    requires b >= 2 && n >= 1
    ensures n / b < n
  {}

  lemma ToDigitsStep(n: nat, b: nat)
    requires 2 <= b <= 16 && n >= b
    ensures ToDigits(n, b) == ToDigits(n / b, b) + [n % b]
  {}

  lemma DivModEquation(n: int, b: int)
    requires b > 0
    ensures n == (n / b) * b + n % b
  {}

  lemma ValueSnoc(xs: seq<nat>, d: nat, b: nat)
    ensures ValueBE(xs + [d], b) == ValueBE(xs, b) * b + d
  {
    assert (xs + [d])[..|xs|] == xs;
  }

  /** Reading a numeral back gives the number. */
  lemma NumeralValue(n: nat, b: nat)
    requires 2 <= b <= 16
    ensures ValueOf(Numeral(n, b), b) == n
  {
    DigitsOfNumeral(n, b);
    ToDigitsValue(n, b);
  }

  /** The strings `Integer#to_s(b)` can produce: non-empty, base-`b` digits,
      and no leading zero unless the string is `"0"`. */
  predicate Canonical(s: string, b: nat)
  {
    && |s| >= 1
    && (forall i :: 0 <= i < |s| ==> IsBaseDigit(s[i], b))
    && (|s| == 1 || s[0] != '0')
  }

  lemma {:induction false} LeadingNonZero(ds: seq<nat>, b: nat)
    requires b >= 2 && |ds| >= 1 && ds[0] > 0
    ensures ValueBE(ds, b) >= 1
    decreases |ds|
  {
    if |ds| > 1 {
      LeadingNonZero(ds[..|ds| - 1], b);
    }
  }

  /** A canonical numeral is the numeral of its own value. */
  lemma {:induction false} CanonicalNumeral(s: string, b: nat)
    requires 2 <= b <= 16 && Canonical(s, b)
    ensures AllChars(s, IsHexDigit)
    ensures Numeral(ValueOf(s, b), b) == s
    decreases |s|
  {
    assert AllChars(s, IsHexDigit);
    var ds := Digits(s);
    if |s| == 1 {
      assert ValueOf(s, b) == ValueBE(ds, b);
      assert ds[..0] == [];
      assert ValueBE(ds, b) == ds[0];
      DigitCharOfValue(s[0]);
    } else {
      var init := s[..|s| - 1];
      assert Canonical(init, b);
      CanonicalNumeral(init, b);
      ValueOfSnoc(s, b);
      var v := ValueOf(init, b);
      assert Digits(init)[0] > 0 by {
        assert init[0] != '0';
        assert IsLowerHexDigit(init[0]);
      }
      LeadingNonZero(Digits(init), b);
      var n, d := ValueOf(s, b), DigitValue(s[|s| - 1]);
      assert n == v * b + d;
      MulAtLeast(v, b);
      DivModUnique(n, b, v, d);
      ToDigitsStep(n, b);
      DigitCharOfValue(s[|s| - 1]);
      var r := Numeral(n, b);
      assert |r| == |s|;
      forall i | 0 <= i < |s|
        ensures r[i] == s[i]
      {
        if i < |s| - 1 {
          assert r[i] == Numeral(v, b)[i];
        }
      }
    }
  }

  lemma NumeralCanonical(n: nat, b: nat)
    requires 2 <= b <= 16
    ensures Canonical(Numeral(n, b), b)
  {
    var ds := ToDigits(n, b);
    if |ds| > 1 {
      assert DigitChar(ds[0]) != '0';
    }
  }

  lemma QuotientBelow(n: nat, b: nat, p: nat)
    requires b > 0 && n < b * p
    ensures n / b < p
  {
    var q, r := n / b, n % b;
    assert n == q * b + r;
    assert (p - q) * b > 0;
    PositiveFactor(p - q, b);
  }

  lemma PositiveFactor(x: int, b: int)
    requires b > 0 && x * b > 0
    ensures x > 0
  {}

  /** A number below `b^k` has at most `k` digits. */
  lemma NumeralLength(n: nat, b: nat, k: nat)
    requires 2 <= b <= 16 && k >= 1 && n < Power(b, k)
    ensures |Numeral(n, b)| <= k
  {
    ToDigitsLength(n, b, k);
  }

  lemma {:induction false} ToDigitsLength(n: nat, b: nat, k: nat)
    requires 2 <= b <= 16 && k >= 1 && n < Power(b, k)
    ensures |ToDigits(n, b)| <= k
    decreases n
  {
    if n >= b {
      ShorterQuotient(n, b, k);
      QuotientSmaller(n, b);
      ToDigitsLength(n / b, b, k - 1);
      ToDigitsStep(n, b);
    }
  }

  lemma ShorterQuotient(n: nat, b: nat, k: nat)
    requires 2 <= b && b <= n && k >= 1 && n < Power(b, k)
    ensures k >= 2 && n / b < Power(b, k - 1)
  {
    var p := Power(b, k - 1);
    assert Power(b, k) == b * p;
    assert k == 1 ==> p == 1;
    QuotientBelow(n, b, p);
  }
}
