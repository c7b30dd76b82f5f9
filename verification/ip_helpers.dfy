/** The methods `ip_helpers.rb` adds to `Integer`: turning a number into an
    `IPAddr` or its text, and counting how many low bits of a number are
    clear (`max_mask_bits`). */
module IpHelpers {
  import opened Arith
  import opened Numerals
  import opened Results
  import opened IpAddresses

  /** `Integer#to_ipaddr(ipver)`: the low 32 bits as an IPv4 address for
      version 4, the low 128 bits as an IPv6 address for version 6, and an
      `ArgumentError` for any other version. */
  function ToIpaddr(n: int, ipver: int := 4): (r: Result<IpAddress>)
    ensures r.Ok? <==> ipver == 4 || ipver == 6
    ensures r.Err? ==> r.error == UnsupportedVersion(ipver)
    ensures r.Ok? ==> Valid(r.value) && r.value.prefix == Width(r.value.family)
    ensures ipver == 4 ==> r.value.family == V4 && r.value.bits == n % TWO32
    ensures ipver == 6 ==> r.value.family == V6 && r.value.bits == n % TWO128
  {
    if ipver == 4 then Ok(FromNumericV4(n))
    else if ipver == 6 then Ok(FromNumericV6(n))
    else Err(UnsupportedVersion(ipver))
  }

  /** `Integer#to_ip(ipver)`: the text of `to_ipaddr(ipver)`. */
  function ToIp(n: int, ipver: int := 4): (r: Result<string>)
    ensures r.Ok? <==> ipver == 4 || ipver == 6
    ensures r.Err? ==> r.error == UnsupportedVersion(ipver)
  {
    var a :- ToIpaddr(n, ipver);
    Ok(ToS(a))
  }

  /** The `IPAddr` helpers and the `from_numeric` constructors build the
      same address. */
  lemma ToIpaddrFromNumeric(n: int)
    ensures ToIpaddr(n, 4) == Ok(FromNumeric(V4, n))
    ensures ToIpaddr(n, 6) == Ok(FromNumeric(V6, n))
  {}

  /** The text `to_ip` prints reads back, through `IPAddr.new`, as the
      number reduced to the family's width, with a full prefix. */
  lemma ToIpCreate(n: int, ipver: int)
    requires ipver == 4 || ipver == 6
    ensures var f := if ipver == 4 then V4 else V6;
      Create(ToIp(n, ipver).value) == Ok(IpAddress(f, n % Span(f), Width(f)))
  {
    CreateToS(ToIpaddr(n, ipver).value);
  }

  /** The integer of any address prints, through `to_ip`, as the address. */
  lemma ToIpOfAddress(a: IpAddress)
    requires Valid(a)
    ensures ToIp(a.bits, if a.family == V4 then 4 else 6) == Ok(ToS(a))
  {
    DivModUnique(a.bits, Span(a.family), 0, a.bits);
  }

  // -------------------------------------------------------- max_mask_bits

  /** `Integer#to_s(2)`: base-2 digits, with a `-` in front of a negative
      number. */
  function Binary(n: int): string
  {
    if n < 0 then "-" + Numeral(-n, 2) else Numeral(n, 2)
  }

  /** The number of `0` characters at the end of `s`: the length of the
      capture of `/(0*)$/`, whose leftmost match on a one-line string is the
      run of zeros that reaches the end. */
  function TrailingZeros(s: string): (k: nat)
    ensures k <= |s|
  {
    if |s| == 0 || s[|s| - 1] != '0' then 0 else 1 + TrailingZeros(s[..|s| - 1])
  }

  /** `Integer#max_mask_bits`. */
  function MaxMaskBits(n: int): nat
  {
    TrailingZeros(Binary(n))
  }

  /** The exponent of the largest power of two dividing a positive `m`. */
  function TwoAdic(m: nat): (k: nat)
    requires m >= 1
    decreases m
  {
    if m % 2 == 1 then 0 else 1 + TwoAdic(m / 2)
  }

  /** `TwoAdic` is the reference it claims to be: `2^k` divides `m` and the
      quotient is odd. */
  lemma {:induction false} TwoAdicDivides(m: nat)
    requires m >= 1
    ensures m % Power(2, TwoAdic(m)) == 0
    ensures (m / Power(2, TwoAdic(m))) % 2 == 1
    decreases m
  {
    if m % 2 == 0 {
      var h := m / 2;
      DivModUnique(m, 2, h, 0);
      TwoAdicDivides(h);
      var k := TwoAdic(h);
      var p := Power(2, k);
      var q := h / p;
      assert h == q * p by {
        DivModUnique(h, p, q, 0);
      }
      assert m == q * (2 * p);
      DivModUnique(m, 2 * p, q, 0);
    } else {
      DivModUnique(m, 1, m, 0);
    }
  }

  /** The digits of a number at least `b` are those of its quotient followed
      by the digit of its remainder. */
  lemma NumeralSnoc(n: nat, b: nat)
    requires 2 <= b <= 16 && n >= b
    ensures Numeral(n, b) == Numeral(n / b, b) + [DigitChar(n % b)]
  {
    ToDigitsStep(n, b);
    var l, r := Numeral(n, b), Numeral(n / b, b) + [DigitChar(n % b)];
    assert |l| == |r|;
    assert forall i :: 0 <= i < |l| ==> l[i] == r[i];
  }

  /** The trailing zeros of a binary numeral, whatever precedes it, count
      the factors of two. */
  lemma {:induction false} TrailingZerosNumeral(pre: string, m: nat)
    requires m >= 1
    ensures TrailingZeros(pre + Numeral(m, 2)) == TwoAdic(m)
    decreases m
  {
    if m == 1 {
      assert Numeral(1, 2) == "1";
    } else {
      var s, init := pre + Numeral(m, 2), pre + Numeral(m / 2, 2);
      assert s == init + [DigitChar(m % 2)] by {
        NumeralSnoc(m, 2);
      }
      assert s[..|s| - 1] == init && s[|s| - 1] == DigitChar(m % 2);
      QuotientSmaller(m, 2);
      TrailingZerosNumeral(pre, m / 2);
    }
  }

  /** `max_mask_bits` of a non-zero number is the exponent of the largest
      power of two dividing it, the sign aside. */
  lemma MaxMaskBitsTwoAdic(n: int)
    requires n != 0
    ensures MaxMaskBits(n) == TwoAdic(if n < 0 then -n else n)
  {
    if n < 0 {
      TrailingZerosNumeral("-", -n);
    } else {
      TrailingZerosNumeral([], n);
      assert [] + Numeral(n, 2) == Numeral(n, 2);
    }
  }

  /** Zero prints as `"0"`, so `max_mask_bits` counts one bit for it. */
  lemma MaxMaskBitsZero()
    ensures MaxMaskBits(0) == 1
  {
    assert Numeral(0, 2) == "0";
  }
}
