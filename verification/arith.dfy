/** Integer facts shared by the address and numeral code: Euclidean division,
    powers, and big-endian digit sequences in an arbitrary base. IPv4
    addresses are four base-256 digits, IPv6 addresses eight base-65536
    groups or four base-2^32 words, and numerals are base-10 or base-16
    digit strings; all of them are instances of `ValueBE` / `DigitsBE`. */
module Arith {

  const TWO32: nat := 0x1_0000_0000
  const TWO64: nat := 0x1_0000_0000_0000_0000
  const TWO96: nat := 0x1_0000_0000_0000_0000_0000_0000
  const TWO128: nat := 0x1_0000_0000_0000_0000_0000_0000_0000_0000

  function Power(b: nat, k: nat): (r: nat)
    ensures b > 0 ==> r > 0
  {
    if k == 0 then 1 else b * Power(b, k - 1)
  }

  /** The number written by the big-endian digit sequence `ds` in base `b`. */
  function ValueBE(ds: seq<nat>, b: nat): nat
  {
    if |ds| == 0 then 0 else ValueBE(ds[..|ds| - 1], b) * b + ds[|ds| - 1]
  }

  /** The `k` low-order base-`b` digits of `n`, most significant first.
      Division is floor division, so a negative `n` yields the digits of its
      two's-complement representation, as Ruby's shifts and masks do. */
  function DigitsBE(n: int, k: nat, b: nat): (r: seq<nat>)
    requires b > 0
    ensures |r| == k && AllBelow(r, b)
    decreases k
  {
    if k == 0 then []
    else
      var hi := DigitsBE(n / b, k - 1, b);
      var lo: nat := n % b;
      hi + [lo]
  }

  predicate AllBelow(ds: seq<nat>, b: nat)
  {
    forall i :: 0 <= i < |ds| ==> ds[i] < b
  }

  lemma MulAtLeast(k: int, d: int)
    requires k >= 1 && d > 0
    ensures k * d >= d
  {}

  lemma SmallMultipleIsZero(k: int, d: int)
    requires d > 0 && -d < k * d < d
    ensures k == 0
  {
    if k >= 1 {
      MulAtLeast(k, d);
    } else if k <= -1 {
      MulAtLeast(-k, d);
    }
  }

  /** Quotient and remainder are determined by the division equation. */
  lemma DivModUnique(x: int, d: int, q: int, r: int)
    requires d > 0
    requires x == q * d + r && 0 <= r < d
    ensures x / d == q && x % d == r
  {
    var q0, r0 := x / d, x % d;
    assert x == q0 * d + r0;
    assert (q0 - q) * d == r - r0;
    SmallMultipleIsZero(q0 - q, d);
  }

  /** Splitting off the lowest digit: `n mod b*m` from `n / b mod m`. */
  lemma ModCompose(n: int, b: int, m: int)
    requires b > 0 && m > 0
    ensures (n / b % m) * b + n % b == n % (b * m)
  {
    var q, r := n / b, n % b;
    var hi, lo := q / m, q % m;
    assert q == hi * m + lo;
    assert n == hi * (b * m) + (lo * b + r) by {
      assert n == q * b + r;
      assert q * b == hi * (b * m) + lo * b;
    }
    assert lo * b <= (m - 1) * b;
    DivModUnique(n, b * m, hi, lo * b + r);
  }

  lemma DivDiv(x: int, a: int, b: int)
    requires a > 0 && b > 0
    ensures x / a / b == x / (a * b)
  {
    var q := x / a / b;
    var r := (x / a) % b;
    var s := x % a;
    assert x == (q * b + r) * a + s;
    assert x == q * (a * b) + (r * a + s) by {
      Distribute(q, b, r, a);
    }
    assert r * a + s < a * b by {
      BelowProduct(r, s, a, b);
    }
    DivModUnique(x, a * b, q, r * a + s);
  }

  lemma Distribute(q: int, b: int, r: int, a: int)
    ensures (q * b + r) * a == q * (a * b) + r * a
  {}

  /** A digit below `b` in place `a`, plus a remainder below `a`, stays
      below `a * b`. */
  lemma BelowProduct(r: int, s: int, a: int, b: int)
    requires 0 <= r < b && 0 <= s < a
    ensures 0 <= r * a + s < a * b
  {
    assert r * a <= (b - 1) * a;
  }

  lemma ModMod(x: int, a: int, b: int)
    requires a > 0 && b > 0
    ensures x % (a * b) % a == x % a
  {
    var q := x / (a * b);
    var r := x % (a * b);
    var s := r % a;
    assert r == (r / a) * a + s;
    assert x == (q * b + r / a) * a + s by {
      assert x == q * (a * b) + r;
    }
    DivModUnique(x, a, q * b + r / a, s);
  }

  /** Reading back the digits of `n` gives `n` reduced modulo `b^k`. */
  lemma {:induction false} ValueOfDigits(n: int, k: nat, b: nat)
    requires b > 0
    ensures ValueBE(DigitsBE(n, k, b), b) == n % Power(b, k)
    decreases k
  {
    if k > 0 {
      var ds := DigitsBE(n, k, b);
      var hi := DigitsBE(n / b, k - 1, b);
      assert ds == hi + [n % b];
      assert ds[..k - 1] == hi;
      ValueOfDigits(n / b, k - 1, b);
      var p := Power(b, k - 1);
      assert ValueBE(ds, b) == (n / b % p) * b + n % b;
      ModCompose(n, b, p);
      assert b * p == Power(b, k);
    }
  }

  /** A digit sequence is the digit expansion of its own value. */
  lemma {:induction false} DigitsOfValue(ds: seq<nat>, b: nat)
    requires b > 0 && AllBelow(ds, b)
    ensures DigitsBE(ValueBE(ds, b), |ds|, b) == ds
  {
    if |ds| > 0 {
      var init, last := ds[..|ds| - 1], ds[|ds| - 1];
      DivModUnique(ValueBE(ds, b), b, ValueBE(init, b), last);
      DigitsOfValue(init, b);
    }
  }

  lemma {:induction false} ValueBound(ds: seq<nat>, b: nat)
    requires b > 0 && AllBelow(ds, b)
    ensures ValueBE(ds, b) < Power(b, |ds|)
  {
    if |ds| > 0 {
      var init := ds[..|ds| - 1];
      ValueBound(init, b);
      DigitBelow(ValueBE(init, b), Power(b, |init|), b, ds[|ds| - 1]);
    }
  }

  /** Appending a digit to a number below `p` gives a number below `p * b`. */
  lemma DigitBelow(v: int, p: int, b: int, d: int)
    requires 0 <= v < p && 0 <= d < b
    ensures v * b + d < b * p
  {
    assert v * b <= (p - 1) * b;
  }

  lemma {:induction false} ValueAppend(xs: seq<nat>, ys: seq<nat>, b: nat)
    ensures ValueBE(xs + ys, b) == ValueBE(xs, b) * Power(b, |ys|) + ValueBE(ys, b)
  {
    if |ys| > 0 {
      var yi, d := ys[..|ys| - 1], ys[|ys| - 1];
      assert (xs + ys)[..|xs + ys| - 1] == xs + yi;
      ValueAppend(xs, yi, b);
      ShiftDistributes(ValueBE(xs, b), Power(b, |yi|), ValueBE(yi, b), b, d);
    } else {
      assert xs + ys == xs;
    }
  }

  lemma ShiftDistributes(x: int, p: int, y: int, b: int, d: int)
    ensures (x * p + y) * b + d == x * (b * p) + (y * b + d)
  {}

  /** Two digit sequences of the same length and base with equal values are equal. */
  lemma ValueInjective(xs: seq<nat>, ys: seq<nat>, b: nat)
    requires b > 0 && AllBelow(xs, b) && AllBelow(ys, b) && |xs| == |ys|
    requires ValueBE(xs, b) == ValueBE(ys, b)
    ensures xs == ys
  {
    DigitsOfValue(xs, b);
    DigitsOfValue(ys, b);
  }

  lemma PowerLiterals()
    ensures Power(256, 4) == TWO32
    ensures Power(65536, 8) == TWO128
    ensures Power(TWO32, 4) == TWO128
    ensures Power(16, 2) == 256
  {
    assert Power(256, 2) == 65536;
    assert Power(65536, 2) == TWO32;
    assert Power(65536, 4) == TWO64;
  }

  lemma {:induction false} PowerAdd(b: nat, m: nat, n: nat)
    ensures Power(b, m + n) == Power(b, m) * Power(b, n)
    decreases m
  {
    if m > 0 {
      PowerAdd(b, m - 1, n);
      assert Power(b, m + n) == b * Power(b, m - 1 + n);
    }
  }

  lemma {:induction false} PowerMul(b: nat, m: nat, n: nat)
    ensures Power(b, m * n) == Power(Power(b, m), n)
    decreases n
  {
    if n > 0 {
      assert m * n == m * (n - 1) + m;
      PowerAdd(b, m * (n - 1), m);
      PowerMul(b, m, n - 1);
    }
  }

  lemma {:induction false} PowerMonotone(b: nat, m: nat, n: nat)
    requires b >= 2 && m <= n
    ensures Power(b, m) <= Power(b, n)
    ensures m < n ==> Power(b, m) < Power(b, n)
    decreases n - m
  {
    if m < n {
      PowerMonotone(b, m, n - 1);
      assert Power(b, n) == b * Power(b, n - 1);
    }
  }

  /** Powers of a base of at least two are ordered as their exponents. */
  lemma PowerOrder(b: nat, m: nat, n: nat)
    requires b >= 2
    ensures Power(b, m) < Power(b, n) <==> m < n
    ensures Power(b, m) <= Power(b, n) <==> m <= n
  {
    if m <= n {
      PowerMonotone(b, m, n);
    } else {
      PowerMonotone(b, n, m);
    }
  }

  lemma PowerTwoLiterals()
    ensures Power(2, 8) == 256
    ensures Power(2, 32) == TWO32
    ensures Power(2, 64) == TWO64
    ensures Power(2, 96) == TWO96
    ensures Power(2, 128) == TWO128
  {
    assert Power(2, 4) == 16 by {
      assert Power(2, 2) == 4;
    }
    PowerMul(2, 4, 2);
    PowerMul(2, 4, 8);
    PowerMul(16, 2, 4);
    PowerLiterals();
    PowerMul(2, 32, 2);
    PowerMul(2, 32, 3);
    PowerMul(2, 32, 4);
    assert Power(TWO32, 2) == TWO64 by {
      assert Power(TWO32, 1) == TWO32;
    }
    assert Power(TWO32, 3) == TWO96;
  }
}
