/** The address values of `Iface::IpAddress` and its two subclasses
    `IpV4Address` and `IpV6Address`.

    An address is its family, its integer and its prefix length. Ruby keeps
    the mask (`@mask_addr`) rather than the prefix length; the masks `IPAddr`
    builds are always contiguous, so the mask is `MaskAddr(family, prefix)`
    and `cidr_mask` recovers the prefix from it (`CidrMask`). */
module IpAddresses {
  import opened Arith
  import opened Text
  import opened Numerals
  import opened Results
  import opened IpText

  /** Which of the two subclasses an address belongs to. */
  datatype Family = V4 | V6

  /** `full_cidr_mask`: 32 or 128. */
  function Width(f: Family): nat
  {
    if f == V4 then 32 else 128
  }

  /** One more than the largest address of the family. */
  function Span(f: Family): (s: nat)
    ensures s == Power(2, Width(f))
  {
    PowerTwoLiterals();
    if f == V4 then TWO32 else TWO128
  }

  /** `full_mask`: `IPAddr::IN4MASK` or `IPAddr::IN6MASK`, all ones. */
  function FullMask(f: Family): nat
  {
    Span(f) - 1
  }

  datatype IpAddress = IpAddress(family: Family, bits: nat, prefix: nat)

  /** The number of addresses a prefix covers. */
  function HostSize(f: Family, p: nat): (h: nat)
    requires p <= Width(f)
    ensures 1 <= h <= Span(f)
  {
    PowerMonotone(2, Width(f) - p, Width(f));
    Power(2, Width(f) - p)
  }

  /** The address fits its family, the prefix its width, and the host bits
      below the prefix are clear (as `IPAddr` leaves them). */
  predicate Valid(a: IpAddress)
  {
    && a.prefix <= Width(a.family)
    && a.bits < Span(a.family)
    && a.bits % HostSize(a.family, a.prefix) == 0
  }

  /** `@mask_addr` for a prefix: the top `p` bits set, the rest clear. */
  function MaskAddr(f: Family, p: nat): (m: nat)
    requires p <= Width(f)
    ensures m <= FullMask(f)
  {
    Span(f) - HostSize(f, p)
  }

  // ------------------------------------------------------------ cidr_mask

  /** The integer ceiling of log2: the least `r` with `d <= 2^r`. */
  function CeilLog2(d: nat): (r: nat)
    ensures d <= Power(2, r)
    ensures d >= 2 ==> r >= 1 && Power(2, r - 1) < d
    ensures d <= 1 ==> r == 0
    decreases d
  {
    if d <= 1 then 0 else 1 + CeilLog2((d + 1) / 2)
  }

  /** Only one exponent satisfies the ceiling bounds. */
  lemma CeilLog2Unique(d: nat, k: nat)
    requires k >= 1 && Power(2, k - 1) < d <= Power(2, k)
    ensures CeilLog2(d) == k
  {
    var r := CeilLog2(d);
    assert Power(2, 0) == 1;
    PowerOrder(2, k - 1, r);
    PowerOrder(2, r - 1, k);
  }

  lemma CeilLog2AtMost(d: nat, k: nat)
    requires d <= Power(2, k)
    ensures CeilLog2(d) <= k
  {
    if d >= 2 {
      PowerOrder(2, CeilLog2(d) - 1, k);
    }
  }

  /** `cidr_mask` for a stored mask: with `diff = full_mask - mask`, the
      full width when `diff` is 0, one less when it is 1, and otherwise the
      width less the ceiling of `log2(diff)`. */
  function CidrOfMask(f: Family, mask: nat): (r: nat)
    requires mask <= FullMask(f)
    ensures r <= Width(f)
    ensures mask == FullMask(f) ==> r == Width(f)
    ensures mask + 1 == FullMask(f) ==> r + 1 == Width(f)
    ensures FullMask(f) - mask >= 2 ==>
      r < Width(f) && Power(2, Width(f) - r - 1) < FullMask(f) - mask <= Power(2, Width(f) - r)
  {
    var diff := FullMask(f) - mask;
    if diff == 0 then Width(f)
    else if diff == 1 then Width(f) - 1
    else
      CeilLog2AtMost(diff, Width(f));
      Width(f) - CeilLog2(diff)
  }

  /** The piecewise rule recovers the prefix length of every contiguous mask. */
  lemma ContiguousCidr(f: Family, p: nat)
    requires p <= Width(f)
    ensures CidrOfMask(f, MaskAddr(f, p)) == p
  {
    var j := Width(f) - p;
    var h := HostSize(f, p);
    var m := MaskAddr(f, p);
    assert FullMask(f) - m == h - 1;
    assert h == Power(2, j);
    if j == 0 {
      assert h == 1;
    } else if j == 1 {
      assert h == 2 by {
        assert Power(2, 1) == 2 * Power(2, 0);
      }
    } else {
      assert CeilLog2(h - 1) == j by {
        CeilLog2BelowPower(j, h - 1);
      }
      CidrOfLargeDiff(f, m, j);
    }
  }

  /** One less than `2^j` still needs `j` bits, for `j >= 2`. */
  lemma CeilLog2BelowPower(j: nat, d: nat)
    requires j >= 2 && d + 1 == Power(2, j)
    ensures CeilLog2(d) == j
  {
    PowerGap(j);
    CeilLog2Unique(d, j);
  }

  lemma CidrOfLargeDiff(f: Family, m: nat, j: nat)
    requires m <= FullMask(f) && FullMask(f) - m >= 2
    requires j <= Width(f) && CeilLog2(FullMask(f) - m) == j
    ensures CidrOfMask(f, m) == Width(f) - j
  {}

  lemma PowerGap(j: nat)
    requires j >= 2
    ensures Power(2, j - 1) + 1 < Power(2, j)
  {
    var p := Power(2, j - 1);
    assert Power(2, j) == 2 * p;
    PowerMonotone(2, 1, j - 1);
    assert Power(2, 1) == 2;
  }

  /** `cidr_mask` of an address: its prefix length. */
  function CidrMask(a: IpAddress): (r: nat)
    requires Valid(a)
    ensures r == a.prefix
  {
    ContiguousCidr(a.family, a.prefix);
    CidrOfMask(a.family, MaskAddr(a.family, a.prefix))
  }

  // -------------------------------------------------------- construction

  /** `addr.split('/', 2)`: the text before the first `/` and, when there is
      one, the text after it. */
  function SplitPrefix(t: string): (r: (string, Option<string>))
    ensures '/' !in r.0
    ensures r.1.None? ==> r.0 == t
    ensures r.1.Some? ==> t == r.0 + "/" + r.1.value
  {
    if |t| == 0 then ("", None)
    else if t[0] == '/' then ("", Some(t[1..]))
    else
      var rest := SplitPrefix(t[1..]);
      ([t[0]] + rest.0, rest.1)
  }

  /** The prefix length after a `/`: decimal without leading zeros, at most
      the family's width. */
  function ParsePrefix(f: Family, t: string): (r: Result<nat>)
    ensures r.Ok? ==> r.value <= Width(f) && Decimal(r.value) == t
  {
    if Canonical(t, 10) && ValueOf(t, 10) <= Width(f) then
      CanonicalNumeral(t, 10);
      Ok(ValueOf(t, 10))
    else
      Err(InvalidAddress(t))
  }

  lemma ParsePrefixDecimal(f: Family, p: nat)
    requires p <= Width(f)
    ensures ParsePrefix(f, Decimal(p)) == Ok(p)
  {
    NumeralCanonical(p, 10);
    NumeralValue(p, 10);
  }

  /** The family and integer of an address text: IPv4 is tried first, then
      IPv6, as `IPAddr#initialize` does. */
  function ParseAddress(t: string): (r: Result<(Family, nat)>)
    ensures r.Ok? ==> r.value.1 < Span(r.value.0)
    ensures r.Ok? ==> (r.value.0 == V4 <==> ParseV4(t).Some?)
    ensures r.Ok? && r.value.0 == V4 ==> ParseV4(t) == Some(r.value.1)
    ensures r.Ok? && r.value.0 == V6 ==> ParseV6(t) == Some(r.value.1)
    ensures r.Err? <==> ParseV4(t).None? && ParseV6(t).None?
  {
    match ParseV4(t)
    case Some(n) => Ok((V4, n))
    case None =>
      match ParseV6(t)
      case Some(n) => Ok((V6, n))
      case None => Err(InvalidAddress(t))
  }

  /** `IpAddress.create` (and `IPAddr.new`): an address with an optional
      `/prefix`. Without a prefix the mask is full; with one, the host bits
      of the address are cleared. */
  function Create(text: string): (r: Result<IpAddress>)
    ensures r.Ok? ==> Valid(r.value)
    ensures r.Ok? ==> (r.value.family == V4 <==> ParseV4(SplitPrefix(text).0).Some?)
    ensures ParseAddress(SplitPrefix(text).0).Err? ==> r.Err?
    ensures r.Ok? && SplitPrefix(text).1.None? ==> r.value.prefix == Width(r.value.family)
  {
    var parts := SplitPrefix(text);
    var fn :- ParseAddress(parts.0);
    var f, n := fn.0, fn.1;
    match parts.1
    case None =>
      assert HostSize(f, Width(f)) == 1;
      Ok(IpAddress(f, n, Width(f)))
    case Some(l) =>
      var p :- ParsePrefix(f, l);
      Ok(IpAddress(f, ClearHost(n, HostSize(f, p)), p))
  }

  /** `((addr >> masklen) << masklen)`: the address with its `h - 1` low
      host values cleared, that is, rounded down to a multiple of `h`. */
  function ClearHost(n: nat, h: nat): (m: nat)
    requires h >= 1
    ensures m <= n && m % h == 0 && n - m < h
  {
    var m := (n / h) * h;
    DivModUnique(m, h, n / h, 0);
    m
  }

  /** `IpV4Address.new(text)`: as `Create`, but an IPv6 address is refused. */
  function V4Address(text: string): (r: Result<IpAddress>)
    ensures r.Ok? ==> r.value.family == V4 && Valid(r.value)
    ensures Create(text).Ok? && Create(text).value.family == V6 ==> r == Err(WrongFamily(text))
    ensures Create(text).Ok? && Create(text).value.family == V4 ==> r == Create(text)
    ensures Create(text).Err? ==> r.Err?
  {
    var a :- Create(text);
    if a.family != V4 then Err(WrongFamily(text)) else Ok(a)
  }

  /** `IpV6Address.new(text)`: as `Create`, but an IPv4 address is refused. */
  function V6Address(text: string): (r: Result<IpAddress>)
    ensures r.Ok? ==> r.value.family == V6 && Valid(r.value)
    ensures Create(text).Ok? && Create(text).value.family == V4 ==> r == Err(WrongFamily(text))
    ensures Create(text).Ok? && Create(text).value.family == V6 ==> r == Create(text)
    ensures Create(text).Err? ==> r.Err?
  {
    var a :- Create(text);
    if a.family != V6 then Err(WrongFamily(text)) else Ok(a)
  }

  // ------------------------------------------------------ text, integers

  /** `to_s`: the address alone, without the prefix. */
  function ToS(a: IpAddress): string
    requires a.bits < Span(a.family)
  {
    if a.family == V4 then ShowV4(a.bits) else ShowV6(a.bits)
  }

  /** Printing an address and creating one from the text gives the same
      address with a full mask. */
  lemma CreateToS(a: IpAddress)
    requires a.bits < Span(a.family)
    ensures Create(ToS(a)) == Ok(IpAddress(a.family, a.bits, Width(a.family)))
  {
    var t := ToS(a);
    if a.family == V4 {
      ParseShowV4(a.bits);
      assert '/' !in t by {
        DottedQuadChars(t);
      }
    } else {
      ParseShowV6(a.bits);
      V4NotV6(a.bits);
      assert '/' !in t by {
        ShowV6Chars(a.bits);
      }
    }
    assert SplitPrefix(t).1.None?;
  }

  /** Dotted-quad text contains only digits and dots. */
  lemma DottedQuadChars(t: string)
    requires ParseV4(t).Some?
    ensures '/' !in t && ':' !in t
  {
    var fs := SplitOn(t, '.');
    var p := (c: char) => IsDigit(c) || c == '.';
    JoinSplitOn(t, '.');
    forall i | 0 <= i < |fs|
      ensures AllChars(fs[i], p)
    {
      assert IsOctetText(fs[i]);
      forall k | 0 <= k < |fs[i]|
        ensures p(fs[i][k])
      {
        assert IsBaseDigit(fs[i][k], 10);
      }
    }
    JoinChars(fs, ".", p);
  }

  lemma ShowV6Chars(n: nat)
    requires n < TWO128
    ensures '/' !in ShowV6(n)
  {
    ShowGroupsChars(Groups(n));
  }

  predicate IsV6TextChar(c: char) { IsLowerHexDigit(c) || c == ':' }

  lemma ShowGroupsChars(gs: seq<nat>)
    ensures '/' !in ShowGroups(gs)
  {
    var hs := HexGroups(gs);
    HexGroupsChars(gs);
    var start := LongestRun(gs, 0);
    var len := ZeroRun(gs, start);
    if ZeroRun(gs, start) >= 2 {
      JoinChars(hs[..start], ":", IsV6TextChar);
      JoinChars(hs[start + len..], ":", IsV6TextChar);
      SlashFree(Compress(hs, start, len));
    } else {
      JoinChars(hs, ":", IsV6TextChar);
      SlashFree(Join(hs, ":"));
    }
  }

  lemma HexGroupsChars(gs: seq<nat>)
    ensures forall i :: 0 <= i < |gs| ==> AllChars(HexGroups(gs)[i], IsV6TextChar)
  {
    forall i | 0 <= i < |gs|
      ensures AllChars(HexGroups(gs)[i], IsV6TextChar)
    {
      var h := HexGroups(gs)[i];
      assert forall k :: 0 <= k < |h| ==> IsBaseDigit(h[k], 16);
    }
  }

  lemma SlashFree(t: string)
    requires AllChars(t, IsV6TextChar)
    ensures '/' !in t
  {
    assert forall k :: 0 <= k < |t| ==> t[k] != '/';
  }

  /** No text reads both as IPv4 and as IPv6. */
  lemma V4V6Disjoint(t: string)
    ensures ParseV4(t).Some? ==> ParseV6(t).None?
  {
    if ParseV4(t).Some? {
      DottedQuadChars(t);
      ColonFree(t);
    }
  }

  /** The IPv6 text of an address is never read as IPv4. */
  lemma V4NotV6(n: nat)
    requires n < TWO128
    ensures ParseV4(ShowV6(n)).None?
  {
    ParseShowV6(n);
    V4V6Disjoint(ShowV6(n));
  }

  /** Text without a colon is not IPv6 text. */
  lemma ColonFree(t: string)
    requires ':' !in t
    ensures ParseV6(t).None?
  {
    FindNone(t, 0);
    SplitOnNone(t, ':');
  }

  lemma {:induction false} FindNone(t: string, i: nat)
    requires i <= |t| && NoAdjacent(t, ':')
    ensures FindDoubleColon(t, i) == None
    decreases |t| - i
  {
    if i + 1 < |t| {
      FindNone(t, i + 1);
    }
  }

  /** Every IPv4 text `IPAddr` accepts prints back unchanged. */
  lemma CreateToSV4(t: string)
    requires ParseV4(t).Some?
    ensures Create(t).Ok? && Create(t).value.family == V4
    ensures ToS(Create(t).value) == t
  {
    DottedQuadChars(t);
    ShowParseV4(t);
    assert SplitPrefix(t).1.None?;
  }

  /** `[n].pack('N')`: the four big-endian bytes of `n` modulo 2^32. */
  function PackN(n: int): (bytes: seq<nat>)
    ensures |bytes| == 4 && AllBelow(bytes, 256)
  {
    DigitsBE(n, 4, 256)
  }

  /** `words.pack('N*')`. */
  function PackWords(words: seq<int>): (bytes: seq<nat>)
    ensures |bytes| == 4 * |words| && AllBelow(bytes, 256)
  {
    if |words| == 0 then [] else PackWords(words[..|words| - 1]) + PackN(words[|words| - 1])
  }

  /** `IPAddr.new_ntoh`: the integer of a big-endian byte string. */
  function Ntoh(bytes: seq<nat>): nat
  {
    ValueBE(bytes, 256)
  }

  /** The four words of `IpV6Address.from_numeric` and `Integer#to_ipaddr6`:
      `n >> 96` and `n >> 64`, `n >> 32`, `n`, each of the last three
      masked with `MASK_32`, which is in fact 64 bits wide. Shifts are floor
      divisions and `&` on a negative number acts on its two's complement,
      so both are Euclidean here. */
  function V6Words(n: int): seq<int>
  {
    [n / TWO96, n / TWO64 % TWO64, n / TWO32 % TWO64, n % TWO64]
  }

  /** `IpV4Address.from_numeric(n)`: the address of the low 32 bits of `n`. */
  function FromNumericV4(n: int): (a: IpAddress)
    ensures Valid(a) && a.family == V4 && a.prefix == 32
    ensures a.bits == n % TWO32
  {
    PowerLiterals();
    ValueOfDigits(n, 4, 256);
    IpAddress(V4, Ntoh(PackN(n)), 32)
  }

  /** `IpV6Address.from_numeric(n)`: the address of the low 128 bits of `n`.
      Only the low 32 bits of each packed word survive, so the 64-bit mask
      makes no difference. */
  function FromNumericV6(n: int): (a: IpAddress)
    ensures Valid(a) && a.family == V6 && a.prefix == 128
    ensures a.bits == n % TWO128
  {
    FromWordsValue(n);
    IpAddress(V6, Ntoh(PackWords(V6Words(n))), 128)
  }

  function FromNumeric(f: Family, n: int): (a: IpAddress)
  {
    if f == V4 then FromNumericV4(n) else FromNumericV6(n)
  }

  /** Packing words and reading the bytes back is reading the words modulo
      2^32 as base-2^32 digits. */
  lemma {:induction false} PackWordsValue(words: seq<int>)
    ensures Ntoh(PackWords(words)) == ValueBE(seq(|words|, i requires 0 <= i < |words| => words[i] % TWO32), TWO32)
  {
    PowerLiterals();
    var low := seq(|words|, i requires 0 <= i < |words| => words[i] % TWO32);
    if |words| > 0 {
      var init, last := words[..|words| - 1], words[|words| - 1];
      PackWordsValue(init);
      ValueAppend(PackWords(init), PackN(last), 256);
      ValueOfDigits(last, 4, 256);
      assert low[..|low| - 1] == seq(|init|, i requires 0 <= i < |init| => init[i] % TWO32);
    }
  }

  lemma FromWordsValue(n: int)
    ensures Ntoh(PackWords(V6Words(n))) == n % TWO128
  {
    var ws := V6Words(n);
    PackWordsValue(ws);
    var low := seq(4, i requires 0 <= i < 4 => ws[i] % TWO32);
    ModMod(n / TWO64, TWO32, TWO32);
    ModMod(n / TWO32, TWO32, TWO32);
    ModMod(n, TWO32, TWO32);
    DivDiv(n, TWO32, TWO32);
    DivDiv(n, TWO64, TWO32);
    assert low == DigitsBE(n, 4, TWO32);
    ValueOfDigits(n, 4, TWO32);
    PowerLiterals();
  }

  /** `from_numeric` of an address's integer is that address (equality
      ignores the prefix). */
  lemma FromNumericToI(a: IpAddress)
    requires Valid(a)
    ensures Same(FromNumeric(a.family, a.bits), a)
  {
    DivModUnique(a.bits, Span(a.family), 0, a.bits);
  }

  /** `==`: same subclass and same integer; the prefix does not count. */
  predicate Same(a: IpAddress, b: IpAddress)
  {
    a.family == b.family && a.bits == b.bits
  }

  /** Two addresses of a family are equal exactly when they print the same. */
  lemma SameIffSameText(a: IpAddress, b: IpAddress)
    requires Valid(a) && Valid(b) && a.family == b.family
    ensures Same(a, b) <==> ToS(a) == ToS(b)
  {
    if ToS(a) == ToS(b) {
      CreateToS(a);
      CreateToS(b);
    }
  }
}
