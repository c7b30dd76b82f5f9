/** The textual forms of IP addresses, as Ruby's `IPAddr` reads them
    (`IPAddr.new`) and writes them (`IPAddr#to_s`).

    IPv4: four dot-separated decimal octets, each at most 255 and without a
    leading zero (Ruby rejects zero-filled octets as ambiguous).

    IPv6: the full form of eight colon-separated groups of one to four hex
    digits, or the compressed form in which `::` stands for one or more zero
    groups (section 2.2 of RFC 4291, forms 1 and 2). Printing writes each
    group in lower-case hex without leading zeros and replaces the leftmost
    longest run of two or more zero groups by `::`. */
module IpText {
  import opened Arith
  import opened Text
  import opened Numerals
  import opened Results

  // ---------------------------------------------------------------- IPv4

  /** The four octets of a 32-bit address, most significant first. */
  function Octets(n: nat): (os: seq<nat>)
    requires n < TWO32
    ensures |os| == 4 && AllBelow(os, 256) && ValueBE(os, 256) == n
  {
    PowerLiterals();
    ValueOfDigits(n, 4, 256);
    DigitsBE(n, 4, 256)
  }

  /** One octet as `IPAddr` accepts it: decimal, below 256, no zero fill. */
  predicate IsOctetText(t: string)
  {
    Canonical(t, 10) && ValueOf(t, 10) < 256
  }

  /** `IPAddr#to_s` of an IPv4 address: the dotted quad. */
  function ShowV4(n: nat): string
    requires n < TWO32
  {
    var os := Octets(n);
    Join(seq(4, i requires 0 <= i < 4 => Decimal(os[i])), ".")
  }

  /** The IPv4 reading of `IPAddr.new`: `None` when the text is not a
      dotted quad of valid octets. */
  function ParseV4(t: string): (r: Option<nat>)
    ensures r.Some? ==> r.value < TWO32
  {
    var fs := SplitOn(t, '.');
    if |fs| == 4 && forall i :: 0 <= i < 4 ==> IsOctetText(fs[i]) then
      var os := seq(4, i requires 0 <= i < 4 => ValueOf(fs[i], 10));
      ValueBound(os, 256);
      PowerLiterals();
      Some(ValueBE(os, 256))
    else
      None
  }

  /** Every IPv4 address prints to a text that reads back as itself. */
  lemma ParseShowV4(n: nat)
    requires n < TWO32
    ensures ParseV4(ShowV4(n)) == Some(n)
  {
    var os := Octets(n);
    var parts := seq(4, i requires 0 <= i < 4 => Decimal(os[i]));
    forall i | 0 <= i < 4
      ensures '.' !in parts[i] && IsOctetText(parts[i]) && ValueOf(parts[i], 10) == os[i]
    {
      NumeralCanonical(os[i], 10);
      NumeralValue(os[i], 10);
    }
    SplitJoin(parts, '.');
    var vs := seq(4, i requires 0 <= i < 4 => ValueOf(parts[i], 10));
    assert vs == os;
  }

  /** A text `IPAddr` accepts as IPv4 is exactly the text it prints for the
      address: IPv4 text is canonical. */
  lemma ShowParseV4(t: string)
    requires ParseV4(t).Some?
    ensures ShowV4(ParseV4(t).value) == t
  {
    var fs := SplitOn(t, '.');
    var vs := seq(4, i requires 0 <= i < 4 => ValueOf(fs[i], 10));
    var n := ParseV4(t).value;
    assert n == ValueBE(vs, 256);
    PowerLiterals();
    DigitsOfValue(vs, 256);
    assert Octets(n) == vs;
    forall i | 0 <= i < 4
      ensures Decimal(vs[i]) == fs[i]
    {
      CanonicalNumeral(fs[i], 10);
    }
    assert seq(4, i requires 0 <= i < 4 => Decimal(vs[i])) == fs;
    JoinSplitOn(t, '.');
  }

  // ---------------------------------------------------------------- IPv6

  const GROUP: nat := 65536

  /** The eight 16-bit groups of a 128-bit address, most significant first. */
  function Groups(n: nat): (gs: seq<nat>)
    requires n < TWO128
    ensures |gs| == 8 && AllBelow(gs, GROUP) && ValueBE(gs, GROUP) == n
  {
    GroupDigitsValue(n);
    DigitsBE(n, 8, GROUP)
  }

  lemma GroupDigitsValue(n: nat)
    requires n < TWO128
    ensures ValueBE(DigitsBE(n, 8, GROUP), GROUP) == n
  {
    ValueOfDigits(n, 8, GROUP);
    PowerLiterals();
    DivModUnique(n, TWO128, 0, n);
  }

  /** One group as `IPAddr` accepts it: one to four hex digits, either case. */
  predicate IsGroupText(t: string)
  {
    1 <= |t| <= 4 && AllChars(t, IsHexDigit)
  }

  lemma GroupValueBound(t: string)
    requires IsGroupText(t)
    ensures ValueOf(t, 16) < GROUP
  {
    ValueBound(Digits(t), 16);
    assert Power(16, 2) == 256;
    assert Power(16, 4) == GROUP;
  }

  /** The groups of a colon-separated list; `None` if any field is not a group. */
  function ParseGroups(t: string): (r: Option<seq<nat>>)
    ensures r.Some? ==> |r.value| == |SplitOn(t, ':')| && AllBelow(r.value, GROUP)
  {
    var fs := SplitOn(t, ':');
    if forall i :: 0 <= i < |fs| ==> IsGroupText(fs[i]) then
      var gs := seq(|fs|, i requires 0 <= i < |fs| => ValueOf(fs[i], 16));
      assert forall i :: 0 <= i < |fs| ==> gs[i] < GROUP by {
        forall i | 0 <= i < |fs|
          ensures gs[i] < GROUP
        {
          GroupValueBound(fs[i]);
        }
      }
      Some(gs)
    else
      None
  }

  /** One side of a `::`: empty, or a colon-separated list of groups. */
  function ParseHalf(t: string): (r: Option<seq<nat>>)
    ensures r.Some? ==> AllBelow(r.value, GROUP)
  {
    if t == "" then Some([]) else ParseGroups(t)
  }

  /** The position of the first `::` at or after `i`. */
  function FindDoubleColon(s: string, i: nat := 0): (r: Option<nat>)
    requires i <= |s|
    ensures r.Some? ==> i <= r.value && r.value + 1 < |s| && s[r.value] == ':' && s[r.value + 1] == ':'
    ensures r.Some? ==> forall j :: i <= j < r.value ==> !(s[j] == ':' && s[j + 1] == ':')
    ensures r.None? ==> forall j :: i <= j < |s| - 1 ==> !(s[j] == ':' && s[j + 1] == ':')
    decreases |s| - i
  {
    if i + 1 >= |s| then None
    else if s[i] == ':' && s[i + 1] == ':' then Some(i)
    else FindDoubleColon(s, i + 1)
  }

  function Zeros(k: nat): (z: seq<nat>)
    ensures |z| == k && forall i :: 0 <= i < k ==> z[i] == 0
  {
    seq(k, _ => 0)
  }

  /** The IPv6 reading of `IPAddr.new`: the full form of eight groups, or
      groups around a single `::` that stands for the missing zero groups
      (at least one). `None` when the text is neither. */
  function ParseV6(t: string): (r: Option<nat>)
    ensures r.Some? ==> r.value < TWO128
  {
    PowerLiterals();
    match FindDoubleColon(t)
    case None =>
      var gs :- ParseGroups(t);
      if |gs| == 8 then ValueBound(gs, GROUP); Some(ValueBE(gs, GROUP)) else None
    case Some(i) =>
      var left :- ParseHalf(t[..i]);
      var right :- ParseHalf(t[i + 2..]);
      Expand(left, right)
  }

  /** The address of the groups `left`, then as many zero groups as make
      eight, then `right`; `None` when that is not at least one zero group. */
  function Expand(left: seq<nat>, right: seq<nat>): (r: Option<nat>)
    requires AllBelow(left, GROUP) && AllBelow(right, GROUP)
    ensures r.Some? <==> |left| + |right| <= 7
    ensures r.Some? ==> r.value < TWO128
    ensures r.Some? ==> r.value == ValueBE(left + Zeros(8 - |left| - |right|) + right, GROUP)
  {
    if |left| + |right| <= 7 then
      var gs := left + Zeros(8 - |left| - |right|) + right;
      PowerLiterals();
      ValueBound(gs, GROUP);
      Some(ValueBE(gs, GROUP))
    else
      None
  }

  /** The number of zero groups starting at `i`. */
  function ZeroRun(gs: seq<nat>, i: nat): (k: nat)
    requires i <= |gs|
    ensures i + k <= |gs|
    decreases |gs| - i
  {
    if i == |gs| || gs[i] != 0 then 0 else 1 + ZeroRun(gs, i + 1)
  }

  /** `ZeroRun` counts a maximal run: zeros up to it, then the end or a
      non-zero group. */
  lemma {:induction false} ZeroRunMaximal(gs: seq<nat>, i: nat)
    requires i <= |gs|
    ensures forall j :: i <= j < i + ZeroRun(gs, i) ==> gs[j] == 0
    ensures i + ZeroRun(gs, i) == |gs| || gs[i + ZeroRun(gs, i)] != 0
    decreases |gs| - i
  {
    if i < |gs| && gs[i] == 0 {
      ZeroRunMaximal(gs, i + 1);
    }
  }

  /** The start of the leftmost longest run of zero groups at or after `i`. */
  function LongestRun(gs: seq<nat>, i: nat): (start: nat)
    requires i <= |gs|
    ensures i <= start <= |gs|
    decreases |gs| - i
  {
    if i == |gs| then i
    else
      var later := LongestRun(gs, i + 1);
      if ZeroRun(gs, i) >= ZeroRun(gs, later) then i else later
  }

  /** No run at or after `i` is longer than the chosen one, and every run
      starting before it is shorter. */
  lemma {:induction false} LongestRunLeftmost(gs: seq<nat>, i: nat)
    requires i <= |gs|
    ensures forall j :: i <= j <= |gs| ==> ZeroRun(gs, j) <= ZeroRun(gs, LongestRun(gs, i))
    ensures forall j :: i <= j < LongestRun(gs, i) ==> ZeroRun(gs, j) < ZeroRun(gs, LongestRun(gs, i))
    decreases |gs| - i
  {
    if i < |gs| {
      LongestRunLeftmost(gs, i + 1);
    }
  }

  /** The lower-case hex text of each group. */
  function HexGroups(gs: seq<nat>): (hs: seq<string>)
    ensures |hs| == |gs|
  {
    seq(|gs|, i requires 0 <= i < |gs| => Hex(gs[i]))
  }

  /** `IPAddr#to_s` of an IPv6 address: groups in hex without leading
      zeros, with the leftmost longest run of at least two zero groups
      written as `::`. */
  function ShowV6(n: nat): string
    requires n < TWO128
  {
    ShowGroups(Groups(n))
  }

  function ShowGroups(gs: seq<nat>): string
  {
    var hs := HexGroups(gs);
    var start := LongestRun(gs, 0);
    var len := ZeroRun(gs, start);
    if len >= 2 then Compress(hs, start, len) else Join(hs, ":")
  }

  /** The groups with `len` of them from `start` on replaced by `::`. */
  function Compress(hs: seq<string>, start: nat, len: nat): string
    requires start + len <= |hs|
  {
    Join(hs[..start], ":") + "::" + Join(hs[start + len..], ":")
  }

  /** The text of a group is a valid group text with the group's value. */
  lemma HexGroupText(g: nat)
    requires g < GROUP
    ensures IsGroupText(Hex(g)) && ValueOf(Hex(g), 16) == g && ':' !in Hex(g)
  {
    assert Power(16, 2) == 256;
    assert Power(16, 4) == GROUP;
    NumeralLength(g, 16, 4);
    NumeralValue(g, 16);
  }

  /** Group texts joined with `:` parse back into the groups. */
  lemma ParseGroupsJoin(gs: seq<nat>)
    requires |gs| >= 1 && AllBelow(gs, GROUP)
    ensures ParseGroups(Join(HexGroups(gs), ":")) == Some(gs)
    ensures NoAdjacent(Join(HexGroups(gs), ":"), ':')
  {
    var hs := HexGroups(gs);
    forall i | 0 <= i < |hs|
      ensures IsGroupText(hs[i]) && ValueOf(hs[i], 16) == gs[i] && ':' !in hs[i] && hs[i] != ""
    {
      HexGroupText(gs[i]);
    }
    SplitJoin(hs, ':');
    JoinNoAdjacent(hs, ':');
    var vs := seq(|hs|, i requires 0 <= i < |hs| => ValueOf(hs[i], 16));
    assert vs == gs;
  }

  lemma ParseHalfJoin(gs: seq<nat>)
    requires AllBelow(gs, GROUP)
    ensures ParseHalf(Join(HexGroups(gs), ":")) == Some(gs)
    ensures NoAdjacent(Join(HexGroups(gs), ":"), ':')
    ensures Join(HexGroups(gs), ":") == "" <==> gs == []
    ensures gs != [] ==> Join(HexGroups(gs), ":")[|Join(HexGroups(gs), ":")| - 1] != ':'
  {
    var hs := HexGroups(gs);
    if gs != [] {
      ParseGroupsJoin(gs);
      forall i | 0 <= i < |hs|
        ensures hs[i] != "" && ':' !in hs[i]
      {
        HexGroupText(gs[i]);
      }
      JoinNonEmptyEnds(hs, ":");
      var j, last := Join(hs, ":"), hs[|hs| - 1];
      assert j[|j| - 1] == last[|last| - 1];
      assert last[|last| - 1] in last;
    }
  }

  /** The first `::` of `left + "::" + right` is the one after `left`, when
      `left` has no `::` and does not end in a colon. */
  lemma FindAfter(left: string, right: string)
    requires NoAdjacent(left, ':')
    requires left == "" || left[|left| - 1] != ':'
    ensures FindDoubleColon(left + "::" + right) == Some(|left|)
  {
    var s := left + "::" + right;
    assert s[|left|] == ':' && s[|left| + 1] == ':';
    assert forall j :: 0 <= j < |left| ==> s[j] == left[j];
  }

  /** Cutting out a run of zeros and filling the gap with zeros again
      restores the sequence. */
  lemma SpliceZeros(gs: seq<nat>, start: nat, len: nat)
    requires start + len <= |gs|
    requires forall j :: start <= j < start + len ==> gs[j] == 0
    ensures gs[..start] + Zeros(len) + gs[start + len..] == gs
  {
    var t := gs[..start] + Zeros(len) + gs[start + len..];
    forall j | 0 <= j < |gs|
      ensures t[j] == gs[j]
    {
      if j < start {
      } else if j < start + len {
        assert t[j] == Zeros(len)[j - start];
      } else {
        assert t[j] == gs[start + len..][j - start - len];
      }
    }
  }

  lemma ParseV6AtDoubleColon(t: string, i: nat, left: seq<nat>, right: seq<nat>)
    requires FindDoubleColon(t) == Some(i)
    requires ParseHalf(t[..i]) == Some(left) && ParseHalf(t[i + 2..]) == Some(right)
    ensures ParseV6(t) == Expand(left, right)
  {}

  /** Text around the first `::` reads as its two halves with zero groups
      between them. */
  lemma ParseSplice(l: string, r: string, lg: seq<nat>, rg: seq<nat>)
    requires NoAdjacent(l, ':') && (l == "" || l[|l| - 1] != ':')
    requires ParseHalf(l) == Some(lg) && ParseHalf(r) == Some(rg)
    ensures ParseV6(l + "::" + r) == Expand(lg, rg)
  {
    var s := l + "::" + r;
    FindAfter(l, r);
    assert s[..|l|] == l;
    assert s[|l| + 2..] == r;
    ParseV6AtDoubleColon(s, |l|, lg, rg);
  }

  /** The compressed form reads back as the groups on either side of the
      `::` with the zero groups between them restored. */
  lemma ParseCompressed(lg: seq<nat>, rg: seq<nat>, len: nat)
    requires AllBelow(lg, GROUP) && AllBelow(rg, GROUP)
    requires len >= 1 && |lg| + len + |rg| == 8
    ensures ParseV6(Join(HexGroups(lg), ":") + "::" + Join(HexGroups(rg), ":"))
         == Some(ValueBE(lg + Zeros(len) + rg, GROUP))
  {
    ParseHalfJoin(lg);
    ParseHalfJoin(rg);
    ParseSplice(Join(HexGroups(lg), ":"), Join(HexGroups(rg), ":"), lg, rg);
    ExpandValue(lg, rg, len);
  }

  lemma ExpandValue(lg: seq<nat>, rg: seq<nat>, len: nat)
    requires AllBelow(lg, GROUP) && AllBelow(rg, GROUP)
    requires len >= 1 && |lg| + len + |rg| == 8
    ensures Expand(lg, rg) == Some(ValueBE(lg + Zeros(len) + rg, GROUP))
  {
    var e := Expand(lg, rg);
    var k: nat := 8 - |lg| - |rg|;
    assert k == len;
    assert e.value == ValueBE(lg + Zeros(k) + rg, GROUP);
  }

  /** Eight groups written out in full read back as themselves. */
  lemma ParseFull(gs: seq<nat>)
    requires |gs| == 8 && AllBelow(gs, GROUP)
    ensures ParseV6(Join(HexGroups(gs), ":")) == Some(ValueBE(gs, GROUP))
  {
    ParseGroupsJoin(gs);
    var s := Join(HexGroups(gs), ":");
    assert FindDoubleColon(s) == None;
  }

  /** Every IPv6 address prints to a text that reads back as itself. */
  lemma ParseShowV6(n: nat)
    requires n < TWO128
    ensures ParseV6(ShowV6(n)) == Some(n)
  {
    ParseShowGroups(Groups(n));
  }

  lemma ParseShowGroups(gs: seq<nat>)
    requires |gs| == 8 && AllBelow(gs, GROUP)
    ensures ParseV6(ShowGroups(gs)) == Some(ValueBE(gs, GROUP))
  {
    var start := LongestRun(gs, 0);
    var len := ZeroRun(gs, start);
    if len >= 2 {
      ParseShowCompressed(gs, start, len);
    } else {
      ParseFull(gs);
    }
  }

  lemma ParseShowCompressed(gs: seq<nat>, start: nat, len: nat)
    requires |gs| == 8 && AllBelow(gs, GROUP)
    requires start == LongestRun(gs, 0) && len == ZeroRun(gs, start) && len >= 2
    ensures ParseV6(ShowGroups(gs)) == Some(ValueBE(gs, GROUP))
  {
    var lg, rg := gs[..start], gs[start + len..];
    ShowGroupsCompressed(gs, start, len);
    ParseCompressed(lg, rg, len);
    ZeroRunMaximal(gs, start);
    SpliceZeros(gs, start, len);
  }

  lemma ShowGroupsCompressed(gs: seq<nat>, start: nat, len: nat)
    requires start == LongestRun(gs, 0) && len == ZeroRun(gs, start) && len >= 2
    ensures ShowGroups(gs)
         == Join(HexGroups(gs[..start]), ":") + "::" + Join(HexGroups(gs[start + len..]), ":")
  {
    assert ShowGroups(gs) == Compress(HexGroups(gs), start, len);
    HexGroupsTake(gs, start);
    HexGroupsDrop(gs, start + len);
  }

  lemma HexGroupsTake(gs: seq<nat>, i: nat)
    requires i <= |gs|
    ensures HexGroups(gs)[..i] == HexGroups(gs[..i])
  {
    var a, b := HexGroups(gs)[..i], HexGroups(gs[..i]);
    assert forall k :: 0 <= k < i ==> a[k] == b[k];
  }

  lemma HexGroupsDrop(gs: seq<nat>, i: nat)
    requires i <= |gs|
    ensures HexGroups(gs)[i..] == HexGroups(gs[i..])
  {
    var a, b := HexGroups(gs)[i..], HexGroups(gs[i..]);
    assert forall k :: 0 <= k < |gs| - i ==> a[k] == b[k];
  }
}
