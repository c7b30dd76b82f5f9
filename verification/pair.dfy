/** One `NAME=value` entry of an ifcfg file (`Iface::ValueSet::Pair` and
    its specialisations in `value_set/pair.rb`).

    `Pair.create` looks the upper-case name up in `VAR_HANDLERS`: `IPADDR`
    becomes an `IpV4Primary` holding the address integer, `IPV6ADDR` an
    `IpV6Primary` holding the integer and the prefix text, and
    `IPV6ADDR_SECONDARIES` an `IpV6Secondaries` holding a sorted list of
    entries; every other name keeps its text. The specialised pairs read two
    facts from the value set they belong to, gathered in `Siblings`. */
module Pairs {
  import opened Arith
  import opened Text
  import opened Numerals
  import opened Results
  import opened IpText
  import opened IpAddresses
  import opened Secondaries

  const IPADDR: string := "IPADDR"
  const IPV6ADDR: string := "IPV6ADDR"
  const IPV6ADDR_SECONDARIES: string := "IPV6ADDR_SECONDARIES"

  /** The key `IpV6Primary#value=` asks its value set for:
      `'ipv6_secondaries'`, which `ValueSet#[]` upcases. */
  const HOOK_KEY: string := "IPV6_SECONDARIES"

  /** The prefix `IpV6Primary` prints when the value had none. */
  const DEFAULT_V6_PREFIX: string := "64"

  /** The prefix an IPv6 secondary without one prints with. */
  const DEFAULT_SECONDARY_PREFIX: string := "128"

  /** A value handed to `Pair.create` or `value=`: a String, or (for the
      secondaries setter) an Array of Strings. */
  datatype Value = Str(s: string) | Items(items: seq<string>)

  datatype Pair =
    | Generic(name: string, text: string)
    | V4Primary(num: nat)
    | V6Primary(num: nat, mask: string)
    | V6Secondaries(entries: seq<Entry>)

  /** The keys of `VAR_HANDLERS`. */
  predicate Handled(name: string)
  {
    name == IPADDR || name == IPV6ADDR || name == IPV6ADDR_SECONDARIES
  }

  /** `Pair#name`: specialised pairs always carry their own name. */
  function Name(p: Pair): (n: string)
    ensures p.Generic? ==> n == p.name
    ensures !p.Generic? ==> Handled(n)
  {
    match p
    case Generic(name, _) => name
    case V4Primary(_) => IPADDR
    case V6Primary(_, _) => IPV6ADDR
    case V6Secondaries(_) => IPV6ADDR_SECONDARIES
  }

  /** What a specialised pair reads from its value set: whether the key
      `IpV6Primary` looks up exists, and `fetch_raw('ipv6addr')`. */
  datatype Siblings = Siblings(hookKey: bool, primary: Option<nat>)

  // -------------------------------------------------------- line grammar

  function DropLeadingQuote(s: string): string
  {
    if |s| > 0 && s[0] == '"' then s[1..] else s
  }

  function DropTrailingQuote(s: string): string
  {
    if |s| > 0 && s[|s| - 1] == '"' then s[..|s| - 1] else s
  }

  /** One quote off each end. */
  function StripQuotes(s: string): string
  {
    DropTrailingQuote(DropLeadingQuote(s))
  }

  /** The value part of a line: `"?(.*?)"?$` takes off one quote at each
      end, then `sub(/^"/, '')` and `sub(/"$/, '')` one more. */
  function Unquote(v: string): string
  {
    StripQuotes(StripQuotes(v))
  }

  predicate NoEdgeQuote(v: string)
  {
    v == "" || (v[0] != '"' && v[|v| - 1] != '"')
  }

  function Quotes(k: nat): (q: string)
    ensures |q| == k && forall i :: 0 <= i < k ==> q[i] == '"'
  {
    seq(k, i => '"')
  }

  function Pred(k: nat): nat { if k == 0 then 0 else k - 1 }

  lemma StripQuotesAround(a: nat, v: string, b: nat)
    requires v != "" && NoEdgeQuote(v)
    ensures StripQuotes(Quotes(a) + v + Quotes(b)) == Quotes(Pred(a)) + v + Quotes(Pred(b))
  {
    var s := Quotes(a) + v + Quotes(b);
    var l := DropLeadingQuote(s);
    assert l == Quotes(Pred(a)) + v + Quotes(b);
  }

  lemma StripQuotesOnly(k: nat)
    ensures StripQuotes(Quotes(k)) == Quotes(if k >= 2 then k - 2 else 0)
  {}

  /** Up to two quotes come off each end, independently of the other end. */
  lemma UnquoteStrips(a: nat, v: string, b: nat)
    requires a <= 2 && b <= 2 && NoEdgeQuote(v)
    ensures Unquote(Quotes(a) + v + Quotes(b)) == v
  {
    if v == "" {
      assert Quotes(a) + v + Quotes(b) == Quotes(a + b);
      StripQuotesOnly(a + b);
      StripQuotesOnly(if a + b >= 2 then a + b - 2 else 0);
    } else {
      StripQuotesAround(a, v, b);
      StripQuotesAround(Pred(a), v, Pred(b));
      assert Quotes(0) + v + Quotes(0) == v;
    }
  }

  /** `line.match(/(^[A-Z0-9_]+?)="?(.*?)"?$/)`: the name is everything
      before the first `=` and must be made of `[A-Z0-9_]`; the value is the
      rest, unquoted. */
  function SplitLine(line: string): (r: Option<(string, string)>)
    ensures r.Some? ==> var name := r.value.0;
      && |name| >= 1 && AllChars(name, IsNameChar)
      && |name| < |line| && line[..|name|] == name && line[|name|] == '='
      && r.value.1 == Unquote(line[|name| + 1..])
    ensures r.None? <==>
      forall i :: 0 < i < |line| && line[i] == '=' ==> !AllChars(line[..i], IsNameChar)
  {
    var i := IndexOf(line, '=');
    if 1 <= i < |line| && AllChars(line[..i], IsNameChar) then
      var name := line[..i];
      assert |name| == i && line[i] == '=';
      NameBeforeEquals(line, i);
      Some((name, Unquote(line[i + 1..])))
    else
      NoNameBeforeEquals(line, i);
      None
  }

  lemma EqualsNotName(s: string, i: nat)
    requires i < |s| && s[i] == '='
    ensures !AllChars(s, IsNameChar)
  {
    assert !IsNameChar(s[i]);
  }

  lemma NameBeforeEquals(line: string, i: nat)
    requires 1 <= i < |line| && line[i] == '=' && AllChars(line[..i], IsNameChar)
    ensures !forall j :: 0 < j < |line| && line[j] == '=' ==> !AllChars(line[..j], IsNameChar)
  {
    assert 0 < i < |line| && line[i] == '=' && AllChars(line[..i], IsNameChar);
  }

  lemma NoNameBeforeEquals(line: string, i: nat)
    requires i <= |line| && (i < |line| ==> line[i] == '=')
    requires forall k :: 0 <= k < i ==> line[k] != '='
    requires !(1 <= i < |line| && AllChars(line[..i], IsNameChar))
    ensures forall j :: 0 < j < |line| && line[j] == '=' ==> !AllChars(line[..j], IsNameChar)
  {
    forall j | 0 < j < |line| && line[j] == '='
      ensures !AllChars(line[..j], IsNameChar)
    {
      if i < j {
        EqualsNotName(line[..j], i);
      }
    }
  }

  // ------------------------------------------------------------ creation

  /** `Pair.create(line, value_set:)`: the line grammar, then the same
      dispatch as with an explicit name. A line that does not fit the
      grammar raises. */
  function FromLine(line: string, sib: Siblings): (r: Result<Pair>)
    requires '\n' !in line
    ensures SplitLine(line).None? ==> r == Err(MalformedLine(line))
    ensures r.Ok? ==> SplitLine(line).Some? && Name(r.value) == SplitLine(line).value.0
  {
    match SplitLine(line)
    case None => Err(MalformedLine(line))
    case Some((name, value)) =>
      UpcaseOfName(name);
      Create(name, Str(value), sib)
  }

  /** `Pair.create(name, value, value_set:)`: `VAR_HANDLERS.fetch(name,
      Pair).new(name, value, value_set)` with the upper-case name. Only a
      specialised pair may be given an Array. */
  function Create(name: string, value: Value, sib: Siblings): (r: Result<Pair>)
    requires value.Str? || Handled(Upcase(name))
    ensures r.Ok? ==> Name(r.value) == Upcase(name)
    ensures r.Ok? ==> (r.value.Generic? <==> !Handled(Upcase(name)))
    ensures !Handled(Upcase(name)) ==> r == Ok(Generic(Upcase(name), value.s))
    ensures Upcase(name) == IPADDR ==> r == AssignV4(value)
    ensures Upcase(name) == IPV6ADDR ==> r == AssignV6Primary(value, sib)
    ensures Upcase(name) == IPV6ADDR_SECONDARIES ==> r == NewSecondaries(value, sib)
  {
    var n := Upcase(name);
    if n == IPADDR then AssignV4(value)
    else if n == IPV6ADDR then AssignV6Primary(value, sib)
    else if n == IPV6ADDR_SECONDARIES then NewSecondaries(value, sib)
    else Ok(Generic(n, value.s))
  }

  /** `IpV4Primary#value=`: the integer of an IPv4 address. An IPv6 address
      or unreadable text raises; so does an Array, which `IPAddr.new`
      refuses without a family. */
  function AssignV4(value: Value): (r: Result<Pair>)
    ensures r.Ok? ==> r.value.V4Primary? && r.value.num < TWO32
    ensures value.Str? ==> (r.Ok? <==> V4Address(value.s).Ok?)
    ensures value.Str? && r.Ok? ==> r.value.num == V4Address(value.s).value.bits
    ensures value.Items? ==> r == Err(MissingAddress)
  {
    match value
    case Items(_) => Err(MissingAddress)
    case Str(t) =>
      var a :- V4Address(t);
      Ok(V4Primary(a.bits))
  }

  /** `IpV6Primary#value=`: the text before the first `/` must be an IPv6
      address; the text after it, unchecked, is the prefix, 64 when there
      is none. The hook at the end calls `filter_primary!` on what
      `value_set['ipv6_secondaries']` returns, which is a String when that
      key exists, and a String has no such method. */
  function AssignV6Primary(value: Value, sib: Siblings): (r: Result<Pair>)
    ensures r.Ok? ==> r.value.V6Primary? && r.value.num < TWO128
    ensures value.Items? ==> r == Err(NoMethod("split"))
    ensures value.Str? && RubySplit(value.s, '/') == [] ==> r == Err(MissingAddress)
    ensures value.Str? && RubySplit(value.s, '/') != [] ==>
      var fields := RubySplit(value.s, '/');
      (r.Ok? <==> V6Address(fields[0]).Ok? && !sib.hookKey)
      && (r.Ok? ==>
            && r.value.num == V6Address(fields[0]).value.bits
            && r.value.mask == (if |fields| >= 2 then fields[1] else DEFAULT_V6_PREFIX))
  {
    match value
    case Items(_) => Err(NoMethod("split"))
    case Str(t) =>
      var fields := RubySplit(t, '/');
      if |fields| == 0 then Err(MissingAddress)
      else
        var a :- V6Address(fields[0]);
        var mask := if |fields| >= 2 then fields[1] else DEFAULT_V6_PREFIX;
        if sib.hookKey then Err(NoMethod("filter_primary!"))
        else Ok(V6Primary(a.bits, mask))
  }

  /** `IpV6Secondaries.new`: a String is split on runs of spaces, an Array
      is taken as it is. */
  function NewSecondaries(value: Value, sib: Siblings): (r: Result<Pair>)
    ensures r.Ok? ==> r.value.V6Secondaries?
  {
    match value
    case Str(t) => AssignSecondaries(SplitRuns(t, {' '}), sib)
    case Items(xs) => AssignSecondaries(xs, sib)
  }

  /** One `ip/mask` item: `ip_with_mask.split('/')`, the address part read
      as IPv6, the mask kept as text or defaulted. */
  function ParseEntry(item: string): (r: Result<Entry>)
    ensures r.Ok? ==> r.value.num < TWO128
  {
    var fields := RubySplit(item, '/');
    if |fields| == 0 then Err(MissingAddress)
    else
      var a :- V6Address(fields[0]);
      Ok(Entry(a.bits, if |fields| >= 2 then Explicit(fields[1]) else DefaultMask))
  }

  /** `map`: every item parsed in order; the first failure raises. */
  function ParseEntries(items: seq<string>): (r: Result<seq<Entry>>)
    ensures r.Ok? <==> forall k :: 0 <= k < |items| ==> ParseEntry(items[k]).Ok?
    ensures r.Ok? ==> |r.value| == |items|
    ensures r.Ok? ==> forall k :: 0 <= k < |items| ==> ParseEntry(items[k]) == Ok(r.value[k])
  {
    var rs := seq(|items|, k requires 0 <= k < |items| => ParseEntry(items[k]));
    assert forall k :: 0 <= k < |items| ==> rs[k] == ParseEntry(items[k]);
    Collect(rs)
  }

  /** `IpV6Secondaries#value=` on an Array: parse, `uniq.sort`, and drop
      the entries for the sibling `IPV6ADDR`'s integer, if there is one. */
  function AssignSecondaries(items: seq<string>, sib: Siblings): (r: Result<Pair>)
    ensures r.Ok? <==> ParseEntries(items).Ok? && !Mixed(ParseEntries(items).value)
    ensures r.Ok? ==> r.value.V6Secondaries? && StrictlySorted(r.value.entries)
    ensures r.Ok? ==> forall e :: e in r.value.entries <==>
      e in ParseEntries(items).value && (sib.primary.None? || e.num != sib.primary.value)
  {
    var es :- ParseEntries(items);
    var sorted :- Normalise(es);
    match sib.primary
    case None => Ok(V6Secondaries(sorted))
    case Some(n) =>
      FilterKeepsOrder(sorted, n);
      Ok(V6Secondaries(FilterPrimary(sorted, n)))
  }

  /** `pair.value = value` on an existing pair. `IpV6Secondaries#value=`
      maps over its argument, which a String does not support. */
  function Assign(p: Pair, value: Value, sib: Siblings): (r: Result<Pair>)
    requires p.Generic? ==> value.Str?
    ensures r.Ok? ==> Name(r.value) == Name(p)
    ensures p.Generic? ==> r == Ok(Generic(p.name, value.s))
    ensures p.V4Primary? ==> r == AssignV4(value)
    ensures p.V6Primary? ==> r == AssignV6Primary(value, sib)
    ensures p.V6Secondaries? && value.Str? ==> r == Err(NoMethod("map"))
    ensures p.V6Secondaries? && value.Items? ==> r == AssignSecondaries(value.items, sib)
  {
    match p
    case Generic(name, _) => Ok(Generic(name, value.s))
    case V4Primary(_) => AssignV4(value)
    case V6Primary(_, _) => AssignV6Primary(value, sib)
    case V6Secondaries(_) =>
      match value
      case Str(_) => Err(NoMethod("map"))
      case Items(xs) => AssignSecondaries(xs, sib)
  }

  /** `filter_primary!(n)` on a secondaries pair. */
  function FilterSecondaries(p: Pair, n: nat): (r: Pair)
    requires p.V6Secondaries?
    ensures r.V6Secondaries?
    ensures forall e :: e in r.entries <==> e in p.entries && e.num != n
  {
    V6Secondaries(FilterPrimary(p.entries, n))
  }

  // ------------------------------------------------------------ printing

  /** Characters that no address text contains: the ones the line, the
      prefix and the secondaries list use as delimiters. */
  predicate FreeOfDelimiters(t: string)
  {
    '/' !in t && ' ' !in t && '"' !in t && '\n' !in t
  }

  /** `IpV4Address.from_numeric(num).to_s`: a dotted quad that reads back
      as the low 32 bits of `num`. */
  function V4Text(num: nat): (t: string)
    ensures t != "" && FreeOfDelimiters(t)
    ensures IpAddresses.Create(t) == Ok(IpAddress(V4, num % TWO32, 32))
  {
    var a := FromNumericV4(num);
    V4TextFacts(a);
    IpAddresses.ToS(a)
  }

  lemma V4TextFacts(a: IpAddress)
    requires a.family == V4 && a.bits < TWO32
    ensures IpAddresses.ToS(a) != "" && FreeOfDelimiters(IpAddresses.ToS(a))
    ensures IpAddresses.Create(IpAddresses.ToS(a)) == Ok(IpAddress(V4, a.bits, 32))
  {
    CreateToS(a);
    ParseShowV4(a.bits);
    DottedQuadDigits(ShowV4(a.bits));
  }

  /** `IpV6Address.from_numeric(num).to_s`: the compressed IPv6 text that
      reads back as the low 128 bits of `num`. */
  function V6Text(num: nat): (t: string)
    ensures t != "" && FreeOfDelimiters(t)
    ensures IpAddresses.Create(t) == Ok(IpAddress(V6, num % TWO128, 128))
  {
    var a := FromNumericV6(num);
    V6TextFacts(a);
    IpAddresses.ToS(a)
  }

  lemma V6TextFacts(a: IpAddress)
    requires a.family == V6 && a.bits < TWO128
    ensures IpAddresses.ToS(a) != "" && FreeOfDelimiters(IpAddresses.ToS(a))
    ensures IpAddresses.Create(IpAddresses.ToS(a)) == Ok(IpAddress(V6, a.bits, 128))
  {
    CreateToS(a);
    ShowV6TextChars(a.bits);
  }

  function MaskText(m: Mask): string
  {
    match m
    case Explicit(t) => t
    case DefaultMask => DEFAULT_SECONDARY_PREFIX
  }

  /** `"#{IpV6Address.from_numeric(ip_num)}/#{mask}"`. */
  function EntryText(e: Entry): string
  {
    V6Text(e.num) + "/" + MaskText(e.mask)
  }

  function EntryTexts(es: seq<Entry>): (ts: seq<string>)
    ensures |ts| == |es| && forall k :: 0 <= k < |es| ==> ts[k] == EntryText(es[k])
  {
    seq(|es|, k requires 0 <= k < |es| => EntryText(es[k]))
  }

  /** `Pair#value`: the text a pair stands for. */
  function ValueText(p: Pair): string
  {
    match p
    case Generic(_, text) => text
    case V4Primary(num) => V4Text(num)
    case V6Primary(num, mask) => V6Text(num) + "/" + mask
    case V6Secondaries(es) => Join(EntryTexts(es), " ")
  }

  /** `Pair#to_s`: `NAME="value"`. */
  function ToS(p: Pair): string
  {
    Name(p) + "=\"" + ValueText(p) + "\""
  }

  /** `raw_value`: the stored value before formatting. */
  datatype Raw = RawText(s: string) | RawNum(n: nat) | RawEntries(es: seq<Entry>)

  function RawValue(p: Pair): (r: Raw)
    ensures p.Generic? ==> r == RawText(ValueText(p))
    ensures p.V4Primary? || p.V6Primary? ==> r == RawNum(p.num)
    ensures p.V6Secondaries? ==> r == RawEntries(p.entries)
  {
    match p
    case Generic(_, text) => RawText(text)
    case V4Primary(num) => RawNum(num)
    case V6Primary(num, _) => RawNum(num)
    case V6Secondaries(es) => RawEntries(es)
  }

  /** An IPv4 pair's value text is the address its integer stands for. */
  lemma V4ValueText(p: Pair)
    requires p.V4Primary? && p.num < TWO32
    ensures AssignV4(Str(ValueText(p))) == Ok(p)
  {
    DivModUnique(p.num, TWO32, 0, p.num);
  }

  // ---------------------------------------------------------- round trip

  /** The pairs whose `to_s` line reads back as themselves, given the
      siblings they would be read with. */
  predicate Printable(p: Pair, sib: Siblings)
  {
    match p
    case Generic(name, text) =>
      |name| >= 1 && AllChars(name, IsNameChar) && !Handled(name)
      && NoEdgeQuote(text) && '\n' !in text
    case V4Primary(num) => num < TWO32
    case V6Primary(num, mask) =>
      num < TWO128 && mask != "" && '/' !in mask && '\n' !in mask && NoEdgeQuote(mask)
      && !sib.hookKey
    case V6Secondaries(es) =>
      StrictlySorted(es)
      && (forall k :: 0 <= k < |es| ==> PrintableEntry(es[k]))
      && (sib.primary.Some? ==> forall k :: 0 <= k < |es| ==> es[k].num != sib.primary.value)
  }

  /** An entry that prints and reads back as itself: a 128-bit address and
      a mask text free of the characters the line and list syntax use. */
  predicate PrintableEntry(e: Entry)
  {
    && e.num < TWO128
    && e.mask.Explicit? && e.mask.text != ""
    && '/' !in e.mask.text && ' ' !in e.mask.text && '"' !in e.mask.text && '\n' !in e.mask.text
  }

  /** Printing a pair and reading the line back gives the pair. */
  lemma FromLineToS(p: Pair, sib: Siblings)
    requires Printable(p, sib)
    ensures '\n' !in ToS(p)
    ensures FromLine(ToS(p), sib) == Ok(p)
  {
    ValueTextShape(p, sib);
    LineReadsBack(Name(p), ValueText(p));
    UpcaseOfName(Name(p));
    ValueReadsBack(p, sib);
  }

  /** A `NAME="value"` line splits back into its name and value. */
  lemma LineReadsBack(name: string, v: string)
    requires |name| >= 1 && AllChars(name, IsNameChar) && '=' !in name
    requires NoEdgeQuote(v) && '\n' !in v
    ensures '\n' !in name + "=\"" + v + "\""
    ensures SplitLine(name + "=\"" + v + "\"") == Some((name, v))
  {
    var line := name + "=\"" + v + "\"";
    assert line == name + ['='] + ("\"" + v + "\"");
    assert '\n' !in name by {
      assert forall k :: 0 <= k < |name| ==> IsNameChar(name[k]);
    }
    IndexOfAfter(name, '=', "\"" + v + "\"");
    assert line[..|name|] == name;
    assert line[|name| + 1..] == Quotes(1) + v + Quotes(1);
    UnquoteStrips(1, v, 1);
  }

  /** The value text of a printable pair has no quote at either end and no
      newline, and its name is a valid line name. */
  lemma ValueTextShape(p: Pair, sib: Siblings)
    requires Printable(p, sib)
    ensures NoEdgeQuote(ValueText(p)) && '\n' !in ValueText(p)
    ensures |Name(p)| >= 1 && AllChars(Name(p), IsNameChar) && '=' !in Name(p)
  {
    NameShape(p, sib);
    match p
    case Generic(_, _) =>
    case V4Primary(num) =>
      assert V4Text(num)[0] in V4Text(num);
    case V6Primary(num, mask) =>
      V6PrimaryTextShape(num, mask);
    case V6Secondaries(es) =>
      SecondariesTextShape(es);
  }

  lemma NameShape(p: Pair, sib: Siblings)
    requires Printable(p, sib)
    ensures |Name(p)| >= 1 && AllChars(Name(p), IsNameChar) && '=' !in Name(p)
  {
    var n := Name(p);
    assert forall k :: 0 <= k < |n| ==> IsNameChar(n[k]);
  }

  lemma V6PrimaryTextShape(num: nat, mask: string)
    requires mask != "" && '\n' !in mask && NoEdgeQuote(mask)
    ensures NoEdgeQuote(ValueText(V6Primary(num, mask))) && '\n' !in ValueText(V6Primary(num, mask))
  {
    var t := V6Text(num);
    var v := t + "/" + mask;
    assert ValueText(V6Primary(num, mask)) == v;
    assert v[0] == t[0] && v[|v| - 1] == mask[|mask| - 1];
    assert t[0] in t;
  }

  lemma DottedQuadDigits(t: string)
    requires ParseV4(t).Some?
    ensures t != "" && FreeOfDelimiters(t) && '#' !in t
  {
    var fs := SplitOn(t, '.');
    JoinSplitOn(t, '.');
    var p := (c: char) => IsDigit(c) || c == '.';
    forall i | 0 <= i < |fs|
      ensures AllChars(fs[i], p)
    {
      assert IsOctetText(fs[i]);
      assert forall k :: 0 <= k < |fs[i]| ==> IsBaseDigit(fs[i][k], 10);
    }
    JoinChars(fs, ".", p);
    assert IsOctetText(fs[0]);
    assert forall k :: 0 <= k < |t| ==> p(t[k]);
  }

  lemma ShowV6TextChars(n: nat)
    requires n < TWO128
    ensures ShowV6(n) != "" && FreeOfDelimiters(ShowV6(n))
  {
    var t := ShowV6(n);
    assert t == ShowGroups(Groups(n)) && t != "" && forall k :: 0 <= k < |t| ==> IsV6TextChar(t[k]) by {
      ShowGroupsText(Groups(n));
    }
    V6TextFree(t);
  }

  lemma V6TextFree(t: string)
    requires forall k :: 0 <= k < |t| ==> IsV6TextChar(t[k])
    ensures FreeOfDelimiters(t)
  {
    forall k | 0 <= k < |t|
      ensures t[k] != '/' && t[k] != ' ' && t[k] != '"' && t[k] != '\n'
    {
      assert IsV6TextChar(t[k]);
    }
  }

  lemma ShowGroupsText(gs: seq<nat>)
    requires |gs| == 8
    ensures forall k :: 0 <= k < |ShowGroups(gs)| ==> IsV6TextChar(ShowGroups(gs)[k])
    ensures ShowGroups(gs) != ""
  {
    var hs := HexGroups(gs);
    HexGroupsChars(gs);
    var start := LongestRun(gs, 0);
    var len := ZeroRun(gs, start);
    if len >= 2 {
      JoinChars(hs[..start], ":", IsV6TextChar);
      JoinChars(hs[start + len..], ":", IsV6TextChar);
      assert |Compress(hs, start, len)| >= 2;
    } else {
      JoinChars(hs, ":", IsV6TextChar);
      assert hs[0] == Hex(gs[0]);
      JoinNonEmpty(hs, ":");
    }
  }

  lemma JoinNonEmpty(parts: seq<string>, sep: string)
    requires |parts| >= 1 && parts[0] != ""
    ensures Join(parts, sep) != ""
  {
    if |parts| > 1 {
      assert Join(parts, sep)[0] == parts[0][0];
    }
  }

  lemma SecondariesTextShape(es: seq<Entry>)
    requires forall k :: 0 <= k < |es| ==> PrintableEntry(es[k])
    ensures NoEdgeQuote(Join(EntryTexts(es), " ")) && '\n' !in Join(EntryTexts(es), " ")
  {
    var ts := EntryTexts(es);
    var p := (c: char) => c != '"' && c != '\n';
    forall k | 0 <= k < |ts|
      ensures AllChars(ts[k], p)
    {
      EntryTextShape(es[k]);
    }
    JoinChars(ts, " ", p);
    var j := Join(ts, " ");
    assert j != "" ==> j[0] != '"' && j[|j| - 1] != '"' by {
      if j != "" {
        assert p(j[0]) && p(j[|j| - 1]);
      }
    }
  }

  lemma EntryTextShape(e: Entry)
    requires PrintableEntry(e)
    ensures EntryText(e) != "" && '"' !in EntryText(e) && '\n' !in EntryText(e) && ' ' !in EntryText(e)
  {
    var t := V6Text(e.num);
    assert EntryText(e) == t + "/" + e.mask.text;
  }

  /** An IPv6 address text holds no white space. */
  lemma V6TextWord(num: nat)
    ensures NoneIn(V6Text(num), REGEX_SPACES)
  {
    var a := FromNumericV6(num);
    assert V6Text(num) == ShowV6(a.bits);
    ShowV6Word(a.bits);
  }

  lemma ShowV6Word(n: nat)
    requires n < TWO128
    ensures NoneIn(ShowV6(n), REGEX_SPACES)
  {
    var t := ShowV6(n);
    ShowGroupsText(Groups(n));
    forall k | 0 <= k < |t|
      ensures t[k] !in REGEX_SPACES
    {
      assert IsV6TextChar(t[k]);
    }
  }

  /** An entry whose mask holds no white space prints as one word. */
  lemma EntryTextWord(e: Entry)
    requires NoneIn(MaskText(e.mask), REGEX_SPACES)
    ensures EntryText(e) != "" && NoneIn(EntryText(e), REGEX_SPACES)
  {
    V6TextWord(e.num);
    SlashJoinWord(V6Text(e.num), MaskText(e.mask));
  }

  lemma SlashJoinWord(t: string, m: string)
    requires NoneIn(t, REGEX_SPACES) && NoneIn(m, REGEX_SPACES)
    ensures t + "/" + m != "" && NoneIn(t + "/" + m, REGEX_SPACES)
  {
    assert NoneIn("/", REGEX_SPACES) by {
      assert "/"[0] == '/';
    }
    NoneInConcat(t, "/", REGEX_SPACES);
    NoneInConcat(t + "/", m, REGEX_SPACES);
    assert |t + "/" + m| > 0;
  }

  /** A secondaries list whose masks hold no white space splits on runs of
      white space into its entries' texts. */
  lemma SecondariesWords(es: seq<Entry>)
    requires forall k :: 0 <= k < |es| ==> NoneIn(MaskText(es[k].mask), REGEX_SPACES)
    ensures SplitRuns(ValueText(V6Secondaries(es)), REGEX_SPACES) == EntryTexts(es)
  {
    var ts := EntryTexts(es);
    forall k | 0 <= k < |ts|
      ensures ts[k] != "" && NoneIn(ts[k], REGEX_SPACES)
    {
      EntryTextWord(es[k]);
    }
    assert ValueText(V6Secondaries(es)) == Join(ts, [' ']);
    SplitRunsJoinIn(ts, ' ', REGEX_SPACES);
  }

  /** The value text of a printable pair, handed back to `Create` under
      the pair's name, rebuilds the pair. */
  lemma ValueReadsBack(p: Pair, sib: Siblings)
    requires Printable(p, sib)
    ensures Create(Name(p), Str(ValueText(p)), sib) == Ok(p)
  {
    UpcaseOfName(Name(p)) by {
      ValueTextShape(p, sib);
    }
    match p
    case Generic(_, _) =>
    case V4Primary(num) =>
      V4ValueText(p);
    case V6Primary(num, mask) =>
      V6PrimaryReadsBack(num, mask, sib);
    case V6Secondaries(es) =>
      SecondariesReadBack(es, sib);
  }

  lemma V6PrimaryReadsBack(num: nat, mask: string, sib: Siblings)
    requires Printable(V6Primary(num, mask), sib)
    ensures AssignV6Primary(Str(ValueText(V6Primary(num, mask))), sib) == Ok(V6Primary(num, mask))
  {
    DivModUnique(num, TWO128, 0, num);
    var t := V6Text(num);
    RubySplitTwo(t, '/', mask);
    assert ValueText(V6Primary(num, mask)) == t + ['/'] + mask;
  }

  lemma EntryReadsBack(e: Entry)
    requires PrintableEntry(e)
    ensures ParseEntry(EntryText(e)) == Ok(e)
  {
    DivModUnique(e.num, TWO128, 0, e.num);
    var t := V6Text(e.num);
    RubySplitTwo(t, '/', e.mask.text);
    assert EntryText(e) == t + ['/'] + e.mask.text;
  }

  lemma SecondariesReadBack(es: seq<Entry>, sib: Siblings)
    requires Printable(V6Secondaries(es), sib)
    ensures NewSecondaries(Str(ValueText(V6Secondaries(es))), sib) == Ok(V6Secondaries(es))
  {
    var ts := EntryTexts(es);
    EntryTextsSplit(es);
    assert NewSecondaries(Str(ValueText(V6Secondaries(es))), sib) == AssignSecondaries(ts, sib);
    EntriesReadBack(es);
    NormaliseSorted(es);
    if sib.primary.Some? {
      FilterAbsent(es, sib.primary.value);
    }
  }

  /** The space-joined entry texts split back into the entry texts. */
  lemma EntryTextsSplit(es: seq<Entry>)
    requires forall k :: 0 <= k < |es| ==> PrintableEntry(es[k])
    ensures SplitRuns(Join(EntryTexts(es), " "), {' '}) == EntryTexts(es)
  {
    var ts := EntryTexts(es);
    forall k | 0 <= k < |ts|
      ensures ts[k] != "" && ' ' !in ts[k]
    {
      EntryTextShape(es[k]);
    }
    SplitRunsJoin(ts, ' ');
  }

  /** Every entry text parses back as its entry. */
  lemma EntriesReadBack(es: seq<Entry>)
    requires forall k :: 0 <= k < |es| ==> PrintableEntry(es[k])
    ensures ParseEntries(EntryTexts(es)) == Ok(es)
  {
    var ts := EntryTexts(es);
    forall k | 0 <= k < |ts|
      ensures ParseEntry(ts[k]) == Ok(es[k])
    {
      EntryReadsBack(es[k]);
    }
    var parsed := ParseEntries(ts);
    assert parsed.value == es;
  }

  /** A secondary printed with the default prefix reads back with that
      prefix written out: the two entries differ, so `to_s` and `create` are
      inverse only on explicit prefixes. */
  lemma DefaultMaskRereads(num: nat)
    requires num < TWO128
    ensures ParseEntry(EntryText(Entry(num, DefaultMask))) == Ok(Entry(num, Explicit(DEFAULT_SECONDARY_PREFIX)))
  {
    DivModUnique(num, TWO128, 0, num);
    var t := V6Text(num);
    RubySplitTwo(t, '/', DEFAULT_SECONDARY_PREFIX);
    assert EntryText(Entry(num, DefaultMask)) == t + ['/'] + DEFAULT_SECONDARY_PREFIX;
  }
}
