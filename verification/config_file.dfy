/** The four `ConfigFile` variants of `config_file.rb`: construction from a
    filename and its content, `static?`, `include?`, the range file's
    octet-to-integer conversion and the `PrimaryFile` address setters. */
module ConfigFiles {
  import opened Arith
  import opened Text
  import opened Numerals
  import opened Results
  import opened FileNames
  import opened Pairs
  import opened ValueSets
  import IpText
  import Secondaries
  import IpAddresses

  // The names the source looks variables up by; `[]` upcases them.
  const KEY_IPADDR: string := "ipaddr"
  const KEY_IPV6ADDR: string := "ipv6addr"
  const KEY_SECONDARIES: string := "ipv6addr_secondaries"
  const KEY_BOOTPROTO: string := "bootproto"
  const KEY_NM_CONTROLLED: string := "nm_controlled"
  const KEY_START: string := "ipaddr_start"
  const KEY_END: string := "ipaddr_end"
  const KEY_CLONENUM_START: string := "clonenum_start"

  /** The names `make_static` and `disable_nm` set. */
  const BOOTPROTO: string := "BOOTPROTO"
  const NM_CONTROLLED: string := "NM_CONTROLLED"

  lemma UpcaseKeys()
    ensures Upcase(KEY_IPADDR) == IPADDR
    ensures Upcase(KEY_IPV6ADDR) == IPV6ADDR
    ensures Upcase(KEY_SECONDARIES) == IPV6ADDR_SECONDARIES
    ensures Upcase(KEY_BOOTPROTO) == BOOTPROTO == Upcase(BOOTPROTO)
    ensures Upcase(KEY_NM_CONTROLLED) == NM_CONTROLLED == Upcase(NM_CONTROLLED)
  {
    UpcaseOfName(BOOTPROTO);
    UpcaseOfName(NM_CONTROLLED);
  }

  /** A config file: its path, the device from its name (nil when the name
      does not parse), its variables, and what each class captures when it
      is built. */
  datatype ConfigFile =
    | PrimaryFile(filename: string, device: Option<string>, vars: ValueSet)
    | CloneFile(filename: string, device: Option<string>, vars: ValueSet, ip: Option<string>, cloneNum: nat)
    | RangeFile(filename: string, device: Option<string>, vars: ValueSet,
                startNum: int, endNum: int, startCloneNum: Option<int>)
    | LoopbackFile(filename: string, device: Option<string>, vars: ValueSet, ip: Option<string>)

  function KindOf(f: ConfigFile): Kind
  {
    match f
    case PrimaryFile(_, _, _) => Primary
    case CloneFile(_, _, _, _, _) => Clone
    case RangeFile(_, _, _, _, _, _) => Range
    case LoopbackFile(_, _, _, _) => Loopback
  }

  // ------------------------------------------------------- number reading

  /** The length of the longest prefix of `s` whose characters satisfy `p`. */
  function Run(s: string, p: char -> bool): (k: nat)
    ensures k <= |s|
    ensures forall i :: 0 <= i < k ==> p(s[i])
    ensures k < |s| ==> !p(s[k])
  {
    if |s| == 0 || !p(s[0]) then 0 else 1 + Run(s[1..], p)
  }

  lemma {:induction false} RunAll(s: string, p: char -> bool)
    requires forall i :: 0 <= i < |s| ==> p(s[i])
    ensures Run(s, p) == |s|
  {
    if |s| > 0 {
      RunAll(s[1..], p);
    }
  }

  /** The value of the leading run of digits of `s` in base `b`, 0 when
      there is none. */
  function LeadingValue(s: string, digit: char -> bool, b: nat): nat
    requires forall c :: digit(c) ==> IsHexDigit(c)
  {
    var d := s[..Run(s, digit)];
    assert AllChars(d, IsHexDigit);
    ValueOf(d, b)
  }

  /** The digits `to_i` reads from the front of `s`: a digit, then more
      digits, each of which may follow a single underscore that is
      skipped. A second underscore in a row, or a trailing one, ends the
      number. */
  function ReadDigits(s: string): (d: string)
    ensures |d| <= |s|
    ensures forall i :: 0 <= i < |d| ==> IsDigit(d[i])
    ensures d != "" <==> s != "" && IsDigit(s[0])
  {
    if |s| == 0 || !IsDigit(s[0]) then ""
    else if |s| >= 3 && s[1] == '_' && IsDigit(s[2]) then [s[0]] + ReadDigits(s[2..])
    else [s[0]] + ReadDigits(s[1..])
  }

  /** The `0d` or `0D` radix prefix `to_i` skips in base 10. */
  function DropDecimalPrefix(u: string): string
  {
    if |u| >= 2 && u[0] == '0' && (u[1] == 'd' || u[1] == 'D') then u[2..] else u
  }

  /** `String#to_i`: leading white space, an optional sign, an optional
      `0d` prefix, then the digits `ReadDigits` takes; 0 when there are
      none. */
  function ToI(s: string): int
  {
    var t := s[Run(s, IsRegexSpace)..];
    var u := if t != "" && (t[0] == '-' || t[0] == '+') then t[1..] else t;
    var d := ReadDigits(DropDecimalPrefix(u));
    assert AllChars(d, IsHexDigit);
    var n: int := ValueOf(d, 10);
    if t != "" && t[0] == '-' then -n else n
  }

  /** A run of digits is read whole. */
  lemma {:induction false} ReadDigitsAll(s: string)
    requires forall i :: 0 <= i < |s| ==> IsDigit(s[i])
    ensures ReadDigits(s) == s
  {
    if |s| > 0 {
      ReadDigitsAll(s[1..]);
      assert [s[0]] + s[1..] == s;
    }
  }

  /** An underscore between two runs of digits is skipped: `"1_0".to_i`
      is 10. */
  lemma {:induction false} ReadDigitsUnderscore(a: string, b: string)
    requires a != "" && forall i :: 0 <= i < |a| ==> IsDigit(a[i])
    requires b != "" && forall i :: 0 <= i < |b| ==> IsDigit(b[i])
    ensures ReadDigits(a + "_" + b) == a + b
  {
    var s := a + "_" + b;
    assert IsDigit(s[0]) by { assert s[0] == a[0]; }
    if |a| == 1 {
      assert s[1] == '_' && IsDigit(s[2]) by { assert s[2] == b[0]; }
      assert s[2..] == b;
      assert ReadDigits(s) == [a[0]] + ReadDigits(b);
      ReadDigitsAll(b);
    } else {
      assert s[1] != '_' by { assert s[1] == a[1]; }
      assert s[1..] == a[1..] + "_" + b;
      assert ReadDigits(s) == [a[0]] + ReadDigits(a[1..] + "_" + b);
      ReadDigitsUnderscore(a[1..], b);
      assert [a[0]] + (a[1..] + b) == a + b;
    }
  }

  /** A second underscore in a row ends the number: `"1__0".to_i` is 1. */
  lemma {:induction false} ReadDigitsDoubleUnderscore(a: string, b: string)
    requires a != "" && forall i :: 0 <= i < |a| ==> IsDigit(a[i])
    ensures ReadDigits(a + "__" + b) == a
  {
    var s := a + "__" + b;
    if |a| == 1 {
      assert s[1..] == "__" + b;
    } else {
      assert s[1..] == a[1..] + "__" + b;
      ReadDigitsDoubleUnderscore(a[1..], b);
      assert [a[0]] + a[1..] == a;
    }
  }

  /** `to_i` on digits with single underscores between them reads the
      digits alone, and a `0d` prefix does not change it. */
  lemma ToIUnderscore(a: string, b: string)
    requires IsDigits(a) && IsDigits(b)
    ensures ToI(a + "_" + b) == DigitsValue(a + b)
    ensures ToI("0d" + a) == DigitsValue(a)
  {
    var s := a + "_" + b;
    assert Run(s, IsRegexSpace) == 0 && s[0..] == s;
    assert s[0] == a[0];
    if |a| >= 2 {
      assert s[1] == a[1];
    } else {
      assert s[1] == '_';
    }
    ReadDigitsUnderscore(a, b);
    var p := "0d" + a;
    assert Run(p, IsRegexSpace) == 0 && p[0..] == p;
    assert DropDecimalPrefix(p) == a;
    ReadDigitsAll(a);
  }

  /** `String#hex`: an optional sign, then as many hexadecimal digits as
      follow; 0 when none do. */
  function HexOf(s: string): int
  {
    if s != "" && s[0] == '-' then -(LeadingValue(s[1..], IsHexDigit, 16) as int)
    else if s != "" && s[0] == '+' then LeadingValue(s[1..], IsHexDigit, 16)
    else LeadingValue(s, IsHexDigit, 16)
  }

  /** `Integer#to_s(16)`: lower-case hexadecimal, `-` in front of a
      negative number. */
  function HexText(n: int): string
  {
    if n < 0 then "-" + Hex(-n) else Hex(n)
  }

  /** `String#rjust(w, c)`: `s` padded on the left with `c` to width `w`. */
  function RJust(s: string, w: nat, c: char): (r: string)
    ensures |r| == if |s| < w then w else |s|
    ensures r[|r| - |s|..] == s
    ensures forall i :: 0 <= i < |r| - |s| ==> r[i] == c
  {
    if |s| < w then seq(w - |s|, _ => c) + s else s
  }

  /** One dotted field as `string_to_ip_num` rewrites it: its `to_i` in
      hexadecimal, padded to two digits. */
  function OctetHex(field: string): string
  {
    RJust(HexText(ToI(field)), 2, '0')
  }

  /** `RangeFile#string_to_ip_num`: every dotted field in two-digit hex,
      concatenated, and read back as one hexadecimal number. */
  function StringToIpNum(s: string): int
  {
    var fields := RubySplit(s, '.');
    HexOf(Join(seq(|fields|, i requires 0 <= i < |fields| => OctetHex(fields[i])), ""))
  }

  /** `to_i` reads a run of decimal digits as its value. */
  lemma ToIDigits(f: string)
    requires IsDigits(f)
    ensures AllChars(f, IsHexDigit)
    ensures ToI(f) == ValueOf(f, 10)
  {
    assert Run(f, IsRegexSpace) == 0;
    assert f[0..] == f;
    assert |f| >= 2 ==> IsDigit(f[1]);
    assert DropDecimalPrefix(f) == f;
    ReadDigitsAll(f);
  }

  /** `hex` reads back whatever `to_s(16)` wrote. */
  lemma HexOfHexText(n: int)
    ensures HexOf(HexText(n)) == n
  {
    var m := if n < 0 then -n else n;
    var h := Hex(m);
    RunAll(h, IsHexDigit);
    assert h[..|h|] == h;
    NumeralValue(m, 16);
    if n < 0 {
      assert ("-" + h)[1..] == h;
    } else {
      assert h[0] != '-' && h[0] != '+';
    }
  }

  /** `hex` on a text of hexadecimal digits alone is its value. */
  lemma HexOfDigits(s: string)
    requires AllChars(s, IsHexDigit)
    ensures HexOf(s) == ValueOf(s, 16)
  {
    RunAll(s, IsHexDigit);
    assert s[..|s|] == s;
  }

  /** The two hex digits a number below 256 is padded to. */
  lemma OctetHexDigits(v: nat)
    requires v < 256
    ensures var h := RJust(HexText(v), 2, '0');
      |h| == 2 && AllChars(h, IsHexDigit) && ValueOf(h, 16) == v
  {
    var x := Hex(v);
    PowerLiterals();
    NumeralLength(v, 16, 2);
    NumeralValue(v, 16);
    var h := RJust(x, 2, '0');
    if |x| < 2 {
      assert h == "0" + x;
      ValueOfLeadingZero(x, 16);
    }
  }

  lemma {:induction false} JoinEmptySnoc(parts: seq<string>, x: string)
    ensures Join(parts + [x], "") == Join(parts, "") + x
  {
    if |parts| == 0 {
      assert parts + [x] == [x];
    } else if |parts| == 1 {
      assert (parts + [x])[1..] == [x];
    } else {
      assert (parts + [x])[1..] == parts[1..] + [x];
      JoinEmptySnoc(parts[1..], x);
    }
  }

  /** Two-digit hex blocks, concatenated, read as the base-256 number of
      the values they stand for. */
  lemma {:induction false} BlocksValue(blocks: seq<string>, vs: seq<nat>)
    requires |blocks| == |vs|
    requires forall i :: 0 <= i < |vs| ==>
      |blocks[i]| == 2 && AllChars(blocks[i], IsHexDigit) && ValueOf(blocks[i], 16) == vs[i]
    ensures AllChars(Join(blocks, ""), IsHexDigit)
    ensures |Join(blocks, "")| == 2 * |blocks|
    ensures ValueOf(Join(blocks, ""), 16) == ValueBE(vs, 256)
  {
    if |blocks| > 0 {
      var n := |blocks| - 1;
      var init, last := blocks[..n], blocks[n];
      assert init + [last] == blocks;
      BlocksValue(init, vs[..n]);
      JoinEmptySnoc(init, last);
      var j := Join(init, "");
      ValueOfConcat(j, last, 16);
      PowerLiterals();
      assert vs[..n] + [vs[n]] == vs;
    }
  }

  /** `split('.')` undoes the join of non-empty fields free of dots. */
  lemma RubySplitJoin(fields: seq<string>)
    requires |fields| >= 1 && fields[|fields| - 1] != ""
    requires forall i :: 0 <= i < |fields| ==> '.' !in fields[i]
    ensures RubySplit(Join(fields, "."), '.') == fields
  {
    SplitJoin(fields, '.');
  }

  /** The range file's trick works: dotted decimal fields, each below 256,
      read as the big-endian base-256 number they spell. */
  lemma StringToIpNumDotted(fields: seq<string>, vs: seq<nat>)
    requires |fields| == |vs| >= 1
    requires forall i :: 0 <= i < |fields| ==> IsDigits(fields[i]) && DigitsValue(fields[i]) == vs[i] < 256
    ensures StringToIpNum(Join(fields, ".")) == ValueBE(vs, 256)
  {
    forall i | 0 <= i < |fields|
      ensures '.' !in fields[i]
    {
      assert forall k :: 0 <= k < |fields[i]| ==> IsDigit(fields[i][k]);
    }
    RubySplitJoin(fields);
    var blocks := seq(|fields|, i requires 0 <= i < |fields| => OctetHex(fields[i]));
    forall i | 0 <= i < |fields|
      ensures |blocks[i]| == 2 && AllChars(blocks[i], IsHexDigit) && ValueOf(blocks[i], 16) == vs[i]
    {
      ToIDigits(fields[i]);
      OctetHexDigits(vs[i]);
    }
    BlocksValue(blocks, vs);
    HexOfDigits(Join(blocks, ""));
  }

  /** Every IPv4 address, printed, converts back to its number. */
  lemma StringToIpNumShowV4(n: nat)
    requires n < TWO32
    ensures StringToIpNum(IpText.ShowV4(n)) == n
  {
    var os := IpText.Octets(n);
    var fields := seq(4, i requires 0 <= i < 4 => Decimal(os[i]));
    forall i | 0 <= i < 4
      ensures IsDigits(fields[i]) && DigitsValue(fields[i]) == os[i] < 256
    {
      DecimalDigits(os[i]);
    }
    StringToIpNumDotted(fields, os);
  }

  // ------------------------------------------------------------ create

  /** The number a range bound converts to; a missing bound is `nil`, which
      has no `split`. */
  function BoundNum(text: Option<string>): (r: Result<int>)
    ensures r.Ok? <==> text.Some?
    ensures text.None? ==> r == Err(NoMethod("split"))
  {
    match text
    case None => Err(NoMethod("split"))
    case Some(s) => Ok(StringToIpNum(s))
  }

  /** `ConfigFile.create`: the class is chosen from the last component of
      the path, the variables are parsed from the content, and each class
      captures what its `initialize` reads. */
  function Create(filename: string, content: string): (r: Result<ConfigFile>)
    ensures Parse(content).Err? ==> r == Err(Parse(content).error)
    ensures r.Ok? ==> Parse(content).Ok? && r.value.vars == Parse(content).value
    ensures r.Ok? ==> r.value.filename == filename && KindOf(r.value) == Classify(filename)
    ensures r.Ok? ==> r.value.device == CapturesOf(ParseFilename(Basename(filename))).device
    ensures Parse(content).Ok? ==>
      (r.Ok? <==> (Classify(filename) == Range ==>
         HasKey(Parse(content).value, KEY_START) && HasKey(Parse(content).value, KEY_END)))
  {
    var c := CapturesOf(ParseFilename(Basename(filename)));
    var vars :- Parse(content);
    match Dispatch(c)
    case Primary => Ok(PrimaryFile(filename, c.device, vars))
    case Clone => Ok(CloneFile(filename, c.device, vars, Get(vars, KEY_IPADDR), c.clone.value))
    case Range =>
      var start :- BoundNum(Get(vars, KEY_START));
      var end :- BoundNum(Get(vars, KEY_END));
      var startClone := match Get(vars, KEY_CLONENUM_START)
        case None => None
        case Some(t) => Some(ToI(t));
      Ok(RangeFile(filename, c.device, vars, start, end, startClone))
    case Loopback => Ok(LoopbackFile(filename, c.device, vars, Get(vars, KEY_IPADDR)))
  }

  // ------------------------------------------------------------ queries

  /** `static?`: a primary file is static exactly when BOOTPROTO is the
      text `none`; the other classes always are. */
  predicate Static(f: ConfigFile)
  {
    f.PrimaryFile? ==> Get(f.vars, KEY_BOOTPROTO) == Some("none")
  }

  /** `include?(ip)`: the same text as the stored address for a primary,
      clone or loopback file, and a number between the bounds, both
      inclusive, for a range file. */
  predicate Include(f: ConfigFile, ip: string)
  {
    match f
    case PrimaryFile(_, _, vars) => Get(vars, KEY_IPADDR) == Some(ip)
    case CloneFile(_, _, _, addr, _) => addr == Some(ip)
    case RangeFile(_, _, _, lo, hi, _) => lo <= StringToIpNum(ip) <= hi
    case LoopbackFile(_, _, _, addr) => addr == Some(ip)
  }

  /** `ip_address`: the primary file reads it from its variables each
      time, and the clone file returns what it captured. The loopback file
      captures IPADDR the same way but has no public reader; what it holds
      is what `include?` compares with. */
  function IpAddressOf(f: ConfigFile): (r: Option<string>)
    requires !f.RangeFile?
    ensures f.PrimaryFile? ==> r == Get(f.vars, KEY_IPADDR)
    ensures !f.PrimaryFile? ==> r == f.ip
  {
    if f.PrimaryFile? then Get(f.vars, KEY_IPADDR) else f.ip
  }

  /** A clone or loopback file built from content captures the IPADDR its
      variables hold, so `include?` compares against that. */
  lemma CreatedIncludes(filename: string, content: string, ip: string)
    requires Create(filename, content).Ok?
    ensures var f := Create(filename, content).value;
      !f.RangeFile? ==> (Include(f, ip) <==> Get(f.vars, KEY_IPADDR) == Some(ip))
  {}

  /** Any text `IPAddr` reads as IPv4 converts to the address's number. */
  lemma StringToIpNumV4(ip: string)
    requires IpText.ParseV4(ip).Some?
    ensures StringToIpNum(ip) == IpText.ParseV4(ip).value
  {
    IpText.ShowParseV4(ip);
    StringToIpNumShowV4(IpText.ParseV4(ip).value);
  }

  /** A range file includes an IPv4 text exactly when the address's
      number lies between the bounds. */
  lemma RangeIncludes(f: ConfigFile, ip: string)
    requires f.RangeFile? && IpText.ParseV4(ip).Some?
    ensures Include(f, ip) <==> f.startNum <= IpText.ParseV4(ip).value <= f.endNum
  {
    var n := IpText.ParseV4(ip).value;
    assert StringToIpNum(ip) == n by {
      StringToIpNumV4(ip);
    }
    assert Include(f, ip) == (f.startNum <= StringToIpNum(ip) <= f.endNum);
  }

  /** A range file whose bounds are printed addresses holds their numbers. */
  lemma CreatedRangeBounds(filename: string, content: string, lo: nat, hi: nat)
    requires lo < TWO32 && hi < TWO32
    requires Parse(content).Ok? && Classify(filename) == Range
    requires Get(Parse(content).value, KEY_START) == Some(IpText.ShowV4(lo))
    requires Get(Parse(content).value, KEY_END) == Some(IpText.ShowV4(hi))
    ensures Create(filename, content).Ok?
    ensures Create(filename, content).value.startNum == lo
    ensures Create(filename, content).value.endNum == hi
  {
    var vars := Parse(content).value;
    assert Create(filename, content).Ok? by {
      assert HasKey(vars, KEY_START) && HasKey(vars, KEY_END);
    }
    RangeNums(filename, content);
    StringToIpNumShowV4(lo);
    StringToIpNumShowV4(hi);
  }

  /** A range file converts its bound texts with `string_to_ip_num`. */
  lemma RangeNums(filename: string, content: string)
    requires Create(filename, content).Ok? && Create(filename, content).value.RangeFile?
    ensures var f := Create(filename, content).value;
      && Get(f.vars, KEY_START).Some? && Get(f.vars, KEY_END).Some?
      && f.startNum == StringToIpNum(Get(f.vars, KEY_START).value)
      && f.endNum == StringToIpNum(Get(f.vars, KEY_END).value)
  {
    var c := CapturesOf(ParseFilename(Basename(filename)));
    var vars := Parse(content).value;
    assert Dispatch(c) == Range;
    var start := BoundNum(Get(vars, KEY_START));
    var end := BoundNum(Get(vars, KEY_END));
    assert start.Ok? && end.Ok?;
  }

  /** A file whose name the grammar accepts is built as the class its
      captures select, with the device and clone number from its name. */
  lemma CreateFromName(dir: string, name: FileName, content: string)
    requires WellFormedName(name) && Parse(content).Ok?
    requires name.range.None?
    ensures var r := Create(dir + "/" + FilenameText(name), content);
      && r.Ok?
      && r.value.device == Some(name.device)
      && (name.clone.Some? ==> r.value.CloneFile? && r.value.cloneNum == name.clone.value)
      && (name.clone.None? ==> (if name.device == "lo" then r.value.LoopbackFile? else r.value.PrimaryFile?))
  {
    var path := dir + "/" + FilenameText(name);
    var c := CapturesOf(Some(name));
    assert CapturesOf(ParseFilename(Basename(path))) == c by {
      NameHasNoSlash(name);
      BasenameOfPath(dir, FilenameText(name));
      ParseFilenameText(name);
    }
    DispatchCases(c);
    CreateCaptures(path, content, c);
  }

  /** A non-range file is built from the captures of its name. */
  lemma CreateCaptures(path: string, content: string, c: Captures)
    requires Parse(content).Ok? && CapturesOf(ParseFilename(Basename(path))) == c
    requires Dispatch(c) != Range
    ensures var r := Create(path, content);
      && r.Ok? && KindOf(r.value) == Dispatch(c) && r.value.device == c.device
      && (r.value.CloneFile? ==> c.clone == Some(r.value.cloneNum))
  {}

  lemma NameHasNoSlash(name: FileName)
    requires WellFormedName(name)
    ensures FilenameText(name) != "" && '/' !in FilenameText(name)
  {
    var t := FilenameText(name);
    var s := SuffixText(name.range, name.clone);
    assert t == PREFIX + name.device + s;
    assert forall i :: 0 <= i < |name.device| ==> name.device[i] != '/';
    match name.range {
      case Some(n) =>
        assert forall i :: 0 <= i < |Decimal(n)| ==> IsDigit(Decimal(n)[i]);
      case None =>
    }
    match name.clone {
      case Some(n) =>
        assert forall i :: 0 <= i < |Decimal(n)| ==> IsDigit(Decimal(n)[i]);
      case None =>
    }
  }

  /** `static?` of a created file: a primary file exactly when its
      BOOTPROTO reads `none`, every other class always. */
  lemma CreatedStatic(filename: string, content: string)
    requires Create(filename, content).Ok?
    ensures Static(Create(filename, content).value) <==>
      Classify(filename) != Primary || Get(Parse(content).value, KEY_BOOTPROTO) == Some("none")
  {}

  /** `start_clone_num` of a created range file: nil exactly when
      CLONENUM_START is absent, and the number a decimal CLONENUM_START
      spells. */
  lemma CreatedStartClone(filename: string, content: string)
    requires Create(filename, content).Ok? && Create(filename, content).value.RangeFile?
    ensures var f := Create(filename, content).value;
      var t := Get(f.vars, KEY_CLONENUM_START);
      && (f.startCloneNum.None? <==> t.None?)
      && (t.Some? && IsDigits(t.value) ==> f.startCloneNum == Some(DigitsValue(t.value)))
  {
    var t := Get(Create(filename, content).value.vars, KEY_CLONENUM_START);
    if t.Some? && IsDigits(t.value) {
      ToIDigits(t.value);
    }
  }

  // ------------------------------------------------------------ setters

  /** The three address fields a `PrimaryFile` can be given. */
  datatype AddressField = IpAddressField | Ipv6AddressField | Ipv6SecondariesField

  function FieldKey(field: AddressField): (k: string)
    ensures Handled(Upcase(k))
  {
    UpcaseKeys();
    match field
    case IpAddressField => KEY_IPADDR
    case Ipv6AddressField => KEY_IPV6ADDR
    case Ipv6SecondariesField => KEY_SECONDARIES
  }

  /** `nm_controlled?`. */
  predicate NmControlled(f: ConfigFile)
  {
    Get(f.vars, KEY_NM_CONTROLLED) == Some("yes")
  }

  /** `ip_address=`, `ipv6_address=` and `ipv6_secondaries=`: the value is
      stored, BOOTPROTO is set to `none` unless the file is already
      static, and NM_CONTROLLED is set to `no` on every call. */
  function SetAddress(f: ConfigFile, field: AddressField, value: Value): (r: Result<ConfigFile>)
    requires f.PrimaryFile? && WellFormed(f.vars)
    ensures r.Ok? <==> Set(f.vars, FieldKey(field), value).Ok?
    ensures r.Err? ==> r == Err(Set(f.vars, FieldKey(field), value).error)
    ensures r.Ok? ==> r.value.PrimaryFile? && WellFormed(r.value.vars)
    ensures r.Ok? ==> r.value.filename == f.filename && r.value.device == f.device
    ensures r.Ok? ==> Static(r.value) && !NmControlled(r.value)
    ensures r.Ok? ==> Get(r.value.vars, FieldKey(field)) == Get(Set(f.vars, FieldKey(field), value).value, FieldKey(field))
    ensures r.Ok? <==> SetPair(f.vars, FieldKey(field), value).Ok?
    ensures r.Err? ==> r.error == SetPair(f.vars, FieldKey(field), value).error
    ensures r.Ok? ==> Get(r.value.vars, FieldKey(field)) == Some(ValueText(SetPair(f.vars, FieldKey(field), value).value))
    ensures r.Ok? ==> forall m :: Upcase(m) != Upcase(FieldKey(field)) && Upcase(m) != BOOTPROTO && Upcase(m) != NM_CONTROLLED ==>
      Get(r.value.vars, m) == Get(f.vars, m)
  {
    var key := FieldKey(field);
    var stored :- Set(f.vars, key, value);
    var madeStatic := MakeStatic(stored);
    var done := DisableNm(madeStatic);
    SetterFacts(f.vars, key, value, stored, madeStatic, done);
    Ok(PrimaryFile(f.filename, f.device, done))
  }

  /** `ip_address = t` succeeds exactly when `t` is an IPv4 address, raises
      what `IpV4Address.new` raises otherwise, and on success `ip_address`
      reads back as that address's dotted quad. */
  lemma SetIpAddress(f: ConfigFile, t: string)
    requires f.PrimaryFile? && WellFormed(f.vars)
    ensures var r := SetAddress(f, IpAddressField, Str(t));
      && (r.Ok? <==> IpAddresses.V4Address(t).Ok?)
      && (r.Err? ==> r.error == IpAddresses.V4Address(t).error)
      && (r.Ok? ==> IpAddressOf(r.value) == Some(V4Text(IpAddresses.V4Address(t).value.bits)))
  {
    SetIpaddr(f.vars, t);
  }

  /** `ipv6_address = t` stores what `IpV6Primary#value=` makes of `t`,
      and raises what it raises. */
  lemma SetIpv6Address(f: ConfigFile, t: string)
    requires f.PrimaryFile? && WellFormed(f.vars)
    ensures var r := SetAddress(f, Ipv6AddressField, Str(t));
      var a := AssignV6Primary(Str(t), SiblingsOf(f.vars));
      && (r.Ok? <==> a.Ok?)
      && (r.Err? ==> r.error == a.error)
      && (r.Ok? ==> Get(r.value.vars, KEY_IPV6ADDR) == Some(ValueText(a.value)))
  {
    UpcaseKeys();
    SetHandled(f.vars, KEY_IPV6ADDR, Str(t));
  }

  /** `ipv6_secondaries = ips` with an Array parses, sorts and filters it
      as `IpV6Secondaries#value=` does, whether or not the file had the
      variable before. */
  lemma SetIpv6Secondaries(f: ConfigFile, ips: seq<string>)
    requires f.PrimaryFile? && WellFormed(f.vars)
    ensures var r := SetAddress(f, Ipv6SecondariesField, Items(ips));
      var a := AssignSecondaries(ips, SiblingsOf(f.vars));
      && (r.Ok? <==> a.Ok?)
      && (r.Err? ==> r.error == a.error)
      && (r.Ok? ==> Get(r.value.vars, KEY_SECONDARIES) == Some(ValueText(a.value)))
  {
    var sib := SiblingsOf(f.vars);
    assert FieldKey(Ipv6SecondariesField) == KEY_SECONDARIES;
    assert SetPair(f.vars, KEY_SECONDARIES, Items(ips)) == AssignSecondaries(ips, sib) by {
      UpcaseKeys();
      SetHandled(f.vars, KEY_SECONDARIES, Items(ips));
      assert NewSecondaries(Items(ips), sib) == AssignSecondaries(ips, sib);
    }
    SetAddressStores(f, Ipv6SecondariesField, Items(ips), AssignSecondaries(ips, sib));
  }

  /** A setter's outcome, given the pair `[]=` builds for its field. */
  lemma SetAddressStores(f: ConfigFile, field: AddressField, value: Value, a: Result<Pair>)
    requires f.PrimaryFile? && WellFormed(f.vars)
    requires SetPair(f.vars, FieldKey(field), value) == a
    ensures var r := SetAddress(f, field, value);
      && (r.Ok? <==> a.Ok?)
      && (r.Err? ==> r.error == a.error)
      && (r.Ok? ==> Get(r.value.vars, FieldKey(field)) == Some(ValueText(a.value)))
  {}

  /** `make_static` unless already static. */
  function MakeStatic(vars: ValueSet): (r: ValueSet)
    requires WellFormed(vars)
    ensures WellFormed(r)
  {
    if Get(vars, KEY_BOOTPROTO) == Some("none") then vars
    else
      NotHandledLiterals();
      Set(vars, BOOTPROTO, Str("none")).value
  }

  /** `disable_nm`. */
  function DisableNm(vars: ValueSet): (r: ValueSet)
    requires WellFormed(vars)
    ensures WellFormed(r)
  {
    NotHandledLiterals();
    Set(vars, NM_CONTROLLED, Str("no")).value
  }

  lemma NotHandledLiterals()
    ensures !Handled(Upcase(BOOTPROTO)) && !Handled(Upcase(NM_CONTROLLED))
  {
    UpcaseKeys();
  }

  /** After `make_static` BOOTPROTO reads `none`, and nothing else moved. */
  lemma MakeStaticFacts(vs: ValueSet)
    requires WellFormed(vs)
    ensures Get(MakeStatic(vs), KEY_BOOTPROTO) == Some("none")
    ensures forall m :: Upcase(m) != BOOTPROTO ==> Get(MakeStatic(vs), m) == Get(vs, m)
  {
    if Get(vs, KEY_BOOTPROTO) != Some("none") {
      UpcaseKeys();
      GetAfterSet(vs, BOOTPROTO, "none");
      LookupIgnoresCase(MakeStatic(vs), KEY_BOOTPROTO);
    }
  }

  /** After `disable_nm` NM_CONTROLLED reads `no`, and nothing else moved. */
  lemma DisableNmFacts(vs: ValueSet)
    requires WellFormed(vs)
    ensures Get(DisableNm(vs), KEY_NM_CONTROLLED) == Some("no")
    ensures forall m :: Upcase(m) != NM_CONTROLLED ==> Get(DisableNm(vs), m) == Get(vs, m)
  {
    UpcaseKeys();
    GetAfterSet(vs, NM_CONTROLLED, "no");
    LookupIgnoresCase(DisableNm(vs), KEY_NM_CONTROLLED);
  }

  lemma SetterFacts(vs: ValueSet, key: string, value: Value, stored: ValueSet, madeStatic: ValueSet, done: ValueSet)
    requires WellFormed(vs) && Handled(Upcase(key))
    requires Set(vs, key, value) == Ok(stored)
    requires WellFormed(stored) && madeStatic == MakeStatic(stored) && done == DisableNm(madeStatic)
    ensures Get(done, KEY_BOOTPROTO) == Some("none")
    ensures Get(done, KEY_NM_CONTROLLED) == Some("no")
    ensures Get(done, key) == Get(stored, key)
    ensures forall m :: Upcase(m) != Upcase(key) && Upcase(m) != BOOTPROTO && Upcase(m) != NM_CONTROLLED ==>
      Get(done, m) == Get(vs, m)
  {
    UpcaseKeys();
    SetKeepsOthers(vs, key, value);
    MakeStaticFacts(stored);
    DisableNmFacts(madeStatic);
  }

  /** `ipv6_secondaries`: the stored list split on runs of white space. */
  function Ipv6Secondaries(f: ConfigFile): (r: Option<seq<string>>)
    requires f.PrimaryFile?
    ensures r.Some? <==> HasKey(f.vars, KEY_SECONDARIES)
  {
    match Get(f.vars, KEY_SECONDARIES)
    case None => None
    case Some(t) => Some(SplitRuns(t, REGEX_SPACES))
  }

  /** A stored secondaries list reads back through `ipv6_secondaries` as
      its entries' texts, one word per entry, whenever no mask holds white
      space. */
  lemma Ipv6SecondariesStored(f: ConfigFile, es: seq<Secondaries.Entry>)
    requires f.PrimaryFile?
    requires Lookup(f.vars, KEY_SECONDARIES) == Some(V6Secondaries(es))
    requires forall k :: 0 <= k < |es| ==> NoneIn(MaskText(es[k].mask), REGEX_SPACES)
    ensures Ipv6Secondaries(f) == Some(EntryTexts(es))
  {
    assert Get(f.vars, KEY_SECONDARIES) == Some(ValueText(V6Secondaries(es)));
    SecondariesWords(es);
  }
}
