/** The class-level side of `Iface::ConfigFile` (`config_file.rb`): the
    last path component, the `ifcfg-<device>[-range<N>|:<N>]` filename
    grammar, the first-match dispatch over `FILE_TYPES`, and the type tag
    `file_type_name` derives from a class name through `decamelize`. */
module FileNames {
  import opened Text
  import opened Numerals
  import opened Results

  // ---------------------------------------------------------- basename

  function DropTrailingSlashes(s: string): (r: string)
    ensures r <= s
    ensures r == "" || r[|r| - 1] != '/'
    ensures forall k :: |r| <= k < |s| ==> s[k] == '/'
  {
    if |s| > 0 && s[|s| - 1] == '/' then DropTrailingSlashes(s[..|s| - 1]) else s
  }

  /** The text after the last `/` of `s`, or all of `s` when it has none. */
  function AfterLastSlash(s: string): (r: string)
    ensures '/' !in r
    ensures |r| <= |s| && r == s[|s| - |r|..]
    ensures |r| < |s| ==> s[|s| - |r| - 1] == '/'
  {
    if |s| == 0 then ""
    else if s[|s| - 1] == '/' then ""
    else AfterLastSlash(s[..|s| - 1]) + [s[|s| - 1]]
  }

  /** `File.split(path).last`: trailing slashes are ignored, a path made of
      slashes alone gives `"/"`, and the empty path gives `""`. */
  function Basename(path: string): (r: string)
    ensures '/' !in r || r == "/"
  {
    var t := DropTrailingSlashes(path);
    if path != "" && t == "" then "/" else AfterLastSlash(t)
  }

  /** A name without slashes is its own basename, wherever it is put. */
  lemma BasenameOfPath(dir: string, name: string)
    requires name != "" && '/' !in name
    ensures Basename(name) == name
    ensures Basename(dir + "/" + name) == name
  {
    var p := dir + "/" + name;
    assert p[|p| - 1] == name[|name| - 1];
    assert DropTrailingSlashes(name) == name;
    assert DropTrailingSlashes(p) == p;
    NoSlashIsLast(name, "");
    assert "" + name == name;
    NoSlashIsLast(name, dir + "/");
  }

  lemma {:induction false} NoSlashIsLast(name: string, pre: string)
    requires '/' !in name
    requires pre == "" || pre[|pre| - 1] == '/'
    ensures AfterLastSlash(pre + name) == name
    decreases |name|
  {
    if name == "" {
      assert pre + name == pre;
    } else {
      var t := pre + name;
      var init, last := name[..|name| - 1], name[|name| - 1];
      assert t[..|t| - 1] == pre + init && t[|t| - 1] == last && last != '/';
      assert AfterLastSlash(t) == AfterLastSlash(pre + init) + [last];
      NoSlashIsLast(init, pre);
      assert init + [last] == name;
    }
  }

  // ---------------------------------------------------------- filenames

  /** The captures of `parse_filename`: the device and at most one of the
      range and clone numbers. */
  datatype FileName = FileName(device: string, range: Option<nat>, clone: Option<nat>)

  const PREFIX: string := "ifcfg-"
  const RANGE_MARK: string := "-range"

  /** The length of the longest prefix of `s` made of `\w` characters. */
  function WordRun(s: string): (k: nat)
    ensures k <= |s|
    ensures forall i :: 0 <= i < k ==> IsWordChar(s[i])
    ensures k < |s| ==> !IsWordChar(s[k])
  {
    if |s| == 0 || !IsWordChar(s[0]) then 0 else 1 + WordRun(s[1..])
  }

  predicate IsDigits(s: string)
  {
    s != "" && forall i :: 0 <= i < |s| ==> IsDigit(s[i])
  }

  /** The value of a run of decimal digits, as `to_i` reads it. */
  function DigitsValue(s: string): nat
    requires IsDigits(s)
  {
    assert forall i :: 0 <= i < |s| ==> IsHexDigit(s[i]);
    ValueOf(s, 10)
  }

  /** `\Z`: the end of the text, or just before a final newline. */
  function BeforeFinalNewline(s: string): (r: string)
    ensures r <= s && |s| - 1 <= |r|
  {
    if |s| > 0 && s[|s| - 1] == '\n' then s[..|s| - 1] else s
  }

  /** The optional tail of the grammar, `((-range(\d+))|(:(\d+)))?`, as
      the range and clone numbers it captures. */
  function ParseSuffix(suffix: string): (r: Option<(Option<nat>, Option<nat>)>)
    ensures r.Some? ==> r.value.0.None? || r.value.1.None?
    ensures r == Some((None, None)) <==> suffix == ""
  {
    if suffix == "" then Some((None, None))
    else if RANGE_MARK <= suffix && IsDigits(suffix[|RANGE_MARK|..]) then
      Some((Some(DigitsValue(suffix[|RANGE_MARK|..])), None))
    else if suffix[0] == ':' && IsDigits(suffix[1..]) then
      Some((None, Some(DigitsValue(suffix[1..]))))
    else None
  }

  /** The text after `ifcfg-`. `\w` cannot match `-` or `:`, so the device
      is the longest word run and the rest must be a suffix. */
  function ParseRest(rest: string): (r: Option<FileName>)
    ensures r.Some? ==> r.value.device != "" && forall i :: 0 <= i < |r.value.device| ==> IsWordChar(r.value.device[i])
    ensures r.Some? ==> r.value.range.None? || r.value.clone.None?
  {
    var k := WordRun(rest);
    if k == 0 then None
    else
      match ParseSuffix(rest[k..])
      case None => None
      case Some((range, clone)) => Some(FileName(rest[..k], range, clone))
  }

  /** `parse_filename`:
      `/\Aifcfg-(\w+)((-range(\d+))|(:(\d+)))?\Z/`. */
  function ParseFilename(fname: string): (r: Option<FileName>)
    ensures r.Some? ==> r.value.device != "" && forall i :: 0 <= i < |r.value.device| ==> IsWordChar(r.value.device[i])
    ensures r.Some? ==> r.value.range.None? || r.value.clone.None?
    ensures !(PREFIX <= fname) ==> r.None?
  {
    var body := BeforeFinalNewline(fname);
    if !(PREFIX <= body) then None else ParseRest(body[|PREFIX|..])
  }

  /** The suffix a range or clone number is written as, in decimal. */
  function SuffixText(range: Option<nat>, clone: Option<nat>): string
  {
    (match range case Some(n) => RANGE_MARK + Decimal(n) case None => "")
      + (match clone case Some(n) => ":" + Decimal(n) case None => "")
  }

  /** The filename a `FileName` stands for. */
  function FilenameText(f: FileName): string
  {
    PREFIX + f.device + SuffixText(f.range, f.clone)
  }

  predicate WellFormedName(f: FileName)
  {
    && f.device != ""
    && (forall i :: 0 <= i < |f.device| ==> IsWordChar(f.device[i]))
    && (f.range.None? || f.clone.None?)
  }

  lemma DecimalDigits(n: nat)
    ensures IsDigits(Decimal(n))
    ensures DigitsValue(Decimal(n)) == n
  {
    var d := Decimal(n);
    assert forall i :: 0 <= i < |d| ==> IsDigit(d[i]);
    NumeralValue(n, 10);
  }

  /** A written suffix parses back, and neither begins with a word
      character nor ends in a newline. */
  lemma ParseSuffixText(range: Option<nat>, clone: Option<nat>)
    requires range.None? || clone.None?
    ensures ParseSuffix(SuffixText(range, clone)) == Some((range, clone))
    ensures var t := SuffixText(range, clone);
      t == "" || (!IsWordChar(t[0]) && t[|t| - 1] != '\n')
  {
    match range {
      case Some(n) =>
        assert SuffixText(range, clone) == RANGE_MARK + Decimal(n);
        RangeSuffix(n);
      case None =>
        match clone {
          case Some(n) =>
            assert SuffixText(range, clone) == ":" + Decimal(n);
            CloneSuffix(n);
          case None =>
            assert SuffixText(range, clone) == "";
        }
    }
  }

  lemma RangeSuffix(n: nat)
    ensures ParseSuffix(RANGE_MARK + Decimal(n)) == Some((Some(n), None))
    ensures var t := RANGE_MARK + Decimal(n); !IsWordChar(t[0]) && t[|t| - 1] != '\n'
  {
    var d := Decimal(n);
    var t := RANGE_MARK + d;
    DecimalDigits(n);
    assert t[|RANGE_MARK|..] == d;
    assert t[|t| - 1] == d[|d| - 1];
  }

  lemma CloneSuffix(n: nat)
    ensures ParseSuffix(":" + Decimal(n)) == Some((None, Some(n)))
    ensures var t := ":" + Decimal(n); !IsWordChar(t[0]) && t[|t| - 1] != '\n'
  {
    var d := Decimal(n);
    var t := ":" + d;
    DecimalDigits(n);
    assert t[1..] == d;
    assert t[|t| - 1] == d[|d| - 1];
    assert !(RANGE_MARK <= t) by {
      assert t[0] != RANGE_MARK[0];
    }
  }

  lemma {:induction false} WordRunConcat(w: string, s: string)
    requires forall i :: 0 <= i < |w| ==> IsWordChar(w[i])
    requires s == "" || !IsWordChar(s[0])
    ensures WordRun(w + s) == |w|
    decreases |w|
  {
    if w != "" {
      assert (w + s)[1..] == w[1..] + s;
      WordRunConcat(w[1..], s);
    } else {
      assert w + s == s;
    }
  }

  /** Every well-formed filename parses back into its parts. */
  lemma ParseFilenameText(f: FileName)
    requires WellFormedName(f)
    ensures ParseFilename(FilenameText(f)) == Some(f)
  {
    var rest := f.device + SuffixText(f.range, f.clone);
    assert ParseRest(rest) == Some(f) && rest[|rest| - 1] != '\n' by {
      ParseRestText(f);
    }
    assert FilenameText(f) == PREFIX + rest;
    PrefixedRest(rest);
  }

  /** The text after the prefix parses back into the parts. */
  lemma ParseRestText(f: FileName)
    requires WellFormedName(f)
    ensures var rest := f.device + SuffixText(f.range, f.clone);
      ParseRest(rest) == Some(f) && rest[|rest| - 1] != '\n'
  {
    var suffix := SuffixText(f.range, f.clone);
    ParseSuffixText(f.range, f.clone);
    WordThenSuffix(f.device, suffix);
    LastOfConcat(f.device, suffix);
  }

  /** A word run followed by a suffix splits at the end of the run. */
  lemma WordThenSuffix(w: string, suffix: string)
    requires w != "" && forall i :: 0 <= i < |w| ==> IsWordChar(w[i])
    requires suffix == "" || !IsWordChar(suffix[0])
    requires ParseSuffix(suffix).Some?
    ensures ParseRest(w + suffix)
      == Some(FileName(w, ParseSuffix(suffix).value.0, ParseSuffix(suffix).value.1))
  {
    var rest := w + suffix;
    WordRunConcat(w, suffix);
    assert rest[..|w|] == w && rest[|w|..] == suffix;
  }

  lemma LastOfConcat(a: string, b: string)
    requires a != ""
    ensures var t := a + b; t[|t| - 1] == if b == "" then a[|a| - 1] else b[|b| - 1]
  {}

  /** A name without a final newline is the prefix and what follows it. */
  lemma PrefixedRest(rest: string)
    requires rest != "" && rest[|rest| - 1] != '\n'
    ensures ParseFilename(PREFIX + rest) == ParseRest(rest)
  {
    var t := PREFIX + rest;
    assert t[|t| - 1] == rest[|rest| - 1];
    assert BeforeFinalNewline(t) == t;
    assert t[|PREFIX|..] == rest;
  }

  // ---------------------------------------------------------- dispatch

  /** The four concrete `ConfigFile` classes, in `FILE_TYPES` order. */
  datatype Kind = Primary | Clone | Range | Loopback

  const FILE_TYPES: seq<Kind> := [Primary, Clone, Range, Loopback]

  /** The captures `create` passes to `recognize?`; a name that does not
      parse gives nil for all three. */
  datatype Captures = Captures(device: Option<string>, range: Option<nat>, clone: Option<nat>)

  function CapturesOf(parsed: Option<FileName>): Captures
  {
    match parsed
    case None => Captures(None, None, None)
    case Some(f) => Captures(Some(f.device), f.range, f.clone)
  }

  /** `recognize?` of each class. A nil device is not `'lo'`. */
  predicate Recognize(k: Kind, c: Captures)
  {
    match k
    case Primary => c.device != Some("lo") && c.range.None? && c.clone.None?
    case Clone => c.clone.Some?
    case Range => c.range.Some?
    case Loopback => c.device == Some("lo")
  }

  /** The first kind in `kinds` that recognises the captures. */
  function FirstMatch(kinds: seq<Kind>, c: Captures): (r: Option<Kind>)
    ensures r.Some? ==> r.value in kinds && Recognize(r.value, c)
    ensures r.None? ==> forall i :: 0 <= i < |kinds| ==> !Recognize(kinds[i], c)
  {
    if |kinds| == 0 then None
    else if Recognize(kinds[0], c) then Some(kinds[0])
    else
      var r := FirstMatch(kinds[1..], c);
      assert forall i :: 1 <= i < |kinds| ==> kinds[i] == kinds[1..][i - 1];
      r
  }

  /** The dispatch of `create` is total: the `raise` after the loop is
      never reached, whatever the filename. */
  lemma DispatchTotal(c: Captures)
    ensures FirstMatch(FILE_TYPES, c).Some?
  {
    if c.clone.Some? {
      assert Recognize(FILE_TYPES[1], c);
    } else if c.range.Some? {
      assert Recognize(FILE_TYPES[2], c);
    } else if c.device == Some("lo") {
      assert Recognize(FILE_TYPES[3], c);
    } else {
      assert Recognize(FILE_TYPES[0], c);
    }
  }

  /** The class `create` picks for the captures, first match wins. */
  function Dispatch(c: Captures): (k: Kind)
    ensures Recognize(k, c)
  {
    DispatchTotal(c);
    FirstMatch(FILE_TYPES, c).value
  }

  /** What the first match is: a clone number wins over everything, then a
      range number, then the device `lo`, and otherwise a primary file. */
  lemma DispatchCases(c: Captures)
    requires c.range.None? || c.clone.None?
    ensures c.clone.Some? ==> Dispatch(c) == Clone
    ensures c.range.Some? ==> Dispatch(c) == Range
    ensures c.range.None? && c.clone.None? ==>
      Dispatch(c) == (if c.device == Some("lo") then Loopback else Primary)
  {
    var t1, t2 := FILE_TYPES[1..], FILE_TYPES[2..];
    assert t1 == [Clone, Range, Loopback] && t2 == [Range, Loopback] && t1[1..] == t2;
    if Recognize(Primary, c) {
      assert FirstMatch(FILE_TYPES, c) == Some(Primary);
    } else {
      assert FirstMatch(FILE_TYPES, c) == FirstMatch(t1, c);
      if c.clone.Some? {
        assert FirstMatch(t1, c) == Some(Clone);
      } else {
        assert FirstMatch(t1, c) == FirstMatch(t2, c);
        if c.range.None? {
          assert FirstMatch(t2, c) == FirstMatch([Loopback], c);
        }
      }
    }
  }

  /** The class `ConfigFile.create` picks for a filename. */
  function Classify(fname: string): Kind
  {
    Dispatch(CapturesOf(ParseFilename(Basename(fname))))
  }

  /** Which filenames land in which class: `lo` with a number is a clone
      or range file, bare `lo` the loopback file, and everything else,
      including names the grammar refuses, a primary file. */
  lemma ClassifyCases(fname: string)
    ensures var p := ParseFilename(Basename(fname));
      && (p.None? ==> Classify(fname) == Primary)
      && (p.Some? && p.value.clone.Some? ==> Classify(fname) == Clone)
      && (p.Some? && p.value.range.Some? ==> Classify(fname) == Range)
      && (p.Some? && p.value.range.None? && p.value.clone.None? ==>
            Classify(fname) == (if p.value.device == "lo" then Loopback else Primary))
  {
    DispatchCases(CapturesOf(ParseFilename(Basename(fname))));
  }

  // ---------------------------------------------------------- type tags

  /** The replacement `decamelize` makes for one character: a capital
      becomes lower case, with `_` in front unless nothing precedes it. */
  function DecamelizeChar(c: char, first: bool): (r: string)
    ensures 1 <= |r|
  {
    if IsUpper(c) then (if first then [DownChar(c)] else ['_', DownChar(c)]) else [c]
  }

  function DecamelizeRest(s: string): (r: string)
    ensures |s| <= |r|
    ensures forall i :: 0 <= i < |r| ==> !IsUpper(r[i])
  {
    if s == "" then "" else DecamelizeChar(s[0], false) + DecamelizeRest(s[1..])
  }

  /** `String#decamelize`. */
  function Decamelize(s: string): (r: string)
    ensures |s| <= |r|
    ensures forall i :: 0 <= i < |r| ==> !IsUpper(r[i])
  {
    if s == "" then "" else DecamelizeChar(s[0], true) + DecamelizeRest(s[1..])
  }

  /** A snake-case word: a lower-case letter, then lower-case letters and
      digits. */
  predicate IsWord(w: string)
  {
    && w != "" && IsLower(w[0])
    && forall i :: 0 <= i < |w| ==> IsLower(w[i]) || IsDigit(w[i])
  }

  predicate AllWords(words: seq<string>)
  {
    forall i :: 0 <= i < |words| ==> IsWord(words[i])
  }

  /** The camel-case spelling of a snake-case word. */
  function Capitalize(w: string): (r: string)
    requires IsWord(w)
    ensures |r| == |w|
  {
    [UpChar(w[0])] + w[1..]
  }

  /** The camel-case spelling of snake-case words: each word capitalised,
      then concatenated. */
  function Camelize(words: seq<string>): string
    requires AllWords(words)
  {
    if words == [] then ""
    else
      assert IsWord(words[0]);
      Capitalize(words[0]) + Camelize(words[1..])
  }

  lemma {:induction false} DecamelizeRestConcat(a: string, b: string)
    ensures DecamelizeRest(a + b) == DecamelizeRest(a) + DecamelizeRest(b)
    decreases |a|
  {
    if a != "" {
      assert (a + b)[0] == a[0] && (a + b)[1..] == a[1..] + b;
      DecamelizeRestConcat(a[1..], b);
    } else {
      assert a + b == b;
    }
  }

  lemma {:induction false} WordRestUnchanged(s: string)
    requires forall i :: 0 <= i < |s| ==> IsLower(s[i]) || IsDigit(s[i])
    ensures DecamelizeRest(s) == s
    decreases |s|
  {
    if s != "" {
      WordRestUnchanged(s[1..]);
      assert [s[0]] + s[1..] == s;
    }
  }

  lemma DownUp(c: char)
    requires IsLower(c)
    ensures DownChar(UpChar(c)) == c
  {}

  /** A capitalised word decamelizes back to itself at the start of a
      name. */
  lemma CapitalizeFirst(w: string, b: string)
    requires IsWord(w)
    ensures Decamelize(Capitalize(w) + b) == w + DecamelizeRest(b)
  {
    var t := Capitalize(w) + b;
    var d := DecamelizeRest(b);
    assert Decamelize(t) == [w[0]] + DecamelizeRest(w[1..] + b) by {
      assert t[0] == UpChar(w[0]) && t[1..] == w[1..] + b;
      DownUp(w[0]);
      assert DecamelizeChar(t[0], true) == [w[0]];
    }
    assert DecamelizeRest(w[1..] + b) == w[1..] + d by {
      WordRestUnchanged(w[1..]);
      DecamelizeRestConcat(w[1..], b);
    }
    HeadTail(w, d);
  }

  lemma HeadTail(w: string, d: string)
    requires w != ""
    ensures [w[0]] + (w[1..] + d) == w + d
  {
    assert [w[0]] + w[1..] == w;
  }

  /** Further on, it decamelizes back with `_` in front. */
  lemma CapitalizeLater(w: string, b: string)
    requires IsWord(w)
    ensures DecamelizeRest(Capitalize(w) + b) == "_" + w + DecamelizeRest(b)
  {
    var t := Capitalize(w) + b;
    var d := DecamelizeRest(b);
    assert DecamelizeRest(t) == ['_', w[0]] + DecamelizeRest(w[1..] + b) by {
      assert t[0] == UpChar(w[0]) && t[1..] == w[1..] + b;
      DownUp(w[0]);
      assert DecamelizeChar(t[0], false) == ['_', w[0]];
    }
    assert DecamelizeRest(w[1..] + b) == w[1..] + d by {
      WordRestUnchanged(w[1..]);
      DecamelizeRestConcat(w[1..], b);
    }
    UnderscoreHeadTail(w, d);
  }

  lemma UnderscoreHeadTail(w: string, d: string)
    requires w != ""
    ensures ['_', w[0]] + (w[1..] + d) == "_" + w + d
  {
    assert [w[0]] + w[1..] == w;
  }

  /** The tail of a camel-cased word list: every capital is a word start. */
  lemma {:induction false} RestOfCamelize(words: seq<string>)
    requires |words| >= 1 && AllWords(words)
    ensures DecamelizeRest(Camelize(words)) == "_" + Join(words, "_")
    decreases |words|
  {
    assert IsWord(words[0]);
    CapitalizeLater(words[0], Camelize(words[1..]));
    if |words| > 1 {
      RestOfCamelize(words[1..]);
    }
  }

  /** `decamelize` undoes `Camelize`: the words come back joined with `_`. */
  lemma {:induction false} DecamelizeCamelize(words: seq<string>)
    requires |words| >= 1 && AllWords(words)
    ensures Decamelize(Camelize(words)) == Join(words, "_")
  {
    assert IsWord(words[0]);
    CapitalizeFirst(words[0], Camelize(words[1..]));
    if |words| > 1 {
      RestOfCamelize(words[1..]);
    }
  }

  /** `file_type_name` on an unqualified class name: the name without its
      `File` suffix, decamelized; nil for a name without that suffix. */
  function FileTypeName(className: string): (r: Option<string>)
    ensures r.Some? <==> |className| >= 4 && className[|className| - 4..] == "File"
  {
    if |className| >= 4 && className[|className| - 4..] == "File" then
      Some(Decamelize(className[..|className| - 4]))
    else None
  }

  /** A class named after snake-case words has those words, joined with
      `_`, as its type name. */
  lemma FileTypeNameCamelize(words: seq<string>)
    requires |words| >= 1 && AllWords(words)
    ensures FileTypeName(Camelize(words) + "File") == Some(Join(words, "_"))
  {
    var n := Camelize(words) + "File";
    assert n[..|n| - 4] == Camelize(words);
    DecamelizeCamelize(words);
  }

  /** The tag `Config#add` files each kind under. */
  function Tag(k: Kind): string
  {
    match k
    case Primary => "primary"
    case Clone => "clone"
    case Range => "range"
    case Loopback => "loopback"
  }

  /** The unqualified class name of each kind. */
  function ClassName(k: Kind): string
  {
    match k
    case Primary => "PrimaryFile"
    case Clone => "CloneFile"
    case Range => "RangeFile"
    case Loopback => "LoopbackFile"
  }

  /** A class named after one snake-case word has that word as its type
      name. */
  lemma FileTypeNameOfWord(w: string)
    requires IsWord(w)
    ensures FileTypeName(Capitalize(w) + "File") == Some(w)
  {
    assert Camelize([w]) == Capitalize(w) by {
      assert Camelize([w]) == Capitalize(w) + Camelize([]);
    }
    assert Join([w], "_") == w;
    FileTypeNameCamelize([w]);
  }

  /** Each class's `file_type_name` is its tag. */
  lemma FileTypeNames(k: Kind)
    ensures FileTypeName(ClassName(k)) == Some(Tag(k))
  {
    TagSpelling(k);
    FileTypeNameOfWord(Tag(k));
  }

  /** Each class name is its tag, capitalised, with `File` appended. */
  lemma TagSpelling(k: Kind)
    ensures IsWord(Tag(k)) && ClassName(k) == Capitalize(Tag(k)) + "File"
  {
    var w := Tag(k);
    assert IsWord(w);
    assert Capitalize(w) == [UpChar(w[0])] + w[1..];
    match k
    case Primary => assert UpChar(w[0]) == 'P';
    case Clone => assert UpChar(w[0]) == 'C';
    case Range => assert UpChar(w[0]) == 'R';
    case Loopback => assert UpChar(w[0]) == 'L';
  }

  /** Different kinds have different tags. */
  lemma TagInjective(j: Kind, k: Kind)
    ensures Tag(j) == Tag(k) ==> j == k
  {}
}
