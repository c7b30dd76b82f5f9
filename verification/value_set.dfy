/** `Iface::ValueSet`: the ordered `NAME="value"` pairs of one ifcfg file.

    Names are stored upper-case and are unique; a later line with a name
    already present replaces the pair but keeps its place, as a Ruby Hash
    does. Every pair is built through the `Pair.create` dispatch, so an
    `IPADDR` line is held as an integer and read back through `fetch_raw`
    as one, as the value set tests expect; `value_set.rb` line 27 as
    written calls a one-argument `Pair.new`, which skips the dispatch. */
module ValueSets {
  import opened Text
  import opened Results
  import opened Pairs
  import IpText
  import IpAddresses
  import opened Arith

  datatype ValueSet = ValueSet(pairs: seq<Pair>)

  predicate UniqueNames(ps: seq<Pair>)
  {
    forall i, j :: 0 <= i < j < |ps| ==> Name(ps[i]) != Name(ps[j])
  }

  /** What every value set the operations build satisfies: unique names,
      and a generic pair never under a name the dispatch specialises. */
  predicate WellFormed(vs: ValueSet)
  {
    && UniqueNames(vs.pairs)
    && forall i :: 0 <= i < |vs.pairs| ==> vs.pairs[i].Generic? ==> !Handled(vs.pairs[i].name)
  }

  /** The position of the pair called `name`, or `|ps|` when there is none. */
  function Find(ps: seq<Pair>, name: string): (i: nat)
    ensures i <= |ps|
    ensures i < |ps| ==> Name(ps[i]) == name
    ensures forall k :: 0 <= k < i ==> Name(ps[k]) != name
  {
    if |ps| == 0 then 0
    else if Name(ps[0]) == name then 0
    else 1 + Find(ps[1..], name)
  }

  /** The pair `name.upcase` refers to. */
  function Lookup(vs: ValueSet, name: string): (r: Option<Pair>)
    ensures r.Some? <==> exists k :: 0 <= k < |vs.pairs| && Name(vs.pairs[k]) == Upcase(name)
    ensures r.Some? ==> r.value in vs.pairs && Name(r.value) == Upcase(name)
  {
    var i := Find(vs.pairs, Upcase(name));
    if i < |vs.pairs| then Some(vs.pairs[i]) else None
  }

  /** `ValueSet#[]`: the formatted value, or nil. */
  function Get(vs: ValueSet, name: string): (r: Option<string>)
    ensures r.Some? <==> Lookup(vs, name).Some?
    ensures r.Some? ==> r.value == ValueText(Lookup(vs, name).value)
  {
    match Lookup(vs, name)
    case None => None
    case Some(p) => Some(ValueText(p))
  }

  /** `ValueSet#key?`. */
  predicate HasKey(vs: ValueSet, name: string)
  {
    Lookup(vs, name).Some?
  }

  /** `ValueSet#fetch_raw`, as the value set tests use it: the stored value
      before formatting, or nil. */
  function FetchRaw(vs: ValueSet, name: string): (r: Option<Raw>)
    ensures r.Some? <==> HasKey(vs, name)
    ensures r.Some? ==> r.value == RawValue(Lookup(vs, name).value)
  {
    match Lookup(vs, name)
    case None => None
    case Some(p) => Some(RawValue(p))
  }

  /** Lookup ignores the case of the query. */
  lemma LookupIgnoresCase(vs: ValueSet, name: string)
    ensures Lookup(vs, name) == Lookup(vs, Upcase(name))
    ensures Get(vs, name) == Get(vs, Upcase(name))
  {
    UpcaseIdempotent(name);
  }

  /** What a pair created or assigned in this set reads from it: whether
      `self['ipv6_secondaries']` exists, and `fetch_raw('ipv6addr')`. Both
      keys are upper-case already, so no upcasing is needed. */
  function SiblingsOf(vs: ValueSet): (sib: Siblings)
  {
    var i := Find(vs.pairs, IPV6ADDR);
    var primary :=
      if i < |vs.pairs| && vs.pairs[i].V6Primary? then Some(vs.pairs[i].num) else None;
    Siblings(Find(vs.pairs, HOOK_KEY) < |vs.pairs|, primary)
  }

  /** The siblings are what `key?` and `fetch_raw` report. */
  lemma SiblingsOfSpec(vs: ValueSet)
    ensures SiblingsOf(vs).hookKey <==> HasKey(vs, HOOK_KEY)
    ensures SiblingsOf(vs).primary.Some? <==>
      FetchRaw(vs, IPV6ADDR).Some? && FetchRaw(vs, IPV6ADDR).value.RawNum? && Lookup(vs, IPV6ADDR).value.V6Primary?
    ensures SiblingsOf(vs).primary.Some? ==> FetchRaw(vs, IPV6ADDR) == Some(RawNum(SiblingsOf(vs).primary.value))
  {
    UpcaseOfName(HOOK_KEY) by {
      assert forall k :: 0 <= k < |HOOK_KEY| ==> IsNameChar(HOOK_KEY[k]);
    }
    UpcaseOfName(IPV6ADDR) by {
      assert forall k :: 0 <= k < |IPV6ADDR| ==> IsNameChar(IPV6ADDR[k]);
    }
  }

  /** `@vars[pair.name] = pair`: a pair whose name is present takes the old
      pair's place; any other is appended. */
  function Store(ps: seq<Pair>, p: Pair): (r: seq<Pair>)
    ensures |r| == |ps| || r == ps + [p]
    ensures Find(ps, Name(p)) < |ps| ==> r == ps[Find(ps, Name(p)) := p]
    ensures Find(ps, Name(p)) == |ps| ==> r == ps + [p]
  {
    var i := Find(ps, Name(p));
    if i < |ps| then ps[i := p] else ps + [p]
  }

  /** Storing keeps names unique, makes the pair the one its name finds,
      and leaves every other name's pair where it was. */
  lemma StoreSpec(ps: seq<Pair>, p: Pair)
    requires UniqueNames(ps)
    ensures UniqueNames(Store(ps, p))
    ensures var r := Store(ps, p); Find(r, Name(p)) < |r| && r[Find(r, Name(p))] == p
    ensures forall n :: n != Name(p) ==>
      (Find(Store(ps, p), n) == Find(ps, n) || (Find(ps, n) == |ps| && Find(Store(ps, p), n) == |Store(ps, p)|))
    ensures forall k :: 0 <= k < |ps| && Name(ps[k]) != Name(p) ==> Store(ps, p)[k] == ps[k]
  {
    var r := Store(ps, p);
    FindIsIndex(r, Find(ps, Name(p)), Name(p));
    forall n | n != Name(p)
      ensures Find(r, n) == Find(ps, n) || (Find(ps, n) == |ps| && Find(r, n) == |r|)
    {
      StoreFindOther(ps, p, n);
    }
  }

  /** Storing a pair moves no other name. */
  lemma StoreFindOther(ps: seq<Pair>, p: Pair, n: string)
    requires n != Name(p)
    ensures var r := Store(ps, p);
      Find(r, n) == Find(ps, n) || (Find(ps, n) == |ps| && Find(r, n) == |r|)
  {
    var r := Store(ps, p);
    var j := Find(ps, n);
    if j < |ps| {
      FindIsIndex(r, j, n);
    } else {
      FindIsIndex(r, |r|, n);
    }
  }

  /** The first index holding `name`, or the length when none does, is
      what `Find` returns. */
  lemma FindIsIndex(ps: seq<Pair>, i: nat, name: string)
    requires i <= |ps|
    requires i < |ps| ==> Name(ps[i]) == name
    requires forall k :: 0 <= k < i ==> Name(ps[k]) != name
    ensures Find(ps, name) == i
  {}

  // ------------------------------------------------------------- parsing

  /** `line.sub(/#.*$/, '')`: everything from the first `#` on goes. There
      is no escaping, so a `#` inside quotes cuts the line too. */
  function CutComment(line: string): (r: string)
    ensures '#' !in r
    ensures r <= line
    ensures |r| < |line| ==> line[|r|] == '#'
  {
    line[..IndexOf(line, '#')]
  }

  lemma StripKeeps(s: string, c: char)
    requires c !in s
    ensures c !in Strip(s)
  {
    var i, j :| StrippedAt(s, Strip(s), i, j);
  }

  /** One line of the file: comment cut, whitespace stripped, skipped when
      nothing is left, otherwise `Pair.create` in the set so far. */
  function AddLine(vs: ValueSet, line: string): (r: Result<ValueSet>)
    requires '\n' !in line
    requires WellFormed(vs)
    ensures r.Ok? ==> WellFormed(r.value)
    ensures Strip(CutComment(line)) == "" ==> r == Ok(vs)
    ensures Strip(CutComment(line)) != "" && SplitLine(Strip(CutComment(line))).None? ==>
      r == Err(MalformedLine(Strip(CutComment(line))))
  {
    var edited := Strip(CutComment(line));
    if edited == "" then Ok(vs)
    else
      StripKeeps(CutComment(line), '\n');
      var p :- FromLine(edited, SiblingsOf(vs));
      CreatedWellTyped(p, edited, SiblingsOf(vs));
      StoreSpec(vs.pairs, p);
      StoreWellTyped(vs.pairs, p);
      Ok(ValueSet(Store(vs.pairs, p)))
  }

  /** A pair read from a line is generic only under an unhandled name. */
  lemma CreatedWellTyped(p: Pair, line: string, sib: Siblings)
    requires '\n' !in line && FromLine(line, sib) == Ok(p)
    ensures p.Generic? ==> !Handled(p.name)
  {
    UpcaseOfName(SplitLine(line).value.0);
  }

  lemma StoreWellTyped(ps: seq<Pair>, p: Pair)
    requires forall i :: 0 <= i < |ps| ==> ps[i].Generic? ==> !Handled(ps[i].name)
    requires p.Generic? ==> !Handled(p.name)
    ensures forall i :: 0 <= i < |Store(ps, p)| ==> Store(ps, p)[i].Generic? ==> !Handled(Store(ps, p)[i].name)
  {}

  /** The line loop over the lines read so far, first to last. */
  function ParseLines(lines: seq<string>): (r: Result<ValueSet>)
    requires forall k :: 0 <= k < |lines| ==> '\n' !in lines[k]
    ensures r.Ok? ==> WellFormed(r.value)
  {
    if |lines| == 0 then Ok(ValueSet([]))
    else
      var vs :- ParseLines(lines[..|lines| - 1]);
      AddLine(vs, lines[|lines| - 1])
  }

  /** `ValueSet.new(io)` on the whole content: `each_line`, then the line
      loop. A malformed line aborts the parse. */
  function Parse(content: string): (r: Result<ValueSet>)
    ensures r.Ok? ==> WellFormed(r.value)
  {
    ParseLines(SplitOn(content, '\n'))
  }

  /** A line that is not blank once its comment is cut, and that does not
      fit the `NAME=value` grammar, aborts the line loop wherever it
      stands. */
  lemma {:induction false} ParseLinesAborts(lines: seq<string>, k: nat)
    requires forall i :: 0 <= i < |lines| ==> '\n' !in lines[i]
    requires k < |lines|
    requires Strip(CutComment(lines[k])) != "" && SplitLine(Strip(CutComment(lines[k]))).None?
    ensures ParseLines(lines).Err?
  {
    var front := lines[..|lines| - 1];
    assert forall i :: 0 <= i < |front| ==> front[i] == lines[i];
    if k < |lines| - 1 {
      ParseLinesAborts(front, k);
    }
  }

  /** Content with such a line anywhere does not parse. */
  lemma ParseAborts(content: string, k: nat)
    requires k < |SplitOn(content, '\n')|
    requires var line := SplitOn(content, '\n')[k];
      Strip(CutComment(line)) != "" && SplitLine(Strip(CutComment(line))).None?
    ensures Parse(content).Err?
  {
    ParseLinesAborts(SplitOn(content, '\n'), k);
  }

  // ------------------------------------------------------------- writing

  function PairLines(ps: seq<Pair>): (ls: seq<string>)
    ensures |ls| == |ps| && forall k :: 0 <= k < |ps| ==> ls[k] == Pairs.ToS(ps[k])
  {
    seq(|ps|, k requires 0 <= k < |ps| => Pairs.ToS(ps[k]))
  }

  /** `ValueSet#to_s`: one `NAME="value"` line per pair, in order, joined
      with newlines and without a final one. */
  function ToS(vs: ValueSet): string
  {
    Join(PairLines(vs.pairs), "\n")
  }

  /** Lines that say nothing after their comment is cut leave the parse as
      it was. */
  lemma ParseIgnoresBlank(content: string, extra: string)
    requires '\n' !in extra && Strip(CutComment(extra)) == ""
    ensures Parse(content + "\n" + extra) == Parse(content)
  {
    SplitOnConcat(content, '\n', extra);
    SplitOnNone(extra, '\n');
    var lines := SplitOn(content, '\n') + [extra];
    assert content + "\n" + extra == content + ['\n'] + extra;
    assert lines[..|lines| - 1] == SplitOn(content, '\n');
  }

  // ---------------------------------------------------------- round trip

  /** The value sets `to_s` writes in a form `new` reads back: every pair
      printable given the pairs before it, and no `#` in any value. */
  predicate Rereadable(vs: ValueSet)
  {
    && WellFormed(vs)
    && forall i :: 0 <= i < |vs.pairs| ==> Rereads(vs.pairs[i], ValueSet(vs.pairs[..i]))
  }

  /** A pair whose printed line, read into `vs`, gives the pair back. */
  predicate Rereads(p: Pair, vs: ValueSet)
  {
    Printable(p, SiblingsOf(vs)) && '#' !in ValueText(p)
  }

  /** Reading back what `to_s` writes gives the same pairs in the same
      order. */
  lemma ParseToS(vs: ValueSet)
    requires Rereadable(vs)
    ensures Parse(ToS(vs)) == Ok(vs)
  {
    var ps := vs.pairs;
    var ls := PairLines(ps);
    if |ps| == 0 {
      assert ToS(vs) == "";
      assert SplitOn("", '\n') == [""];
      assert [""][..0] == [];
    } else {
      forall k | 0 <= k < |ps|
        ensures '\n' !in ls[k]
      {
        LineShape(ps[k], SiblingsOf(ValueSet(ps[..k])));
      }
      SplitJoin(ls, '\n');
      forall k | 0 <= k < |ps|
        ensures LineAdds(ps, ls, k)
      {
        LineReadsInto(ps, k);
        PrefixWellFormed(ps, k);
      }
      PrefixParses(ps, ls, |ps|);
      assert ps[..|ps|] == ps;
      assert ls[..|ls|] == ls;
    }
  }

  /** An `IPADDR` line read into a value set is held as the integer of its
      dotted quad, which `fetch_raw` returns. */
  lemma FetchRawIpaddr(n: nat)
    requires n < TWO32
    ensures var vs := Parse(IPADDR + "=\"" + IpText.ShowV4(n) + "\"");
      vs.Ok? && FetchRaw(vs.value, "ipaddr") == Some(RawNum(n))
  {
    var content := IPADDR + "=\"" + IpText.ShowV4(n) + "\"";
    IpaddrLineParses(n);
    var vs := Parse(content);
    assert vs == Ok(ValueSet([V4Primary(n)]));
    UpcaseIpaddr();
    FetchRawOne(V4Primary(n), "ipaddr");
  }

  lemma UpcaseIpaddr()
    ensures Upcase("ipaddr") == IPADDR
  {}

  /** In a set of one pair, `fetch_raw` under any spelling of its name
      returns that pair's raw value. */
  lemma FetchRawOne(p: Pair, name: string)
    requires Upcase(name) == Name(p)
    ensures FetchRaw(ValueSet([p]), name) == Some(RawValue(p))
  {}

  lemma IpaddrLineParses(n: nat)
    requires n < TWO32
    ensures Parse(IPADDR + "=\"" + IpText.ShowV4(n) + "\"") == Ok(ValueSet([V4Primary(n)]))
  {
    var p := V4Primary(n);
    var vs := ValueSet([p]);
    var t := IpText.ShowV4(n);
    assert ValueText(p) == t && '#' !in t by {
      V4TextShow(n);
    }
    assert Rereadable(vs) by {
      assert vs.pairs[..0] == [];
      assert Rereads(p, ValueSet([]));
    }
    ParseToS(vs);
    assert ToS(vs) == Pairs.ToS(p);
  }

  /** The text an IPv4 pair prints is the dotted quad of its integer. */
  lemma V4TextShow(n: nat)
    requires n < TWO32
    ensures V4Text(n) == IpText.ShowV4(n) && '#' !in V4Text(n)
  {
    IpText.ParseShowV4(n);
    DottedQuadDigits(IpText.ShowV4(n));
    DivModUnique(n, TWO32, 0, n);
  }

  /** The printed line of a rereadable pair survives the comment cut and
      the strip unchanged. */
  lemma LineShape(p: Pair, sib: Siblings)
    requires Printable(p, sib) && '#' !in ValueText(p)
    ensures '\n' !in Pairs.ToS(p)
    ensures Strip(CutComment(Pairs.ToS(p))) == Pairs.ToS(p) != ""
    ensures FromLine(Pairs.ToS(p), sib) == Ok(p)
  {
    FromLineToS(p, sib);
    NameShape(p, sib);
    PrintedLineShape(Name(p), ValueText(p));
  }

  lemma PrintedLineShape(name: string, v: string)
    requires name != "" && AllChars(name, IsNameChar) && '#' !in v
    ensures Strip(CutComment(name + "=\"" + v + "\"")) == name + "=\"" + v + "\""
  {
    var line := name + "=\"" + v + "\"";
    NameNoHash(name);
    assert '#' !in line;
    assert line[0] == name[0];
    Untouched(line);
  }

  lemma Untouched(line: string)
    requires '#' !in line && line != "" && IsNameChar(line[0]) && line[|line| - 1] == '"'
    ensures Strip(CutComment(line)) == line
  {
    IndexOfNone(line, '#');
    assert CutComment(line) == line;
    StripUntouched(line);
  }

  /** A line that needs no cutting or stripping adds the pair it reads as. */
  lemma AddLineStores(vs: ValueSet, line: string, p: Pair)
    requires WellFormed(vs) && '\n' !in line
    requires Strip(CutComment(line)) == line != ""
    requires FromLine(line, SiblingsOf(vs)) == Ok(p)
    ensures AddLine(vs, line) == Ok(ValueSet(Store(vs.pairs, p)))
  {}

  /** The printed line of a rereadable pair adds that pair. */
  lemma PrintedLineAdds(vs: ValueSet, p: Pair)
    requires WellFormed(vs) && Rereads(p, vs)
    ensures '\n' !in Pairs.ToS(p)
    ensures AddLine(vs, Pairs.ToS(p)) == Ok(ValueSet(Store(vs.pairs, p)))
  {
    LineShape(p, SiblingsOf(vs));
    AddLineStores(vs, Pairs.ToS(p), p);
  }

  /** Line `k` of the output, read into the set of the pairs before it,
      adds pair `k`. */
  lemma LineReadsInto(ps: seq<Pair>, k: nat)
    requires WellFormed(ValueSet(ps)) && k < |ps|
    requires Rereads(ps[k], ValueSet(ps[..k]))
    ensures '\n' !in Pairs.ToS(ps[k])
    ensures AddLine(ValueSet(ps[..k]), Pairs.ToS(ps[k])) == Ok(ValueSet(ps[..k + 1]))
  {
    var p := ps[k];
    StoreAppends(ps, k);
    PrefixWellFormed(ps, k);
    PrintedLineAdds(ValueSet(ps[..k]), p);
  }

  lemma NameNoHash(n: string)
    requires AllChars(n, IsNameChar)
    ensures '#' !in n
  {
    assert forall i :: 0 <= i < |n| ==> IsNameChar(n[i]);
  }

  lemma IndexOfNone(s: string, c: char)
    requires c !in s
    ensures IndexOf(s, c) == |s|
  {}

  lemma PrefixWellFormed(ps: seq<Pair>, k: nat)
    requires WellFormed(ValueSet(ps)) && k <= |ps|
    ensures WellFormed(ValueSet(ps[..k]))
  {}

  lemma StoreAppends(ps: seq<Pair>, k: nat)
    requires UniqueNames(ps) && k < |ps|
    ensures Store(ps[..k], ps[k]) == ps[..k + 1]
  {
    FindAbsent(ps, k);
    assert ps[..k] + [ps[k]] == ps[..k + 1];
  }

  /** With unique names, pair `k` is not among the pairs before it. */
  lemma FindAbsent(ps: seq<Pair>, k: nat)
    requires UniqueNames(ps) && k < |ps|
    ensures Find(ps[..k], Name(ps[k])) == k
  {
    FindIsIndex(ps[..k], k, Name(ps[k]));
  }

  /** Line `k`, read into the set of the first `k` pairs, adds pair `k`. */
  predicate LineAdds(ps: seq<Pair>, ls: seq<string>, k: nat)
    requires k < |ps| && k < |ls|
  {
    && '\n' !in ls[k]
    && WellFormed(ValueSet(ps[..k]))
    && AddLine(ValueSet(ps[..k]), ls[k]) == Ok(ValueSet(ps[..k + 1]))
  }

  /** The first `n` lines parse to the first `n` pairs. */
  lemma {:induction false} PrefixParses(ps: seq<Pair>, ls: seq<string>, n: nat)
    requires n <= |ps| == |ls|
    requires forall k :: 0 <= k < |ls| ==> '\n' !in ls[k]
    requires forall k :: 0 <= k < |ps| ==> LineAdds(ps, ls, k)
    ensures ParseLines(ls[..n]) == Ok(ValueSet(ps[..n]))
  {
    if n > 0 {
      PrefixParses(ps, ls, n - 1);
      PrefixStep(ps, ls, n);
    }
  }

  lemma PrefixStep(ps: seq<Pair>, ls: seq<string>, n: nat)
    requires 0 < n <= |ps| == |ls|
    requires forall k :: 0 <= k < |ls| ==> '\n' !in ls[k]
    requires LineAdds(ps, ls, n - 1)
    requires ParseLines(ls[..n - 1]) == Ok(ValueSet(ps[..n - 1]))
    ensures ParseLines(ls[..n]) == Ok(ValueSet(ps[..n]))
  {
    var lines := ls[..n];
    assert lines[..n - 1] == ls[..n - 1] && lines[n - 1] == ls[n - 1];
    assert forall k :: 0 <= k < |lines| ==> '\n' !in lines[k];
    ParseLinesLast(lines, ValueSet(ps[..n - 1]), ValueSet(ps[..n]));
  }

  /** The line loop's last step: the lines before it, then the last line. */
  lemma ParseLinesLast(lines: seq<string>, vs: ValueSet, next: ValueSet)
    requires forall k :: 0 <= k < |lines| ==> '\n' !in lines[k]
    requires |lines| > 0
    requires ParseLines(lines[..|lines| - 1]) == Ok(vs)
    requires AddLine(vs, lines[|lines| - 1]) == Ok(next)
    ensures ParseLines(lines) == Ok(next)
  {}

  // ----------------------------------------------------------- assignment

  /** `ValueSet#[]=`, as the value set tests use it: a name already present
      has its pair's value assigned, any other name gets a new pair from
      the `Pair.create` dispatch. */
  function Set(vs: ValueSet, name: string, value: Value): (r: Result<ValueSet>)
    requires WellFormed(vs)
    requires value.Str? || Handled(Upcase(name))
    ensures r.Ok? ==> WellFormed(r.value)
    ensures r.Ok? ==> HasKey(r.value, name)
    ensures r.Ok? ==> |r.value.pairs| == |vs.pairs| + (if HasKey(vs, name) then 0 else 1)
    ensures r.Ok? ==> forall k :: 0 <= k < |vs.pairs| && Name(vs.pairs[k]) != Upcase(name) ==>
      r.value.pairs[k] == vs.pairs[k]
    ensures r.Ok? <==> SetPair(vs, name, value).Ok?
    ensures r.Err? ==> r.error == SetPair(vs, name, value).error
    ensures r.Ok? ==> Lookup(r.value, name) == Some(SetPair(vs, name, value).value)
  {
    var p :- SetPair(vs, name, value);
    StoreFacts(vs, name, p);
    Ok(ValueSet(Store(vs.pairs, p)))
  }

  /** The pair `[]=` stores: the present pair with the value assigned, or
      a new one from the dispatch. */
  function SetPair(vs: ValueSet, name: string, value: Value): (r: Result<Pair>)
    requires WellFormed(vs)
    requires value.Str? || Handled(Upcase(name))
    ensures r.Ok? ==> Name(r.value) == Upcase(name)
    ensures r.Ok? ==> r.value.Generic? ==> !Handled(r.value.name)
    ensures HasKey(vs, name) ==> Lookup(vs, name).value.Generic? ==> value.Str?
    ensures HasKey(vs, name) ==> r == Assign(Lookup(vs, name).value, value, SiblingsOf(vs))
    ensures !HasKey(vs, name) ==> r == Create(name, value, SiblingsOf(vs))
  {
    var i := Find(vs.pairs, Upcase(name));
    if i < |vs.pairs| then Assign(vs.pairs[i], value, SiblingsOf(vs))
    else Create(name, value, SiblingsOf(vs))
  }

  lemma StoreFacts(vs: ValueSet, name: string, p: Pair)
    requires WellFormed(vs)
    requires Name(p) == Upcase(name) && (p.Generic? ==> !Handled(p.name))
    ensures WellFormed(ValueSet(Store(vs.pairs, p)))
    ensures HasKey(ValueSet(Store(vs.pairs, p)), name)
    ensures |Store(vs.pairs, p)| == |vs.pairs| + (if HasKey(vs, name) then 0 else 1)
    ensures forall k :: 0 <= k < |vs.pairs| && Name(vs.pairs[k]) != Upcase(name) ==>
      Store(vs.pairs, p)[k] == vs.pairs[k]
    ensures Lookup(ValueSet(Store(vs.pairs, p)), name) == Some(p)
  {
    StoreSpec(vs.pairs, p);
    StoreWellTyped(vs.pairs, p);
  }

  /** Setting a name the dispatch leaves generic and reading it back gives
      the value set, and every other name reads as before. */
  lemma GetAfterSet(vs: ValueSet, name: string, v: string)
    requires WellFormed(vs) && !Handled(Upcase(name))
    ensures Set(vs, name, Str(v)).Ok?
    ensures Get(Set(vs, name, Str(v)).value, name) == Some(v)
    ensures forall m :: Upcase(m) != Upcase(name) ==>
      Get(Set(vs, name, Str(v)).value, m) == Get(vs, m)
  {
    var n := Upcase(name);
    var i := Find(vs.pairs, n);
    var p := Generic(n, v);
    assert SetPair(vs, name, Str(v)) == Ok(p) by {
      assert i < |vs.pairs| ==> vs.pairs[i].Generic?;
    }
    var r := Set(vs, name, Str(v)).value;
    assert Get(r, name) == Some(v) by {
      assert r.pairs == Store(vs.pairs, p);
      StoreSpec(vs.pairs, p);
    }
    SetKeepsOthers(vs, name, Str(v));
  }

  /** `make_static`/`disable_nm` as the tests state them: after setting a
      generic name to a text, the set has that name with that text, whether
      or not it had it before. */
  lemma SetGeneric(vs: ValueSet, name: string, v: string)
    requires WellFormed(vs) && !Handled(Upcase(name))
    ensures Set(vs, name, Str(v)).Ok?
    ensures HasKey(vs, name) ==> |Set(vs, name, Str(v)).value.pairs| == |vs.pairs|
    ensures !HasKey(vs, name) ==> Set(vs, name, Str(v)).value.pairs == vs.pairs + [Generic(Upcase(name), v)]
  {
    GetAfterSet(vs, name, v);
  }

  /** `[]=` under a name the dispatch handles: IPADDR and IPV6ADDR are
      parsed as their `value=` parses them, whether or not the name was
      present; IPV6ADDR_SECONDARIES is built as `create` builds it when
      absent, and assigned as its `value=` assigns it when present. */
  lemma SetHandled(vs: ValueSet, name: string, value: Value)
    requires WellFormed(vs) && Handled(Upcase(name))
    ensures Upcase(name) == IPADDR ==> SetPair(vs, name, value) == AssignV4(value)
    ensures Upcase(name) == IPV6ADDR ==> SetPair(vs, name, value) == AssignV6Primary(value, SiblingsOf(vs))
    ensures Upcase(name) == IPV6ADDR_SECONDARIES && !HasKey(vs, name) ==>
      SetPair(vs, name, value) == NewSecondaries(value, SiblingsOf(vs))
    ensures Upcase(name) == IPV6ADDR_SECONDARIES && HasKey(vs, name) && value.Str? ==>
      SetPair(vs, name, value) == Err(NoMethod("map"))
    ensures Upcase(name) == IPV6ADDR_SECONDARIES && HasKey(vs, name) && value.Items? ==>
      SetPair(vs, name, value) == AssignSecondaries(value.items, SiblingsOf(vs))
  {
    if HasKey(vs, name) {
      var p := Lookup(vs, name).value;
      var k :| 0 <= k < |vs.pairs| && vs.pairs[k] == p;
      assert !p.Generic?;
    }
  }

  /** Setting IPADDR succeeds exactly when the text is an IPv4 address,
      and IPADDR then reads as that address's dotted quad. */
  lemma SetIpaddr(vs: ValueSet, t: string)
    requires WellFormed(vs)
    ensures Upcase("ipaddr") == IPADDR
    ensures Set(vs, "ipaddr", Str(t)).Ok? <==> IpAddresses.V4Address(t).Ok?
    ensures Set(vs, "ipaddr", Str(t)).Err? ==>
      Set(vs, "ipaddr", Str(t)).error == IpAddresses.V4Address(t).error
    ensures Set(vs, "ipaddr", Str(t)).Ok? ==>
      Get(Set(vs, "ipaddr", Str(t)).value, "ipaddr") == Some(V4Text(IpAddresses.V4Address(t).value.bits))
  {
    UpcaseIpaddr();
    SetHandled(vs, "ipaddr", Str(t));
  }

  /** Whatever `[]=` stores, every other name reads as before. */
  lemma SetKeepsOthers(vs: ValueSet, name: string, value: Value)
    requires WellFormed(vs)
    requires value.Str? || Handled(Upcase(name))
    requires Set(vs, name, value).Ok?
    ensures forall m :: Upcase(m) != Upcase(name) ==>
      Get(Set(vs, name, value).value, m) == Get(vs, m)
  {
    var p := SetPair(vs, name, value).value;
    var r := Set(vs, name, value).value;
    assert r == ValueSet(Store(vs.pairs, p));
    forall m | Upcase(m) != Upcase(name)
      ensures Get(r, m) == Get(vs, m)
    {
      StoreKeepsGet(vs.pairs, p, m);
    }
  }

  /** Storing a pair leaves what every other name reads. */
  lemma StoreKeepsGet(ps: seq<Pair>, p: Pair, m: string)
    requires Upcase(m) != Name(p)
    ensures Get(ValueSet(Store(ps, p)), m) == Get(ValueSet(ps), m)
  {
    var r := Store(ps, p);
    StoreFindOther(ps, p, Upcase(m));
    var j := Find(ps, Upcase(m));
    if j < |ps| {
      assert r[j] == ps[j];
    }
  }
}
