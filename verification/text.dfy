/** The string operations of Ruby's `String` that the library relies on:
    ASCII `upcase`, `strip`, `split` with a one-character separator and with a
    run-of-separators regexp, and `join`. Strings are `seq<char>`. */
module Text {

  predicate IsDigit(c: char) { '0' <= c <= '9' }
  predicate IsUpper(c: char) { 'A' <= c <= 'Z' }
  predicate IsLower(c: char) { 'a' <= c <= 'z' }

  /** The character class `[A-Z0-9_]` of an ifcfg variable name. */
  predicate IsNameChar(c: char) { IsUpper(c) || IsDigit(c) || c == '_' }

  /** Ruby's `\w` on a string without the Unicode flag: `[a-zA-Z0-9_]`. */
  predicate IsWordChar(c: char) { IsNameChar(c) || IsLower(c) }

  /** The characters `String#strip` removes: NUL, tab, line feed, vertical
      tab, form feed, carriage return and space. */
  predicate IsStripSpace(c: char)
  {
    c == '\0' || c == '\t' || c == '\n' || c == '\U{B}' || c == '\U{C}' || c == '\r' || c == ' '
  }

  /** The characters of Ruby's regexp class `\s`, which are also the ones
      `String#to_i` skips. */
  const REGEX_SPACES: set<char> := {' ', '\t', '\n', '\U{B}', '\U{C}', '\r'}

  predicate IsRegexSpace(c: char) { c in REGEX_SPACES }

  predicate AllChars(s: string, p: char -> bool)
  {
    forall i :: 0 <= i < |s| ==> p(s[i])
  }

  function UpChar(c: char): (u: char)
    ensures !IsLower(u)
    ensures IsLower(c) ==> IsUpper(u)
    ensures !IsLower(c) ==> u == c
  {
    if IsLower(c) then (c as int - 32) as char else c
  }

  function DownChar(c: char): (d: char)
    ensures !IsUpper(d)
    ensures IsUpper(c) ==> IsLower(d) && UpChar(d) == c
    ensures !IsUpper(c) ==> d == c
  {
    if IsUpper(c) then (c as int + 32) as char else c
  }

  /** `String#upcase`, restricted to the ASCII letters. */
  function Upcase(s: string): (r: string)
    ensures |r| == |s|
    ensures forall i :: 0 <= i < |s| ==> r[i] == UpChar(s[i])
  {
    seq(|s|, i requires 0 <= i < |s| => UpChar(s[i]))
  }

  lemma UpcaseIdempotent(s: string)
    ensures Upcase(Upcase(s)) == Upcase(s)
  {}

  /** A string over `[A-Z0-9_]` is its own upper-case form. */
  lemma UpcaseOfName(s: string)
    requires AllChars(s, IsNameChar)
    ensures Upcase(s) == s
  {}

  function TrimLeft(s: string): (r: string)
    ensures |r| <= |s| && r == s[|s| - |r|..]
    ensures r == [] || !IsStripSpace(r[0])
    ensures forall i :: 0 <= i < |s| - |r| ==> IsStripSpace(s[i])
  {
    if |s| > 0 && IsStripSpace(s[0]) then
      var r := TrimLeft(s[1..]);
      assert forall i :: 1 <= i < |s| ==> s[i] == s[1..][i - 1];
      r
    else s
  }

  function TrimRight(s: string): (r: string)
    ensures |r| <= |s| && r == s[..|r|]
    ensures r == [] || !IsStripSpace(r[|r| - 1])
    ensures forall i :: |r| <= i < |s| ==> IsStripSpace(s[i])
  {
    if |s| > 0 && IsStripSpace(s[|s| - 1]) then TrimRight(s[..|s| - 1]) else s
  }

  /** `String#strip`: the result is the part of `s` between a run of leading
      and a run of trailing strip-spaces, and starts and ends with a
      non-space character. */
  function Strip(s: string): (r: string)
    ensures exists i, j :: StrippedAt(s, r, i, j)
    ensures r == [] || (!IsStripSpace(r[0]) && !IsStripSpace(r[|r| - 1]))
  {
    var t := TrimRight(s);
    var u := TrimLeft(t);
    assert forall k :: 0 <= k < |t| ==> t[k] == s[k];
    assert StrippedAt(s, u, |t| - |u|, |t|);
    u
  }

  /** `r` is `s[i..j]`, and everything of `s` outside it is strip-space. */
  ghost predicate StrippedAt(s: string, r: string, i: int, j: int)
  {
    && 0 <= i <= j <= |s| && r == s[i..j]
    && (forall k :: 0 <= k < i ==> IsStripSpace(s[k]))
    && (forall k :: j <= k < |s| ==> IsStripSpace(s[k]))
  }

  /** A string that neither starts nor ends with a strip-space is left alone. */
  lemma StripUntouched(s: string)
    requires s == [] || (!IsStripSpace(s[0]) && !IsStripSpace(s[|s| - 1]))
    ensures Strip(s) == s
  {}

  /** Splitting at every character of `seps`; all fields are kept, so there
      is always one more field than there are separators. */
  function SplitWhere(s: string, seps: set<char>): (r: seq<string>)
    ensures |r| >= 1
    ensures forall i :: 0 <= i < |r| ==> forall k :: 0 <= k < |r[i]| ==> r[i][k] !in seps
  {
    if |s| == 0 then [""]
    else
      var rest := SplitWhere(s[1..], seps);
      if s[0] in seps then [""] + rest
      else [[s[0]] + rest[0]] + rest[1..]
  }

  function SplitOn(s: string, c: char): (r: seq<string>)
    ensures |r| >= 1
    ensures forall i :: 0 <= i < |r| ==> c !in r[i]
  {
    var r := SplitWhere(s, {c});
    assert forall i :: 0 <= i < |r| ==> forall k :: 0 <= k < |r[i]| ==> r[i][k] != c;
    r
  }

  predicate NoneIn(s: string, seps: set<char>)
  {
    forall k :: 0 <= k < |s| ==> s[k] !in seps
  }

  lemma NoneInConcat(a: string, b: string, seps: set<char>)
    requires NoneIn(a, seps) && NoneIn(b, seps)
    ensures NoneIn(a + b, seps)
  {
    var s := a + b;
    forall k | 0 <= k < |s|
      ensures s[k] !in seps
    {
      if k < |a| {
        assert s[k] == a[k];
      } else {
        assert s[k] == b[k - |a|];
      }
    }
  }

  /** A separator between `x` and `y` splits exactly there. */
  lemma {:induction false} SplitWhereConcat(x: string, c: char, y: string, seps: set<char>)
    requires c in seps
    ensures SplitWhere(x + [c] + y, seps) == SplitWhere(x, seps) + SplitWhere(y, seps)
  {
    if |x| == 0 {
      assert x + [c] + y == [c] + y;
      assert ([c] + y)[1..] == y;
    } else {
      assert (x + [c] + y)[1..] == x[1..] + [c] + y;
      SplitWhereConcat(x[1..], c, y, seps);
    }
  }

  lemma {:induction false} SplitWhereNone(x: string, seps: set<char>)
    requires NoneIn(x, seps)
    ensures SplitWhere(x, seps) == [x]
  {
    if |x| > 0 {
      SplitWhereNone(x[1..], seps);
      assert [x[0]] + x[1..] == x;
    }
  }

  lemma SplitOnConcat(x: string, c: char, y: string)
    ensures SplitOn(x + [c] + y, c) == SplitOn(x, c) + SplitOn(y, c)
  {
    SplitWhereConcat(x, c, y, {c});
  }

  lemma SplitOnNone(x: string, c: char)
    requires c !in x
    ensures SplitOn(x, c) == [x]
  {
    SplitWhereNone(x, {c});
  }

  /** `Array#join`. */
  function Join(parts: seq<string>, sep: string): string
  {
    if |parts| == 0 then ""
    else if |parts| == 1 then parts[0]
    else parts[0] + sep + Join(parts[1..], sep)
  }

  /** Joining with a one-character separator the parts do not contain, and
      splitting again, gives the parts back. */
  lemma {:induction false} SplitJoin(parts: seq<string>, c: char)
    requires |parts| >= 1
    requires forall i :: 0 <= i < |parts| ==> c !in parts[i]
    ensures SplitOn(Join(parts, [c]), c) == parts
  {
    if |parts| == 1 {
      SplitOnNone(parts[0], c);
    } else {
      SplitJoin(parts[1..], c);
      SplitOnConcat(parts[0], c, Join(parts[1..], [c]));
      SplitOnNone(parts[0], c);
      assert [parts[0]] + parts[1..] == parts;
    }
  }

  /** Splitting at `c` and joining with `c` gives the string back. */
  lemma {:induction false} JoinSplitOn(s: string, c: char)
    ensures Join(SplitOn(s, c), [c]) == s
  {
    if |s| > 0 {
      var fields, rest := SplitOn(s, c), SplitOn(s[1..], c);
      assert rest == SplitWhere(s[1..], {c});
      JoinSplitOn(s[1..], c);
      if s[0] == c {
        assert fields == [""] + rest;
        assert Join(fields, [c]) == "" + [c] + Join(rest, [c]);
      } else {
        assert fields == [[s[0]] + rest[0]] + rest[1..];
        JoinConsChar(s[0], rest, [c]);
      }
      assert [s[0]] + s[1..] == s;
    }
  }

  lemma JoinConsChar(a: char, parts: seq<string>, sep: string)
    requires |parts| >= 1
    ensures Join([[a] + parts[0]] + parts[1..], sep) == [a] + Join(parts, sep)
  {
    var q := [[a] + parts[0]] + parts[1..];
    assert q[1..] == parts[1..];
  }

  /** No two `c` stand next to each other in `s`. */
  predicate NoAdjacent(s: string, c: char)
  {
    forall i :: 0 <= i < |s| - 1 ==> !(s[i] == c && s[i + 1] == c)
  }

  /** Joining non-empty parts free of `c` with `c` never puts two `c` side by side. */
  lemma {:induction false} JoinNoAdjacent(parts: seq<string>, c: char)
    requires forall i :: 0 <= i < |parts| ==> parts[i] != "" && c !in parts[i]
    ensures NoAdjacent(Join(parts, [c]), c)
  {
    if |parts| == 1 {
      assert Join(parts, [c]) == parts[0];
    } else if |parts| > 1 {
      var rest := Join(parts[1..], [c]);
      JoinNoAdjacent(parts[1..], c);
      JoinNonEmptyEnds(parts[1..], [c]);
      var s := Join(parts, [c]);
      var p0 := parts[0];
      assert s == p0 + [c] + rest;
      forall i | 0 <= i < |s| - 1
        ensures !(s[i] == c && s[i + 1] == c)
      {
        if i < |p0| {
          assert s[i] == p0[i];
        } else if i == |p0| {
          assert s[i + 1] == rest[0] == parts[1][0];
        } else {
          assert s[i] == rest[i - |p0| - 1] && s[i + 1] == rest[i - |p0|];
        }
      }
    }
  }

  lemma {:induction false} JoinChars(parts: seq<string>, sep: string, p: char -> bool)
    requires forall i :: 0 <= i < |parts| ==> AllChars(parts[i], p)
    requires AllChars(sep, p)
    ensures AllChars(Join(parts, sep), p)
  {
    if |parts| > 1 {
      JoinChars(parts[1..], sep, p);
    }
  }

  lemma {:induction false} JoinNonEmptyEnds(parts: seq<string>, sep: string)
    requires |parts| >= 1 && forall i :: 0 <= i < |parts| ==> |parts[i]| > 0
    ensures |Join(parts, sep)| > 0
    ensures Join(parts, sep)[0] == parts[0][0]
    ensures Join(parts, sep)[|Join(parts, sep)| - 1] == parts[|parts| - 1][|parts[|parts| - 1]| - 1]
  {
    if |parts| > 1 {
      JoinNonEmptyEnds(parts[1..], sep);
    }
  }

  /** The index of the first `c` in `s`, or `|s|` when there is none. */
  function IndexOf(s: string, c: char): (i: nat)
    ensures i <= |s|
    ensures i < |s| ==> s[i] == c
    ensures forall k :: 0 <= k < i ==> s[k] != c
  {
    if |s| == 0 then 0
    else if s[0] == c then 0
    else 1 + IndexOf(s[1..], c)
  }

  /** The first `c` of `a + [c] + b` is the one after `a` when `a` has none. */
  lemma IndexOfAfter(a: string, c: char, b: string)
    requires c !in a
    ensures IndexOf(a + [c] + b, c) == |a|
  {
    var s := a + [c] + b;
    assert s[|a|] == c;
    assert forall k :: 0 <= k < |a| ==> s[k] == a[k];
  }

  /** Two fields around one separator split back into the two fields. */
  lemma RubySplitTwo(a: string, c: char, b: string)
    requires c !in a && c !in b && b != ""
    ensures RubySplit(a + [c] + b, c) == [a, b]
  {
    SplitJoin([a, b], c);
    assert Join([a, b], [c]) == a + [c] + b by {
      assert [a, b][1..] == [b];
    }
  }

  /** A field without the separator splits into itself, unless it is empty. */
  lemma RubySplitOne(a: string, c: char)
    requires c !in a && a != ""
    ensures RubySplit(a, c) == [a]
  {
    SplitOnNone(a, c);
  }

  /** Ruby's `split` drops trailing empty fields. */
  function DropTrailingEmpty(fields: seq<string>): (r: seq<string>)
    ensures |r| <= |fields| && r == fields[..|r|]
    ensures r == [] || r[|r| - 1] != ""
    ensures forall i :: |r| <= i < |fields| ==> fields[i] == ""
  {
    if |fields| > 0 && fields[|fields| - 1] == "" then DropTrailingEmpty(fields[..|fields| - 1]) else fields
  }

  /** `str.split(c)` for a one-character separator string (other than " ",
      which Ruby treats specially): every separator splits, and trailing
      empty fields are dropped. */
  function RubySplit(s: string, c: char): seq<string>
  {
    DropTrailingEmpty(SplitOn(s, c))
  }

  /** `str.split(/x+/)` for a regexp matching runs of the characters in
      `seps`: a leading empty field survives, empty fields between adjacent
      separators vanish, and trailing empty fields are dropped. */
  function SplitRuns(s: string, seps: set<char>): seq<string>
  {
    var fields := SplitWhere(s, seps);
    DropTrailingEmpty([fields[0]] + NonEmpty(fields[1..]))
  }

  function NonEmpty(fields: seq<string>): (r: seq<string>)
    ensures forall i :: 0 <= i < |r| ==> r[i] != "" && r[i] in fields
  {
    if |fields| == 0 then []
    else if fields[0] == "" then NonEmpty(fields[1..])
    else [fields[0]] + NonEmpty(fields[1..])
  }

  lemma {:induction false} NonEmptyId(fields: seq<string>)
    requires forall i :: 0 <= i < |fields| ==> fields[i] != ""
    ensures NonEmpty(fields) == fields
  {
    if |fields| > 0 {
      NonEmptyId(fields[1..]);
      assert [fields[0]] + fields[1..] == fields;
    }
  }

  /** Non-empty parts free of the separator, joined with a single separator,
      split back into the same parts. */
  lemma SplitRunsJoin(parts: seq<string>, c: char)
    requires forall i :: 0 <= i < |parts| ==> parts[i] != "" && c !in parts[i]
    ensures SplitRuns(Join(parts, [c]), {c}) == parts
  {
    if |parts| == 0 {
    } else {
      SplitJoin(parts, c);
      assert SplitWhere(Join(parts, [c]), {c}) == parts;
      NonEmptyId(parts[1..]);
      assert [parts[0]] + parts[1..] == parts;
    }
  }

  /** Joining parts free of every separator in `seps` with one of them
      splits back into the parts. */
  lemma {:induction false} SplitWhereJoin(parts: seq<string>, c: char, seps: set<char>)
    requires |parts| >= 1 && c in seps
    requires forall i :: 0 <= i < |parts| ==> NoneIn(parts[i], seps)
    ensures SplitWhere(Join(parts, [c]), seps) == parts
  {
    var head, tail := parts[0], parts[1..];
    SplitWhereNone(head, seps);
    if |parts| > 1 {
      var rest := Join(tail, [c]);
      assert Join(parts, [c]) == head + [c] + rest;
      assert forall i :: 0 <= i < |tail| ==> tail[i] == parts[i + 1];
      SplitWhereJoin(tail, c, seps);
      SplitWhereConcat(head, c, rest, seps);
      assert [head] + tail == parts;
    }
  }

  /** `split(/x+/)` over a set of separators undoes the join of non-empty
      parts free of all of them with any one of them. */
  lemma SplitRunsJoinIn(parts: seq<string>, c: char, seps: set<char>)
    requires c in seps
    requires forall i :: 0 <= i < |parts| ==> parts[i] != "" && NoneIn(parts[i], seps)
    ensures SplitRuns(Join(parts, [c]), seps) == parts
  {
    if |parts| > 0 {
      SplitWhereJoin(parts, c, seps);
      SplitRunsOfFields(Join(parts, [c]), seps, parts);
    }
  }

  /** When no field is empty, `split(/x+/)` keeps every field. */
  lemma SplitRunsOfFields(s: string, seps: set<char>, fields: seq<string>)
    requires SplitWhere(s, seps) == fields
    requires forall i :: 0 <= i < |fields| ==> fields[i] != ""
    ensures SplitRuns(s, seps) == fields
  {
    NonEmptyId(fields[1..]);
    assert [fields[0]] + fields[1..] == fields;
  }
}
