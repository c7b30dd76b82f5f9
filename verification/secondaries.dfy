/** The list an `IPV6ADDR_SECONDARIES` pair keeps: pairs `[address integer,
    mask]` that `IpV6Secondaries#value=` deduplicates with `uniq` and orders
    with `sort`, and that `filter_primary!` thins out.

    A mask is the text written after `/`, or, when there was none, the
    Integer 128. Ruby compares `[n, m]` arrays element by element: numbers
    first, then two mask texts as strings. A mask text and the Integer 128
    do not compare at all, so `sort` raises as soon as it has to order two
    entries with the same address and masks of the two kinds. */
module Secondaries {
  import opened Results

  datatype Mask = Explicit(text: string) | DefaultMask

  datatype Entry = Entry(num: nat, mask: Mask)

  // ------------------------------------------------------------ ordering

  /** `String#<=>` on character codes: a proper prefix comes first,
      otherwise the first differing character decides. */
  predicate TextLess(x: string, y: string)
  {
    |y| > 0 && (|x| == 0 || x[0] < y[0] || (x[0] == y[0] && TextLess(x[1..], y[1..])))
  }

  lemma {:induction false} TextLessIrreflexive(x: string)
    ensures !TextLess(x, x)
  {
    if |x| > 0 {
      TextLessIrreflexive(x[1..]);
    }
  }

  lemma {:induction false} TextLessTransitive(x: string, y: string, z: string)
    requires TextLess(x, y) && TextLess(y, z)
    ensures TextLess(x, z)
  {
    if |x| > 0 && x[0] == y[0] && y[0] == z[0] {
      TextLessTransitive(x[1..], y[1..], z[1..]);
    }
  }

  lemma {:induction false} TextLessTotal(x: string, y: string)
    ensures x == y || TextLess(x, y) || TextLess(y, x)
  {
    if |x| > 0 && |y| > 0 && x[0] == y[0] {
      TextLessTotal(x[1..], y[1..]);
      if x[1..] == y[1..] {
        assert x == [x[0]] + x[1..] && y == [y[0]] + y[1..];
      }
    }
  }

  /** `Array#<=>` on two entries returning -1. Only two explicit masks are
      ordered against each other. */
  predicate Less(a: Entry, b: Entry)
  {
    a.num < b.num
    || (a.num == b.num && a.mask.Explicit? && b.mask.Explicit? && TextLess(a.mask.text, b.mask.text))
  }

  /** `Array#<=>` does not return nil: the two entries can be ordered. */
  predicate Comparable(a: Entry, b: Entry)
  {
    a == b || Less(a, b) || Less(b, a)
  }

  lemma LessIrreflexive(a: Entry)
    ensures !Less(a, a)
  {
    if a.mask.Explicit? {
      TextLessIrreflexive(a.mask.text);
    }
  }

  lemma LessTransitive(a: Entry, b: Entry, c: Entry)
    requires Less(a, b) && Less(b, c)
    ensures Less(a, c)
  {
    if a.num == b.num && b.num == c.num {
      TextLessTransitive(a.mask.text, b.mask.text, c.mask.text);
    }
  }

  /** Entries with the same address and masks of the two kinds: the pair
      Ruby's `sort` cannot order. */
  predicate Mixed(es: seq<Entry>)
  {
    exists i, j :: 0 <= i < |es| && 0 <= j < |es| && es[i].num == es[j].num
      && es[i].mask.Explicit? && es[j].mask.DefaultMask?
  }

  predicate AllComparable(es: seq<Entry>)
  {
    forall i, j :: 0 <= i < |es| && 0 <= j < |es| ==> Comparable(es[i], es[j])
  }

  /** Without a mixed pair every two entries compare. */
  lemma ComparableUnlessMixed(es: seq<Entry>)
    ensures !Mixed(es) <==> AllComparable(es)
  {
    if !Mixed(es) {
      forall i, j | 0 <= i < |es| && 0 <= j < |es|
        ensures Comparable(es[i], es[j])
      {
        var a, b := es[i], es[j];
        if a.num == b.num && a.mask.Explicit? && b.mask.Explicit? {
          TextLessTotal(a.mask.text, b.mask.text);
        }
      }
    } else {
      var i, j :| 0 <= i < |es| && 0 <= j < |es| && es[i].num == es[j].num
        && es[i].mask.Explicit? && es[j].mask.DefaultMask?;
      assert !Comparable(es[i], es[j]);
    }
  }

  predicate StrictlySorted(s: seq<Entry>)
  {
    forall i, j :: 0 <= i < j < |s| ==> Less(s[i], s[j])
  }

  // ------------------------------------------------------ uniq and sort

  /** Inserts `x` into a strictly sorted list, unless it is already there. */
  function Insert(x: Entry, s: seq<Entry>): (r: seq<Entry>)
    requires StrictlySorted(s)
    requires forall k :: 0 <= k < |s| ==> Comparable(x, s[k])
    ensures StrictlySorted(r)
    ensures forall e :: e in r <==> e in s || e == x
  {
    if |s| == 0 then [x]
    else if x == s[0] then s
    else if Less(x, s[0]) then
      InsertFront(x, s);
      [x] + s
    else
      assert Comparable(x, s[0]);
      var rest := Insert(x, s[1..]);
      InsertAfter(x, s, rest);
      [s[0]] + rest
  }

  lemma InsertFront(x: Entry, s: seq<Entry>)
    requires StrictlySorted(s) && |s| > 0 && Less(x, s[0])
    ensures StrictlySorted([x] + s)
  {
    forall j | 0 < j < |s|
      ensures Less(x, s[j])
    {
      LessTransitive(x, s[0], s[j]);
    }
  }

  lemma InsertAfter(x: Entry, s: seq<Entry>, rest: seq<Entry>)
    requires StrictlySorted(s) && |s| > 0 && Less(s[0], x)
    requires StrictlySorted(rest)
    requires forall e :: e in rest <==> e in s[1..] || e == x
    ensures StrictlySorted([s[0]] + rest)
  {
    var r := [s[0]] + rest;
    forall i, j | 0 <= i < j < |r|
      ensures Less(r[i], r[j])
    {
      if i == 0 {
        assert r[j] in rest;
        if r[j] != x {
          var k :| 0 <= k < |s[1..]| && s[1..][k] == r[j];
          assert s[k + 1] == r[j];
        }
      } else {
        assert r[i] == rest[i - 1] && r[j] == rest[j - 1];
      }
    }
  }

  /** `uniq.sort` of entries that all compare: every entry once, in
      ascending order. */
  function SortUnique(es: seq<Entry>): (r: seq<Entry>)
    requires AllComparable(es)
    ensures StrictlySorted(r)
    ensures forall e :: e in r <==> e in es
  {
    if |es| == 0 then []
    else
      var init := es[..|es| - 1];
      var x := es[|es| - 1];
      assert AllComparable(init) by {
        forall i, j | 0 <= i < |init| && 0 <= j < |init|
          ensures Comparable(init[i], init[j])
        {
          assert init[i] == es[i] && init[j] == es[j];
        }
      }
      var sorted := SortUnique(init);
      assert forall k :: 0 <= k < |sorted| ==> Comparable(x, sorted[k]) by {
        forall k | 0 <= k < |sorted|
          ensures Comparable(x, sorted[k])
        {
          assert sorted[k] in init;
          var i :| 0 <= i < |init| && init[i] == sorted[k];
          assert es[i] == sorted[k];
        }
      }
      assert forall e :: e in es <==> e in init || e == x by {
        assert es == init + [x];
      }
      Insert(x, sorted)
  }

  /** `new_value.map { ... }.uniq.sort`: the error Ruby's `sort` raises
      when two entries do not compare, otherwise the sorted distinct
      entries. */
  function Normalise(es: seq<Entry>): (r: Result<seq<Entry>>)
    ensures r.Err? <==> Mixed(es)
    ensures r.Err? ==> r.error == IncomparableEntries
    ensures r.Ok? ==> StrictlySorted(r.value)
    ensures r.Ok? ==> forall e :: e in r.value <==> e in es
  {
    ComparableUnlessMixed(es);
    if Mixed(es) then Err(IncomparableEntries) else Ok(SortUnique(es))
  }

  /** A strictly sorted list is determined by its elements, so the result
      of `Normalise` is the only ascending duplicate-free arrangement. */
  lemma {:induction false} SortedUnique(s: seq<Entry>, t: seq<Entry>)
    requires StrictlySorted(s) && StrictlySorted(t)
    requires forall e :: e in s <==> e in t
    ensures s == t
    decreases |s|
  {
    assert |s| > 0 ==> s[0] in t;
    assert |t| > 0 ==> t[0] in s;
    if |s| > 0 && |t| > 0 {
      if s[0] != t[0] {
        assert t[0] in s && s[0] in t;
        var i :| 0 <= i < |s| && s[i] == t[0];
        var j :| 0 <= j < |t| && t[j] == s[0];
        assert i > 0 && j > 0;
        assert Less(s[0], t[0]) && Less(t[0], s[0]);
        LessTransitive(s[0], t[0], s[0]);
        LessIrreflexive(s[0]);
      }
      forall e
        ensures e in s[1..] <==> e in t[1..]
      {
        TailMembers(s, e);
        TailMembers(t, e);
      }
      SortedUnique(s[1..], t[1..]);
      assert s == [s[0]] + s[1..] && t == [t[0]] + t[1..];
    }
  }

  /** In a strictly sorted list the head does not occur again. */
  lemma TailMembers(s: seq<Entry>, e: Entry)
    requires StrictlySorted(s) && |s| > 0
    ensures e in s[1..] <==> e in s && e != s[0]
  {
    if e in s[1..] {
      var k :| 0 <= k < |s[1..]| && s[1..][k] == e;
      assert Less(s[0], s[k + 1]);
      if e == s[0] {
        LessIrreflexive(e);
      }
    }
    if e in s && e != s[0] {
      var k :| 0 <= k < |s| && s[k] == e;
      assert s[1..][k - 1] == e;
    }
  }

  /** An already sorted, duplicate-free list comes out of `uniq.sort`
      unchanged. */
  lemma NormaliseSorted(s: seq<Entry>)
    requires StrictlySorted(s)
    ensures Normalise(s) == Ok(s)
  {
    SortedNotMixed(s);
    SortedUnique(Normalise(s).value, s);
  }

  /** In a strictly sorted list no two entries fail to compare. */
  lemma SortedNotMixed(s: seq<Entry>)
    requires StrictlySorted(s)
    ensures !Mixed(s)
  {
    forall i, j | 0 <= i < |s| && 0 <= j < |s|
      ensures !(s[i].num == s[j].num && s[i].mask.Explicit? && s[j].mask.DefaultMask?)
    {
      if i < j {
        assert Less(s[i], s[j]);
      } else if j < i {
        assert Less(s[j], s[i]);
      }
    }
  }

  // ------------------------------------------------------ filter_primary!

  /** `filter_primary!(n)`: drops the entries for address `n`, whatever
      their mask, and keeps the others in order. */
  function FilterPrimary(es: seq<Entry>, n: nat): (r: seq<Entry>)
    ensures |r| <= |es|
    ensures forall e :: e in r <==> e in es && e.num != n
  {
    if |es| == 0 then []
    else
      var rest := FilterPrimary(es[1..], n);
      assert forall e :: e in es <==> e == es[0] || e in es[1..] by {
        assert es == [es[0]] + es[1..];
      }
      if es[0].num == n then rest else [es[0]] + rest
  }

  /** Filtering keeps the relative order: a sorted list stays sorted. */
  lemma {:induction false} FilterKeepsOrder(es: seq<Entry>, n: nat)
    requires StrictlySorted(es)
    ensures StrictlySorted(FilterPrimary(es, n))
  {
    if |es| > 0 {
      FilterKeepsOrder(es[1..], n);
      var rest := FilterPrimary(es[1..], n);
      if es[0].num != n {
        forall e | e in rest
          ensures Less(es[0], e)
        {
          HeadLess(es, e);
        }
        ConsSorted(es[0], rest);
      }
    }
  }

  /** In a strictly sorted list the head is below everything after it. */
  lemma HeadLess(es: seq<Entry>, e: Entry)
    requires StrictlySorted(es) && |es| > 0 && e in es[1..]
    ensures Less(es[0], e)
  {
    var k :| 0 <= k < |es[1..]| && es[1..][k] == e;
    assert es[k + 1] == e;
  }

  /** An entry below everything in a sorted list can go in front of it. */
  lemma ConsSorted(x: Entry, rest: seq<Entry>)
    requires StrictlySorted(rest)
    requires forall e :: e in rest ==> Less(x, e)
    ensures StrictlySorted([x] + rest)
  {
    var r := [x] + rest;
    forall i, j | 0 <= i < j < |r|
      ensures Less(r[i], r[j])
    {
      if i == 0 {
        assert r[j] == rest[j - 1];
      } else {
        assert r[i] == rest[i - 1] && r[j] == rest[j - 1];
      }
    }
  }

  /** Filtering a list with no entry for `n` changes nothing. */
  lemma {:induction false} FilterAbsent(es: seq<Entry>, n: nat)
    requires forall k :: 0 <= k < |es| ==> es[k].num != n
    ensures FilterPrimary(es, n) == es
  {
    if |es| > 0 {
      FilterAbsent(es[1..], n);
      assert [es[0]] + es[1..] == es;
    }
  }
}
