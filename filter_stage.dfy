/** The filter stage of the publication list: the sorted copy is narrowed
    by `Array.prototype.filter` with a predicate chosen by the `yearRange`
    selector. */
module FilterStage {
  import opened PublicationData

  /** The value of the `yearRange` selector. Any string other than the four
      the predicate tests for is kept as `Other`. */
  datatype YearRange = All | Since2020 | Since2018 | Custom | Other(name: string)

  /** Classifies a selector value the way the predicate's `===` tests do. */
  function YearRangeOf(value: string): YearRange
  {
    if value == "all" then All
    else if value == "since2020" then Since2020
    else if value == "since2018" then Since2018
    else if value == "custom" then Custom
    else Other(value)
  }

  /** The selector value a year range stands for. */
  function YearRangeName(range: YearRange): string
  {
    match range
    case All => "all"
    case Since2020 => "since2020"
    case Since2018 => "since2018"
    case Custom => "custom"
    case Other(name) => name
  }

  /** Classifying loses nothing: every selector value can be recovered. */
  lemma YearRangeNameOfValue(value: string)
    ensures YearRangeName(YearRangeOf(value)) == value
  {
  }

  /** Every year range whose `Other` name is not one of the four known values
      is what its own name classifies as. */
  lemma YearRangeOfName(range: YearRange)
    requires range.Other? ==> range.name !in ["all", "since2020", "since2018", "custom"]
    ensures YearRangeOf(YearRangeName(range)) == range
  {
  }

  /** The filter's predicate. The custom range has no date pickers yet and,
      like an unknown value, keeps every record. */
  predicate Keeps(range: YearRange, p: Publication)
  {
    match range
    case Since2020 => p.year >= 2020
    case Since2018 => p.year >= 2018
    case _ => true
  }

  /** `r` is `s` with some records left out and the rest in their order. */
  predicate IsSubsequence<T(==)>(r: seq<T>, s: seq<T>)
    decreases |s|
  {
    if r == [] then true
    else if s == [] then false
    else if r[0] == s[0] then IsSubsequence(r[1..], s[1..])
    else IsSubsequence(r, s[1..])
  }

  /** Every element of a subsequence is an element of the whole, and a
      subsequence is no longer than the whole. */
  lemma {:induction false} SubsequenceMembers<T>(r: seq<T>, s: seq<T>)
    requires IsSubsequence(r, s)
    ensures forall y | y in r :: y in s
    ensures |r| <= |s|
    decreases |s|
  {
    if r != [] && s != [] {
      if r[0] == s[0] {
        SubsequenceMembers(r[1..], s[1..]);
        assert r == [r[0]] + r[1..];
      } else {
        SubsequenceMembers(r, s[1..]);
      }
    }
  }

  /** `sortedPublications.filter(...)`: the records the predicate keeps. */
  function FilterByYear(range: YearRange, s: seq<Publication>): seq<Publication>
  {
    if s == [] then []
    else
      var rest := FilterByYear(range, s[1..]);
      if Keeps(range, s[0]) then [s[0]] + rest else rest
  }

  /** The filter only drops records: the rest keep their input order. */
  lemma {:induction false} FilterIsSubsequence(range: YearRange, s: seq<Publication>)
    ensures IsSubsequence(FilterByYear(range, s), s)
  {
    if s != [] {
      FilterIsSubsequence(range, s[1..]);
      var rest := FilterByYear(range, s[1..]);
      if Keeps(range, s[0]) {
        assert ([s[0]] + rest)[1..] == rest;
      } else if rest != [] {
        FilterCounts(range, s[1..]);
        assert rest[0] in multiset(rest);
      }
    }
  }

  /** The filter keeps every kept record as often as the input holds it and
      drops every other record. */
  lemma {:induction false} FilterCounts(range: YearRange, s: seq<Publication>)
    ensures forall p :: multiset(FilterByYear(range, s))[p] == if Keeps(range, p) then multiset(s)[p] else 0
  {
    if s != [] {
      FilterCounts(range, s[1..]);
      assert s == [s[0]] + s[1..];
    }
  }

  /** "since2020" keeps exactly the records from 2020 on. */
  lemma Since2020KeepsFrom2020(s: seq<Publication>)
    ensures forall p :: p in FilterByYear(Since2020, s) <==> p in s && p.year >= 2020
  {
    FilterCounts(Since2020, s);
  }

  /** "since2018" keeps exactly the records from 2018 on. */
  lemma Since2018KeepsFrom2018(s: seq<Publication>)
    ensures forall p :: p in FilterByYear(Since2018, s) <==> p in s && p.year >= 2018
  {
    FilterCounts(Since2018, s);
  }

  /** "all", "custom" and every value the predicate does not test for fail
      open: the input comes back unchanged. */
  lemma {:induction false} FilterFailsOpen(value: string, s: seq<Publication>)
    requires value !in ["since2020", "since2018"]
    ensures FilterByYear(YearRangeOf(value), s) == s
  {
    if s != [] {
      FilterFailsOpen(value, s[1..]);
      assert s == [s[0]] + s[1..];
    }
  }

  /** Filtering twice with the same range is filtering once. */
  lemma {:induction false} FilterIsIdempotent(range: YearRange, s: seq<Publication>)
    ensures FilterByYear(range, FilterByYear(range, s)) == FilterByYear(range, s)
  {
    if s != [] {
      FilterIsIdempotent(range, s[1..]);
      var rest := FilterByYear(range, s[1..]);
      if Keeps(range, s[0]) {
        assert ([s[0]] + rest)[1..] == rest;
      }
    }
  }

  /** Narrowing "since2018" to "since2020" is the same as filtering the
      input by "since2020" directly. */
  lemma {:induction false} Since2020NarrowsSince2018(s: seq<Publication>)
    ensures FilterByYear(Since2020, FilterByYear(Since2018, s)) == FilterByYear(Since2020, s)
  {
    if s != [] {
      Since2020NarrowsSince2018(s[1..]);
      var rest := FilterByYear(Since2018, s[1..]);
      if Keeps(Since2018, s[0]) {
        assert ([s[0]] + rest)[1..] == rest;
      }
    }
  }

  /** The "since2020" list is what is left of the "since2018" list after
      some records are dropped. */
  lemma Since2020WithinSince2018(s: seq<Publication>)
    ensures IsSubsequence(FilterByYear(Since2020, s), FilterByYear(Since2018, s))
  {
    Since2020NarrowsSince2018(s);
    FilterIsSubsequence(Since2020, FilterByYear(Since2018, s));
  }

  /** How many records a range keeps depends only on which records there
      are, not on their order. */
  lemma FilterCountIgnoresOrder(range: YearRange, s: seq<Publication>, t: seq<Publication>)
    requires multiset(s) == multiset(t)
    ensures |FilterByYear(range, s)| == |FilterByYear(range, t)|
  {
    var fs, ft := FilterByYear(range, s), FilterByYear(range, t);
    FilterCounts(range, s);
    FilterCounts(range, t);
    assert multiset(fs) == multiset(ft) by {
      forall p ensures multiset(fs)[p] == multiset(ft)[p] {
      }
    }
    assert |fs| == |multiset(fs)| == |multiset(ft)| == |ft|;
  }
}
