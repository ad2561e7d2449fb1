/** The sort stage of the publication list: the page copies its
    publications and orders the copy with `Array.prototype.sort` and a
    comparator chosen by the `sortOrder` selector. ECMAScript (since the 2019
    edition) requires that sort to be stable, so the stage is modelled as a
    stable insertion sort, and `SortIsUnique` shows that any stable sort with
    the same comparator yields exactly this result. */
module SortStage {
  import opened PublicationData

  /** The value of the `sortOrder` selector. Any string other than the three
      the comparator tests for is kept as `Other`. */
  datatype SortOrder = Citations | Year | Title | Other(name: string)

  /** Classifies a selector value the way the comparator's `===` tests do. */
  function SortOrderOf(value: string): SortOrder
  {
    if value == "citations" then Citations
    else if value == "year" then Year
    else if value == "title" then Title
    else Other(value)
  }

  /** The selector value a sort order stands for. */
  function SortOrderName(order: SortOrder): string
  {
    match order
    case Citations => "citations"
    case Year => "year"
    case Title => "title"
    case Other(name) => name
  }

  /** Classifying loses nothing: every selector value can be recovered. */
  lemma SortOrderNameOfValue(value: string)
    ensures SortOrderName(SortOrderOf(value)) == value
  {
  }

  /** Every sort order whose `Other` name is not one of the three known
      values is what its own name classifies as. */
  lemma SortOrderOfName(order: SortOrder)
    requires order.Other? ==> order.name != "citations" && order.name != "year" && order.name != "title"
    ensures SortOrderOf(SortOrderName(order)) == order
  {
  }

  /** `String.prototype.localeCompare`, taken as a parameter: a negative,
      zero or positive number as the first string sorts before, together
      with or after the second. */
  type Collation = (string, string) -> int

  /** The sign of a comparison result. */
  function Sign(x: int): int
  {
    if x < 0 then -1 else if x > 0 then 1 else 0
  }

  /** What the model assumes of `localeCompare`: swapping the arguments
      flips the sign, and "sorts no later than" is transitive. Together these
      make it a total preorder on strings. */
  ghost predicate IsCollation(lc: Collation)
  {
    && (forall s, t :: Sign(lc(s, t)) == -Sign(lc(t, s)))
    && (forall s, t, u :: lc(s, t) <= 0 && lc(t, u) <= 0 ==> lc(s, u) <= 0)
  }

  /** The collation matters only to the title order: the other orders never
      call it. */
  ghost predicate Collates(order: SortOrder, lc: Collation)
  {
    order.Title? ==> IsCollation(lc)
  }

  /** The page's comparator: a negative result puts `a` before `b`. */
  function Compare(order: SortOrder, lc: Collation, a: Publication, b: Publication): int
  {
    match order
    case Citations => b.citations - a.citations
    case Year => b.year - a.year
    case Title => lc(a.title, b.title)
    case Other(_) => 0
  }

  /** A consistent comparator in the sense of `Array.prototype.sort`. */
  ghost predicate IsConsistent(order: SortOrder, lc: Collation)
  {
    && (forall a, b :: Sign(Compare(order, lc, a, b)) == -Sign(Compare(order, lc, b, a)))
    && (forall a, b, c ::
          Compare(order, lc, a, b) <= 0 && Compare(order, lc, b, c) <= 0 ==> Compare(order, lc, a, c) <= 0)
  }

  /** Swapping the records flips the sign of the comparison. */
  lemma CompareFlips(order: SortOrder, lc: Collation, a: Publication, b: Publication)
    requires Collates(order, lc)
    ensures Sign(Compare(order, lc, a, b)) == -Sign(Compare(order, lc, b, a))
  {
    if order.Title? {
      assert Sign(lc(a.title, b.title)) == -Sign(lc(b.title, a.title));
    }
  }

  /** "Sorts no later than" is transitive. */
  lemma CompareChains(order: SortOrder, lc: Collation, a: Publication, b: Publication, c: Publication)
    requires Collates(order, lc)
    requires Compare(order, lc, a, b) <= 0 && Compare(order, lc, b, c) <= 0
    ensures Compare(order, lc, a, c) <= 0
  {
    if order.Title? {
      assert lc(a.title, b.title) <= 0 && lc(b.title, c.title) <= 0;
    }
  }

  /** For every sort order the page's comparator is consistent, so the
      result of the engine's sort is fully specified. */
  lemma CompareIsConsistent(order: SortOrder, lc: Collation)
    requires Collates(order, lc)
    ensures IsConsistent(order, lc)
  {
    forall a, b ensures Sign(Compare(order, lc, a, b)) == -Sign(Compare(order, lc, b, a)) {
      CompareFlips(order, lc, a, b);
    }
    forall a, b, c | Compare(order, lc, a, b) <= 0 && Compare(order, lc, b, c) <= 0
      ensures Compare(order, lc, a, c) <= 0
    {
      CompareChains(order, lc, a, b, c);
    }
  }

  /** No record comes after one it should precede. */
  predicate Sorted(order: SortOrder, lc: Collation, s: seq<Publication>)
  {
    forall i, j {:trigger Compare(order, lc, s[i], s[j])} | 0 <= i < j < |s| :: Compare(order, lc, s[i], s[j]) <= 0
  }

  /** The records of `s` that the comparator ranks equal to `x`, in order. */
  function Ties(order: SortOrder, lc: Collation, x: Publication, s: seq<Publication>): seq<Publication>
  {
    if s == [] then [] else Tied(order, lc, x, s[0]) + Ties(order, lc, x, s[1..])
  }

  /** `[y]` when `y` ties with `x`, otherwise nothing. */
  function Tied(order: SortOrder, lc: Collation, x: Publication, y: Publication): seq<Publication>
  {
    if Compare(order, lc, x, y) == 0 then [y] else []
  }

  /** The rest of a sorted sequence is sorted and follows its head. */
  lemma SortedTail(order: SortOrder, lc: Collation, s: seq<Publication>)
    requires Sorted(order, lc, s) && s != []
    ensures Sorted(order, lc, s[1..])
    ensures forall y | y in s[1..] :: Compare(order, lc, s[0], y) <= 0
  {
    forall y | y in s[1..] ensures Compare(order, lc, s[0], y) <= 0 {
      var j :| 0 <= j < |s[1..]| && s[1..][j] == y;
      assert s[j + 1] == y;
    }
  }

  /** A record that precedes every record of a sorted sequence can be put in
      front of it. */
  lemma SortedCons(order: SortOrder, lc: Collation, x: Publication, t: seq<Publication>)
    requires Sorted(order, lc, t)
    requires forall y | y in t :: Compare(order, lc, x, y) <= 0
    ensures Sorted(order, lc, [x] + t)
  {
    var r := [x] + t;
    forall i, j | 0 <= i < j < |r| ensures Compare(order, lc, r[i], r[j]) <= 0 {
      assert r[j] == t[j - 1];
      if i > 0 {
        assert r[i] == t[i - 1];
      } else {
        assert r[j] in t;
      }
    }
  }

  /** A record that the head of a sorted sequence does not follow precedes
      the whole sequence. */
  lemma PrecedesHeadPrecedesAll(order: SortOrder, lc: Collation, x: Publication, s: seq<Publication>)
    requires Collates(order, lc) && Sorted(order, lc, s) && s != []
    requires Compare(order, lc, x, s[0]) <= 0
    ensures Sorted(order, lc, [x] + s)
  {
    forall y | y in s ensures Compare(order, lc, x, y) <= 0 {
      var j :| 0 <= j < |s| && s[j] == y;
      if j > 0 {
        assert Compare(order, lc, s[0], s[j]) <= 0;
        CompareChains(order, lc, x, s[0], y);
      }
    }
    SortedCons(order, lc, x, s);
  }

  /** A record that must follow the head of a sorted sequence can be inserted
      into its tail. */
  lemma FollowsHead(order: SortOrder, lc: Collation, x: Publication, s: seq<Publication>, t: seq<Publication>)
    requires Collates(order, lc) && Sorted(order, lc, s) && s != []
    requires Compare(order, lc, x, s[0]) > 0
    requires Sorted(order, lc, t) && multiset(t) == multiset(s[1..]) + multiset{x}
    ensures Sorted(order, lc, [s[0]] + t)
  {
    SortedTail(order, lc, s);
    forall y | y in t ensures Compare(order, lc, s[0], y) <= 0 {
      assert y in multiset(t);
      if y != x {
        assert y in multiset(s[1..]);
      } else {
        CompareFlips(order, lc, x, s[0]);
      }
    }
    SortedCons(order, lc, s[0], t);
  }

  /** Inserts `x` in front of the first record of `s` it does not have to
      follow, which keeps `x` ahead of the records it ties with. */
  function Insert(order: SortOrder, lc: Collation, x: Publication, s: seq<Publication>): seq<Publication>
  {
    if s == [] then [x]
    else if Compare(order, lc, x, s[0]) <= 0 then [x] + s
    else [s[0]] + Insert(order, lc, x, s[1..])
  }

  /** Inserting adds exactly the one record. */
  lemma {:induction false} InsertPermutes(order: SortOrder, lc: Collation, x: Publication, s: seq<Publication>)
    ensures multiset(Insert(order, lc, x, s)) == multiset(s) + multiset{x}
  {
    if s != [] && Compare(order, lc, x, s[0]) > 0 {
      InsertPermutes(order, lc, x, s[1..]);
      assert s == [s[0]] + s[1..];
    }
  }

  /** Inserting into a sorted sequence keeps it sorted. */
  lemma {:induction false} InsertKeepsSorted(order: SortOrder, lc: Collation, x: Publication, s: seq<Publication>)
    requires Collates(order, lc) && Sorted(order, lc, s)
    ensures Sorted(order, lc, Insert(order, lc, x, s))
  {
    if s != [] {
      if Compare(order, lc, x, s[0]) <= 0 {
        PrecedesHeadPrecedesAll(order, lc, x, s);
      } else {
        SortedTail(order, lc, s);
        InsertKeepsSorted(order, lc, x, s[1..]);
        InsertPermutes(order, lc, x, s[1..]);
        FollowsHead(order, lc, x, s, Insert(order, lc, x, s[1..]));
      }
    }
  }

  /** `[...publications].sort(comparator)`: a fresh sequence ordered by the
      comparator. */
  function SortBy(order: SortOrder, lc: Collation, s: seq<Publication>): seq<Publication>
  {
    if s == [] then [] else Insert(order, lc, s[0], SortBy(order, lc, s[1..]))
  }

  /** The sorted copy has no record after one the comparator puts before it. */
  lemma {:induction false} SortByIsSorted(order: SortOrder, lc: Collation, s: seq<Publication>)
    requires Collates(order, lc)
    ensures Sorted(order, lc, SortBy(order, lc, s))
  {
    if s != [] {
      SortByIsSorted(order, lc, s[1..]);
      InsertKeepsSorted(order, lc, s[0], SortBy(order, lc, s[1..]));
    }
  }

  /** The sorted copy holds exactly the records of the input, as often as
      the input does. */
  lemma {:induction false} SortByPermutes(order: SortOrder, lc: Collation, s: seq<Publication>)
    ensures multiset(SortBy(order, lc, s)) == multiset(s)
    ensures |SortBy(order, lc, s)| == |s|
  {
    var r := SortBy(order, lc, s);
    if s != [] {
      var rest := SortBy(order, lc, s[1..]);
      SortByPermutes(order, lc, s[1..]);
      InsertPermutes(order, lc, s[0], rest);
      assert r == Insert(order, lc, s[0], rest);
      assert multiset(s) == multiset(s[1..]) + multiset{s[0]} by {
        assert s == [s[0]] + s[1..];
      }
    }
    assert |r| == |multiset(r)|;
  }

  /** Sorting by citations leaves the most cited record first. */
  lemma CitationsOrderIsNonIncreasing(lc: Collation, s: seq<Publication>)
    ensures var r := SortBy(Citations, lc, s);
            forall i, j | 0 <= i < j < |r| :: r[i].citations >= r[j].citations
  {
    var r := SortBy(Citations, lc, s);
    SortByIsSorted(Citations, lc, s);
    forall i, j | 0 <= i < j < |r| ensures r[i].citations >= r[j].citations {
      assert Compare(Citations, lc, r[i], r[j]) <= 0;
    }
  }

  /** Sorting by year leaves the newest record first. */
  lemma YearOrderIsNonIncreasing(lc: Collation, s: seq<Publication>)
    ensures var r := SortBy(Year, lc, s);
            forall i, j | 0 <= i < j < |r| :: r[i].year >= r[j].year
  {
    var r := SortBy(Year, lc, s);
    SortByIsSorted(Year, lc, s);
    forall i, j | 0 <= i < j < |r| ensures r[i].year >= r[j].year {
      assert Compare(Year, lc, r[i], r[j]) <= 0;
    }
  }

  /** Sorting by title orders the titles ascending under the collation. */
  lemma TitleOrderIsAscending(lc: Collation, s: seq<Publication>)
    requires IsCollation(lc)
    ensures var r := SortBy(Title, lc, s);
            forall i, j | 0 <= i < j < |r| :: lc(r[i].title, r[j].title) <= 0
  {
    var r := SortBy(Title, lc, s);
    SortByIsSorted(Title, lc, s);
    forall i, j | 0 <= i < j < |r| ensures lc(r[i].title, r[j].title) <= 0 {
      assert Compare(Title, lc, r[i], r[j]) <= 0;
    }
  }

  /** Inserting `y` adds it to the records tied with `x`, in front of them,
      exactly when `y` ties with `x`. */
  lemma {:induction false} InsertTies(order: SortOrder, lc: Collation, x: Publication, y: Publication, s: seq<Publication>)
    requires Collates(order, lc)
    ensures Ties(order, lc, x, Insert(order, lc, y, s)) == Tied(order, lc, x, y) + Ties(order, lc, x, s)
    decreases |s|
  {
    if s == [] {
    } else if Compare(order, lc, y, s[0]) <= 0 {
      TiesCons(order, lc, x, y, s);
    } else {
      InsertTies(order, lc, x, y, s[1..]);
      InsertTiesStep(order, lc, x, y, s);
    }
  }

  /** The step of `InsertTies` where `y` goes after the first record. */
  lemma InsertTiesStep(order: SortOrder, lc: Collation, x: Publication, y: Publication, s: seq<Publication>)
    requires Collates(order, lc) && s != [] && Compare(order, lc, y, s[0]) > 0
    requires Ties(order, lc, x, Insert(order, lc, y, s[1..])) == Tied(order, lc, x, y) + Ties(order, lc, x, s[1..])
    ensures Ties(order, lc, x, Insert(order, lc, y, s)) == Tied(order, lc, x, y) + Ties(order, lc, x, s)
  {
    var t := Insert(order, lc, y, s[1..]);
    TiesCons(order, lc, x, s[0], t);
    if Compare(order, lc, x, y) == 0 {
      TiedRecordsRankAlike(order, lc, x, y, s[0]);
    }
    SwapEmpty(Tied(order, lc, x, s[0]), Tied(order, lc, x, y), Ties(order, lc, x, s[1..]));
  }

  /** Two prefixes of which one is empty can be concatenated in either order. */
  lemma SwapEmpty<T>(a: seq<T>, b: seq<T>, c: seq<T>)
    requires a == [] || b == []
    ensures a + (b + c) == b + (a + c)
  {
    if a == [] {
      assert a + (b + c) == b + c == b + (a + c);
    } else {
      assert a + (b + c) == a + c == b + (a + c);
    }
  }

  /** The records tied with `x` in `[h] + t`: `h` if it ties, then those of `t`. */
  lemma TiesCons(order: SortOrder, lc: Collation, x: Publication, h: Publication, t: seq<Publication>)
    ensures Ties(order, lc, x, [h] + t) == Tied(order, lc, x, h) + Ties(order, lc, x, t)
  {
    assert ([h] + t)[1..] == t;
  }

  /** Records tied with the same record tie with each other: `y` sorts no
      later than any `z` that also ties with `x`. */
  lemma TiedRecordsRankAlike(order: SortOrder, lc: Collation, x: Publication, y: Publication, z: Publication)
    requires Collates(order, lc)
    requires Compare(order, lc, x, y) == 0
    ensures Compare(order, lc, x, z) == 0 ==> Compare(order, lc, y, z) <= 0
  {
    if Compare(order, lc, x, z) == 0 {
      CompareFlips(order, lc, y, x);
      CompareChains(order, lc, y, x, z);
    }
  }

  /** Stability: the records that tie with any given record keep their
      relative input order. */
  lemma {:induction false} SortIsStable(order: SortOrder, lc: Collation, s: seq<Publication>, x: Publication)
    requires Collates(order, lc)
    ensures Ties(order, lc, x, SortBy(order, lc, s)) == Ties(order, lc, x, s)
  {
    if s != [] {
      SortIsStable(order, lc, s[1..], x);
      InsertTies(order, lc, x, s[0], SortBy(order, lc, s[1..]));
    }
  }

  /** Two sorted sequences with the same records and the same order among
      tied records start with the same record. */
  lemma SameHead(order: SortOrder, lc: Collation, r: seq<Publication>, q: seq<Publication>)
    requires Collates(order, lc)
    requires Sorted(order, lc, r) && Sorted(order, lc, q) && r != [] && q != []
    requires multiset(r) == multiset(q)
    requires Ties(order, lc, r[0], r) == Ties(order, lc, r[0], q)
    ensures r[0] == q[0]
  {
    var a, b := r[0], q[0];
    assert a in multiset(q) && b in multiset(r);
    assert Compare(order, lc, a, b) <= 0 by {
      var k :| 0 <= k < |r| && r[k] == b;
      if k > 0 { assert Compare(order, lc, r[0], r[k]) <= 0; }
    }
    assert Compare(order, lc, b, a) <= 0 by {
      var k :| 0 <= k < |q| && q[k] == a;
      if k > 0 { assert Compare(order, lc, q[0], q[k]) <= 0; }
    }
    CompareFlips(order, lc, a, b);
    CompareFlips(order, lc, a, a);
    assert Ties(order, lc, a, r)[0] == a;
    assert Ties(order, lc, a, q)[0] == b;
  }

  /** Dropping the first record removes one copy of it from the records. */
  lemma TailRecords(r: seq<Publication>)
    requires r != []
    ensures multiset(r[1..]) == multiset(r) - multiset{r[0]}
  {
    assert r == [r[0]] + r[1..];
  }

  /** Two sequences with the same first record and the same records tied
      with `x` still agree on them once that first record is dropped. */
  lemma SameTiesInTails(order: SortOrder, lc: Collation, x: Publication, r: seq<Publication>, q: seq<Publication>)
    requires r != [] && q != [] && r[0] == q[0]
    requires Ties(order, lc, x, r) == Ties(order, lc, x, q)
    ensures Ties(order, lc, x, r[1..]) == Ties(order, lc, x, q[1..])
  {
    var h := Tied(order, lc, x, r[0]);
    var tr, tq := Ties(order, lc, x, r[1..]), Ties(order, lc, x, q[1..]);
    assert Ties(order, lc, x, r) == h + tr;
    assert Ties(order, lc, x, q) == h + tq;
    assert (h + tr)[|h|..] == tr && (h + tq)[|h|..] == tq;
  }

  /** Dropping the same first record from two sequences with the same
      records and the same order among tied records leaves two such
      sequences. */
  lemma SameTails(order: SortOrder, lc: Collation, r: seq<Publication>, q: seq<Publication>)
    requires r != [] && q != [] && r[0] == q[0]
    requires multiset(r) == multiset(q)
    requires forall x :: Ties(order, lc, x, r) == Ties(order, lc, x, q)
    ensures multiset(r[1..]) == multiset(q[1..])
    ensures forall x :: Ties(order, lc, x, r[1..]) == Ties(order, lc, x, q[1..])
  {
    TailRecords(r);
    TailRecords(q);
    forall x ensures Ties(order, lc, x, r[1..]) == Ties(order, lc, x, q[1..]) {
      SameTiesInTails(order, lc, x, r, q);
    }
  }

  /** Two sorted sequences with the same records and the same order among
      tied records are equal. */
  lemma {:induction false} SortedWithEqualTiesAreEqual(order: SortOrder, lc: Collation, r: seq<Publication>, q: seq<Publication>)
    requires Collates(order, lc)
    requires Sorted(order, lc, r) && Sorted(order, lc, q)
    requires multiset(r) == multiset(q)
    requires forall x :: Ties(order, lc, x, r) == Ties(order, lc, x, q)
    ensures r == q
    decreases |r|
  {
    if r == [] || q == [] {
      assert |r| == |multiset(r)| == |multiset(q)| == |q|;
    } else {
      SameHead(order, lc, r, q);
      SameTails(order, lc, r, q);
      SortedTail(order, lc, r);
      SortedTail(order, lc, q);
      SortedWithEqualTiesAreEqual(order, lc, r[1..], q[1..]);
      SameHeadAndTail(r, q);
    }
  }

  /** Sequences with the same first element and the same rest are equal. */
  lemma SameHeadAndTail<T>(r: seq<T>, q: seq<T>)
    requires r != [] && q != [] && r[0] == q[0] && r[1..] == q[1..]
    ensures r == q
  {
    assert r == [r[0]] + r[1..];
    assert q == [q[0]] + q[1..];
  }

  /** Any sorted rearrangement of `s` that keeps tied records in their input
      order is `SortBy`'s result: a stable sort with this comparator has no
      other possible outcome. */
  lemma SortIsUnique(order: SortOrder, lc: Collation, s: seq<Publication>, r: seq<Publication>)
    requires Collates(order, lc)
    requires multiset(r) == multiset(s) && Sorted(order, lc, r)
    requires forall x :: Ties(order, lc, x, r) == Ties(order, lc, x, s)
    ensures r == SortBy(order, lc, s)
  {
    forall x ensures Ties(order, lc, x, SortBy(order, lc, s)) == Ties(order, lc, x, s) {
      SortIsStable(order, lc, s, x);
    }
    SortByPermutes(order, lc, s);
    SortByIsSorted(order, lc, s);
    SortedWithEqualTiesAreEqual(order, lc, r, SortBy(order, lc, s));
  }

  /** Sorting an already sorted sequence leaves it as it is. */
  lemma {:induction false} SortOfSortedIsIdentity(order: SortOrder, lc: Collation, s: seq<Publication>)
    requires Sorted(order, lc, s)
    ensures SortBy(order, lc, s) == s
  {
    if s != [] {
      var t := s[1..];
      SortedTail(order, lc, s);
      SortOfSortedIsIdentity(order, lc, t);
      assert SortBy(order, lc, s) == Insert(order, lc, s[0], t);
      if t != [] {
        assert Compare(order, lc, s[0], s[1]) <= 0;
        assert Insert(order, lc, s[0], t) == [s[0]] + t;
      }
      assert s == [s[0]] + t;
    }
  }

  /** Sorting twice with the same order is sorting once. */
  lemma SortIsIdempotent(order: SortOrder, lc: Collation, s: seq<Publication>)
    requires Collates(order, lc)
    ensures SortBy(order, lc, SortBy(order, lc, s)) == SortBy(order, lc, s)
  {
    SortByIsSorted(order, lc, s);
    SortOfSortedIsIdentity(order, lc, SortBy(order, lc, s));
  }

  /** With a `sortOrder` value the comparator does not test for, every
      comparison is 0 and the copy keeps the input order. */
  lemma UnrecognisedOrderKeepsInputOrder(value: string, lc: Collation, s: seq<Publication>)
    requires value !in ["citations", "year", "title"]
    ensures forall a, b :: Compare(SortOrderOf(value), lc, a, b) == 0
    ensures SortBy(SortOrderOf(value), lc, s) == s
  {
    SortOfSortedIsIdentity(SortOrderOf(value), lc, s);
  }
}
