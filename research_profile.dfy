/** The researcher profile page's view model: its view state, the list it
    displays (the sort stage followed by the filter stage over the page's
    seven publications) and the star button's handler. */
module ResearchProfile {
  import opened PublicationData
  import opened SortStage
  import opened FilterStage

  /** The page's three pieces of view state, holding the raw selector
      values as the page does. */
  datatype ViewState = ViewState(activeTab: string, sortOrder: string, yearRange: string)

  /** The state the page starts with. */
  const InitialView := ViewState("articles", "citations", "all")

  /** A subsequence of a sorted sequence is sorted. */
  lemma {:induction false} SortedSubsequence(order: SortOrder, lc: Collation, r: seq<Publication>, s: seq<Publication>)
    requires IsSubsequence(r, s) && Sorted(order, lc, s)
    ensures Sorted(order, lc, r)
    decreases |s|
  {
    if r != [] && s != [] {
      SortedTail(order, lc, s);
      if r[0] == s[0] {
        SortedSubsequence(order, lc, r[1..], s[1..]);
        SubsequenceMembers(r[1..], s[1..]);
        SortedCons(order, lc, r[0], r[1..]);
        assert r == [r[0]] + r[1..];
      } else {
        SortedSubsequence(order, lc, r, s[1..]);
      }
    }
  }

  /** Sort, then filter: the records the year range keeps, ordered by the
      sort order. */
  function Pipeline(order: SortOrder, range: YearRange, lc: Collation, s: seq<Publication>): (r: seq<Publication>)
    requires Collates(order, lc)
    ensures Sorted(order, lc, r)
  {
    var sorted := SortBy(order, lc, s);
    SortByIsSorted(order, lc, s);
    FilterIsSubsequence(range, sorted);
    SortedSubsequence(order, lc, FilterByYear(range, sorted), sorted);
    FilterByYear(range, sorted)
  }

  /** The pipeline only selects: the filter never reorders the sorted list,
      it keeps each record the year range keeps as often as the input holds
      it and no other, so it never lengthens the list. */
  lemma PipelineSelects(order: SortOrder, range: YearRange, lc: Collation, s: seq<Publication>)
    requires Collates(order, lc)
    ensures IsSubsequence(Pipeline(order, range, lc, s), SortBy(order, lc, s))
    ensures forall p :: multiset(Pipeline(order, range, lc, s))[p] == if Keeps(range, p) then multiset(s)[p] else 0
    ensures |Pipeline(order, range, lc, s)| <= |s|
  {
    var sorted := SortBy(order, lc, s);
    FilterIsSubsequence(range, sorted);
    FilterCounts(range, sorted);
    SortByPermutes(order, lc, s);
    SubsequenceMembers(Pipeline(order, range, lc, s), sorted);
  }

  /** The list the articles tab displays for a view state. */
  function Displayed(view: ViewState, lc: Collation): seq<Publication>
    requires Collates(SortOrderOf(view.sortOrder), lc)
  {
    Pipeline(SortOrderOf(view.sortOrder), YearRangeOf(view.yearRange), lc, Publications)
  }

  /** Running the list through the pipeline again with the same selections
      changes nothing. */
  lemma PipelineIsIdempotent(order: SortOrder, range: YearRange, lc: Collation, s: seq<Publication>)
    requires Collates(order, lc)
    ensures Pipeline(order, range, lc, Pipeline(order, range, lc, s)) == Pipeline(order, range, lc, s)
  {
    SortOfSortedIsIdentity(order, lc, Pipeline(order, range, lc, s));
    FilterIsIdempotent(range, SortBy(order, lc, s));
  }

  /** Whether the alert announces starring or un-starring. */
  datatype StarAction = Star | Unstar

  /** The alert the star button raises: the title it reads and the action it
      announces. */
  datatype Notice = Notice(title: string, action: StarAction)
  {
    /** The alert's text. */
    function Text(): string
    {
      "Publication \"" + title + "\" " + (if action == Unstar then "un-starred" else "starred")
    }
  }

  /** Reading `.title` of a missing array element throws a TypeError. */
  datatype Fault = TypeError

  /** What the handler produces: the alert it raises, or the fault it throws. */
  datatype Result<T> = Ok(value: T) | Err(fault: Fault)

  /** The alert for a record: a starred record would be un-starred. */
  function NoticeFor(p: Publication): Notice
  {
    Notice(p.title, if p.isStarred then Unstar else Star)
  }

  /** The alert's text determines the notice: two notices with different
      titles or different actions never show the same text. */
  lemma NoticeTextIsUnambiguous(m: Notice, n: Notice)
    ensures m.Text() == n.Text() ==> m == n
  {
    var head := "Publication \"";
    var tm := "\" " + (if m.action == Unstar then "un-starred" else "starred");
    var tn := "\" " + (if n.action == Unstar then "un-starred" else "starred");
    assert m.Text() == head + m.title + tm;
    assert n.Text() == head + n.title + tn;
    // Nine characters from the end, "un-starred" shows an 'n' where
    // "starred" shows the closing quote.
    assert m.Text()[|m.Text()| - 9] == tm[|tm| - 9] == if m.action == Unstar then 'n' else '"';
    assert n.Text()[|n.Text()| - 9] == tn[|tn| - 9] == if n.action == Unstar then 'n' else '"';
    if m.Text() == n.Text() && m.action == n.action {
      assert m.title == m.Text()[|head|..|head| + |m.title|];
      assert n.title == n.Text()[|head|..|head| + |n.title|];
    }
  }

  /** Whatever the record, the alert for it reads differently once its star
      is flipped: the text always tells starring from un-starring. */
  lemma NoticeTellsStarringApart(p: Publication)
    ensures NoticeFor(p).Text() != NoticeFor(p.(isStarred := !p.isStarred)).Text()
  {
    NoticeTextIsUnambiguous(NoticeFor(p), NoticeFor(p.(isStarred := !p.isStarred)));
  }

  /** `toggleStar(index)` as written: it reads `publications[index]`, the
      unsorted, unfiltered array, raises an alert and calls no state setter,
      so the view state comes back as it was and no `isStarred` flag changes
      (they belong to the constant `Publications`). */
  function ToggleStar(view: ViewState, index: int): (out: (ViewState, Result<Notice>))
    ensures out.0 == view
    ensures out.1.Ok? <==> 0 <= index < |Publications|
    ensures out.1.Ok? ==> out.1.value == NoticeFor(Publications[index])
  {
    if 0 <= index < |Publications| then (view, Ok(NoticeFor(Publications[index])))
    else (view, Err(TypeError))
  }

  /** Every index the star buttons pass, a position in the displayed list,
      is a valid index into `publications`, so the handler never throws. */
  lemma DisplayedIndexIsInRange(view: ViewState, lc: Collation, index: int)
    requires Collates(SortOrderOf(view.sortOrder), lc) && 0 <= index < |Displayed(view, lc)|
    ensures ToggleStar(view, index).1.Ok?
  {
    PipelineSelects(SortOrderOf(view.sortOrder), YearRangeOf(view.yearRange), lc, Publications);
  }

  /** The handler as evidently intended: it announces the record whose star
      was clicked, the `index`-th record of the displayed list. */
  function ToggleDisplayedStar(view: ViewState, lc: Collation, index: int): (out: (ViewState, Result<Notice>))
    requires Collates(SortOrderOf(view.sortOrder), lc)
    ensures out.0 == view
    ensures out.1.Ok? <==> 0 <= index < |Displayed(view, lc)|
    ensures out.1.Ok? ==> out.1.value.title == Displayed(view, lc)[index].title
    ensures out.1.Ok? ==> (out.1.value.action == Unstar <==> Displayed(view, lc)[index].isStarred)
  {
    var shown := Displayed(view, lc);
    if 0 <= index < |shown| then (view, Ok(NoticeFor(shown[index])))
    else (view, Err(TypeError))
  }

  /** The sort and filter keys of the page's seven publications, in
      declaration order. */
  ghost predicate HasFixtureKeys(s: seq<Publication>)
  {
    && |s| == 7
    && s[0].year == 2023 && s[0].citations == 54236
    && s[1].year == 2022 && s[1].citations == 35918
    && s[2].year == 2021 && s[2].citations == 28733
    && s[3].year == 2020 && s[3].citations == 12437
    && s[4].year == 2019 && s[4].citations == 19743
    && s[5].year == 2018 && s[5].citations == 14352
    && s[6].year == 2017 && s[6].citations == 29651
  }

  /** The page's publications carry the fixture's keys. */
  lemma PublicationsHaveFixtureKeys()
    ensures HasFixtureKeys(Publications)
  {
  }

  /** One step of the sort: the first record is inserted into the sorted rest. */
  lemma SortByCons(order: SortOrder, lc: Collation, x: Publication, t: seq<Publication>)
    ensures SortBy(order, lc, [x] + t) == Insert(order, lc, x, SortBy(order, lc, t))
  {
    assert ([x] + t)[1..] == t;
  }

  /** A record that may precede the head is inserted in front of it. */
  lemma InsertBefore(order: SortOrder, lc: Collation, x: Publication, h: Publication, t: seq<Publication>)
    requires Compare(order, lc, x, h) <= 0
    ensures Insert(order, lc, x, [h] + t) == [x, h] + t
  {
  }

  /** A record that must follow the head is inserted into the rest. */
  lemma InsertAfter(order: SortOrder, lc: Collation, x: Publication, h: Publication, t: seq<Publication>)
    requires Compare(order, lc, x, h) > 0
    ensures Insert(order, lc, x, [h] + t) == [h] + Insert(order, lc, x, t)
  {
    assert ([h] + t)[1..] == t;
  }

  /** One step of the filter: the first record is kept or dropped. */
  lemma FilterCons(range: YearRange, x: Publication, t: seq<Publication>)
    ensures FilterByYear(range, [x] + t) == (if Keeps(range, x) then [x] else []) + FilterByYear(range, t)
  {
    assert ([x] + t)[1..] == t;
  }

  /** Seven records with the fixture's keys, ordered by citations. */
  lemma ByCitationsWithFixtureKeys(lc: Collation, s: seq<Publication>)
    requires HasFixtureKeys(s)
    ensures SortBy(Citations, lc, s) == [s[0], s[1], s[6], s[2], s[4], s[5], s[3]]
  {
    var c := Citations;
    var a, b, d, t, w, n, g := s[0], s[1], s[2], s[3], s[4], s[5], s[6];
    assert s == [a] + ([b] + ([d] + ([t] + ([w] + ([n] + [g])))));
    SortByCons(c, lc, g, []);
    SortByCons(c, lc, n, [g]);
    InsertAfter(c, lc, n, g, []);
    SortByCons(c, lc, w, [n] + [g]);
    InsertAfter(c, lc, w, g, [n]);
    InsertBefore(c, lc, w, n, []);
    TailStep(lc, a, b, d, t, w, n, g);
  }

  /** The last two insertions of the citations sort of the fixture's keys. */
  lemma TailStep(lc: Collation, a: Publication, b: Publication, d: Publication, t: Publication,
                 w: Publication, n: Publication, g: Publication)
    requires HasFixtureKeys([a, b, d, t, w, n, g])
    requires SortBy(Citations, lc, [w] + ([n] + [g])) == [g, w, n]
    ensures SortBy(Citations, lc, [a] + ([b] + ([d] + ([t] + ([w] + ([n] + [g]))))))
         == [a, b, g, d, w, n, t]
  {
    var c := Citations;
    var s4 := [w] + ([n] + [g]);
    MiddleStep(lc, a, b, d, t, w, n, g);
    SortByCons(c, lc, b, [d] + ([t] + s4));
    InsertBefore(c, lc, b, g, [d, w, n, t]);
    SortByCons(c, lc, a, [b] + ([d] + ([t] + s4)));
    InsertBefore(c, lc, a, b, [g, d, w, n, t]);
  }

  /** The third and fourth insertions from the end of the citations sort of
      the fixture's keys. */
  lemma MiddleStep(lc: Collation, a: Publication, b: Publication, d: Publication, t: Publication,
                   w: Publication, n: Publication, g: Publication)
    requires HasFixtureKeys([a, b, d, t, w, n, g])
    requires SortBy(Citations, lc, [w] + ([n] + [g])) == [g, w, n]
    ensures SortBy(Citations, lc, [d] + ([t] + ([w] + ([n] + [g])))) == [g, d, w, n, t]
  {
    var c := Citations;
    var s4 := [w] + ([n] + [g]);
    SortByCons(c, lc, t, s4);
    InsertAfter(c, lc, t, g, [w, n]);
    InsertAfter(c, lc, t, w, [n]);
    InsertAfter(c, lc, t, n, []);
    assert SortBy(c, lc, [t] + s4) == [g, w, n, t];
    SortByCons(c, lc, d, [t] + s4);
    InsertAfter(c, lc, d, g, [w, n, t]);
    InsertBefore(c, lc, d, w, [n, t]);
  }

  /** Seven records with the fixture's keys, narrowed by "since2020": the
      first four remain. */
  lemma Since2020WithFixtureKeys(s: seq<Publication>)
    requires HasFixtureKeys(s)
    ensures FilterByYear(Since2020, s) == s[..4]
  {
    var a, b, d, t, w, n, g := s[0], s[1], s[2], s[3], s[4], s[5], s[6];
    assert s == [a] + ([b] + ([d] + ([t] + ([w] + ([n] + [g])))));
    assert s[..4] == [a, b, d, t];
    FilterCons(Since2020, g, []);
    FilterCons(Since2020, n, [g]);
    FilterCons(Since2020, w, [n] + [g]);
    FilterCons(Since2020, t, [w] + ([n] + [g]));
    FilterCons(Since2020, d, [t] + ([w] + ([n] + [g])));
    FilterCons(Since2020, b, [d] + ([t] + ([w] + ([n] + [g]))));
    FilterCons(Since2020, a, [b] + ([d] + ([t] + ([w] + ([n] + [g])))));
  }

  /** Seven records with the fixture's keys, narrowed by "since2018": the
      first six remain. */
  lemma Since2018WithFixtureKeys(s: seq<Publication>)
    requires HasFixtureKeys(s)
    ensures FilterByYear(Since2018, s) == s[..6]
  {
    var a, b, d, t, w, n, g := s[0], s[1], s[2], s[3], s[4], s[5], s[6];
    assert s == [a] + ([b] + ([d] + ([t] + ([w] + ([n] + [g])))));
    assert s[..6] == [a, b, d, t, w, n];
    FilterCons(Since2018, g, []);
    FilterCons(Since2018, n, [g]);
    FilterCons(Since2018, w, [n] + [g]);
    FilterCons(Since2018, t, [w] + ([n] + [g]));
    FilterCons(Since2018, d, [t] + ([w] + ([n] + [g])));
    FilterCons(Since2018, b, [d] + ([t] + ([w] + ([n] + [g]))));
    FilterCons(Since2018, a, [b] + ([d] + ([t] + ([w] + ([n] + [g])))));
  }

  /** The citations order of seven records with the fixture's keys, narrowed
      by "since2020": the four records from 2023 down to 2020 remain. */
  lemma Since2020ByCitationsWithFixtureKeys(s: seq<Publication>)
    requires HasFixtureKeys(s)
    ensures FilterByYear(Since2020, [s[0], s[1], s[6], s[2], s[4], s[5], s[3]]) == s[..4]
  {
    var a, b, d, t, w, n, g := s[0], s[1], s[2], s[3], s[4], s[5], s[6];
    assert s[..4] == [a, b, d, t];
    assert [a, b, g, d, w, n, t] == [a] + ([b] + ([g] + ([d] + ([w] + ([n] + [t])))));
    FilterCons(Since2020, t, []);
    FilterCons(Since2020, n, [t]);
    FilterCons(Since2020, w, [n] + [t]);
    FilterCons(Since2020, d, [w] + ([n] + [t]));
    FilterCons(Since2020, g, [d] + ([w] + ([n] + [t])));
    FilterCons(Since2020, b, [g] + ([d] + ([w] + ([n] + [t]))));
    FilterCons(Since2020, a, [b] + ([g] + ([d] + ([w] + ([n] + [t])))));
  }

  /** The page's seven publications ordered by citations. */
  lemma FixtureByCitations(lc: Collation)
    ensures SortBy(Citations, lc, Publications)
         == [AttentionIsAllYouNeed, Bert, GenerativeAdversarialNetworks, DeepResidualLearning,
             Word2Vec, BatchNormalization, Gpt3]
  {
    PublicationsHaveFixtureKeys();
    ByCitationsWithFixtureKeys(lc, Publications);
  }

  /** The page first shows every publication by citations: the 54236-citation
      record first and the 12437-citation record last. */
  lemma InitialViewShowsCitationOrder(lc: Collation)
    ensures var shown := Displayed(InitialView, lc);
            |shown| == 7 && shown[0].citations == 54236 && shown[6].citations == 12437
  {
    FixtureByCitations(lc);
    FilterFailsOpen("all", SortBy(Citations, lc, Publications));
  }

  /** Whatever the sort order, "since2020" leaves four of the seven records
      and "since2018" six. */
  lemma FixtureYearRangeCounts(order: SortOrder, lc: Collation)
    requires Collates(order, lc)
    ensures |Pipeline(order, Since2020, lc, Publications)| == 4
    ensures |Pipeline(order, Since2018, lc, Publications)| == 6
  {
    var sorted := SortBy(order, lc, Publications);
    SortByPermutes(order, lc, Publications);
    FilterCountIgnoresOrder(Since2020, sorted, Publications);
    FilterCountIgnoresOrder(Since2018, sorted, Publications);
    PublicationsHaveFixtureKeys();
    Since2020WithFixtureKeys(Publications);
    Since2018WithFixtureKeys(Publications);
  }

  /** With the default sort, "since2020" shows the four records from 2023
      down to 2020. */
  lemma Since2020ByCitations(lc: Collation)
    ensures var shown := Displayed(ViewState("articles", "citations", "since2020"), lc);
            |shown| == 4 && shown[0].year == 2023 && shown[1].year == 2022
            && shown[2].year == 2021 && shown[3].year == 2020
  {
    PublicationsHaveFixtureKeys();
    ByCitationsWithFixtureKeys(lc, Publications);
    Since2020ByCitationsWithFixtureKeys(Publications);
  }

  /** The handler as written reports another publication than the one
      clicked: in the initial view the third star belongs to "Generative
      Adversarial Networks", but the alert names "Deep Residual Learning for
      Image Recognition", the third record of the unsorted array. */
  lemma ToggleStarReportsAnotherRecord(lc: Collation)
    ensures var shown := Displayed(InitialView, lc);
            && |shown| == 7
            && shown[2] == GenerativeAdversarialNetworks
            && ToggleStar(InitialView, 2).1 == Ok(Notice(DeepResidualLearning.title, Star))
            && ToggleStar(InitialView, 2).1.value.title != shown[2].title
            && ToggleDisplayedStar(InitialView, lc, 2).1 == Ok(Notice(GenerativeAdversarialNetworks.title, Unstar))
  {
    FixtureByCitations(lc);
    FilterFailsOpen("all", SortBy(Citations, lc, Publications));
    assert DeepResidualLearning.title[0] != GenerativeAdversarialNetworks.title[0];
  }

  /** Seven records with the fixture's keys are already in year order. */
  lemma YearOrderWithFixtureKeys(lc: Collation, s: seq<Publication>)
    requires HasFixtureKeys(s)
    ensures Sorted(Year, lc, s)
  {
    forall i, j | 0 <= i < j < |s| ensures Compare(Year, lc, s[i], s[j]) <= 0 {
      assert s[i].year == 2023 - i && s[j].year == 2023 - j;
    }
  }

  /** Where the display order is the declaration order (sorted by year, all
      years) the handler as written and the intended one agree: the defect
      shows only once sorting or filtering moves a record. */
  lemma HandlersAgreeInDeclarationOrder(lc: Collation, index: int)
    ensures Displayed(ViewState("articles", "year", "all"), lc) == Publications
    ensures ToggleStar(ViewState("articles", "year", "all"), index)
         == ToggleDisplayedStar(ViewState("articles", "year", "all"), lc, index)
  {
    PublicationsHaveFixtureKeys();
    YearOrderWithFixtureKeys(lc, Publications);
    SortOfSortedIsIdentity(Year, lc, Publications);
    FilterFailsOpen("all", Publications);
  }
}
