# Re-Assist researcher profile: the publication list

This project models, in Dafny, the one piece of logic on the Re-Assist
researcher profile page (`src/components/ResearchProfilePage.jsx`): the
pipeline that turns the page's seven hard-coded publications into the list
the "Articles" tab displays, and the star button's handler.

- **Records and fixture** (`publication_data.dfy`, module `PublicationData`):
  a `Publication` datatype with the page's fields (`title`, `authors`,
  `journal`, `year`, `citations`, `isStarred`) and the seven records in
  declaration order as `Publications`.
- **Sort stage** (`sort_stage.dfy`, module `SortStage`): the `sortOrder`
  selector value classified into `Citations | Year | Title | Other(name)`,
  the page's comparator `Compare`, and `[...publications].sort(comparator)`
  as a stable insertion sort `SortBy`. `String.prototype.localeCompare` is a
  parameter `lc`. Only the title order calls it, so only the title order
  needs it to satisfy `IsCollation` (flip sign when its arguments are
  swapped, and be transitive: a total preorder on titles). Because
  ECMAScript requires `Array.prototype.sort` to be stable, `SortIsUnique`
  proves that every stable sort with this comparator yields exactly
  `SortBy`'s result, so the choice of insertion sort is immaterial.
- **Filter stage** (`filter_stage.dfy`, module `FilterStage`): the
  `yearRange` selector value classified into
  `All | Since2020 | Since2018 | Custom | Other(name)`, the filter predicate
  `Keeps`, and `sortedPublications.filter(...)` as `FilterByYear`.
- **View model** (`research_profile.dfy`, module `ResearchProfile`): the
  view state `(activeTab, sortOrder, yearRange)` with its initial value
  `("articles", "citations", "all")`, the composed `Pipeline` and
  `Displayed` list, the handler `ToggleStar` (returning the unchanged view
  state and either the alert's `Notice` or the `TypeError` that reading a
  missing element would throw), a corrected handler `ToggleDisplayedStar`,
  and the expected outputs on the seven fixed records.

These definitions model the page's code directly; what they promise is
stated by the lemmas in the table below (all lines are in
`src/components/ResearchProfilePage.jsx`):

- `ResearchProfile.ViewState` and `ResearchProfile.InitialView`: the three
  `useState` hooks and their initial values (lines 8-10).
- `PublicationData.Publications`: the `publications` array (lines 32-89).
- `SortStage.SortOrderOf`: the `sortOrder === ...` tests (lines 93-97).
- `SortStage.Compare`: the comparator passed to `sort` (lines 92-101).
- `SortStage.SortBy`: `[...publications].sort(...)` (line 92), built from
  `SortStage.Insert`, which inserts one record in front of the first record
  it does not have to follow.
- `FilterStage.YearRangeOf`: the `yearRange === ...` tests (lines 105-108).
- `FilterStage.Keeps`: the filter predicate (lines 105-112).
- `FilterStage.FilterByYear`: `sortedPublications.filter(...)` (line 104).
- `ResearchProfile.Pipeline` and `ResearchProfile.Displayed`: the list the
  articles tab maps over (lines 91-113 and 266).
- `ResearchProfile.NoticeFor` and `Notice.Text`: the alert's message
  (line 133).

`SortStage.Ties` (the records tied with a given record, in order),
`FilterStage.IsSubsequence`, and the inverse maps `SortStage.SortOrderName`
and `FilterStage.YearRangeName` (which the classification round-trip lemmas
are stated with) are helpers for stating properties, with no counterpart in
the page.

## Model

| member | source | states |
|---|---|---|
| `SortStage.SortOrderNameOfValue` | src/components/ResearchProfilePage.jsx:93-98 | classifying a `sortOrder` value loses nothing: its name is the value itself, so an unknown value is kept as it is |
| `SortStage.SortOrderOfName` | src/components/ResearchProfilePage.jsx:93-98 | each of `"citations"`, `"year"`, `"title"` and every other string classifies back to the sort order it names |
| `SortStage.CompareFlips` | src/components/ResearchProfilePage.jsx:92-101 | swapping the two records flips the sign of the comparator's result, for every sort order |
| `SortStage.CompareChains` | src/components/ResearchProfilePage.jsx:92-101 | "sorts no later than" under the comparator is transitive, for every sort order |
| `SortStage.CompareIsConsistent` | src/components/ResearchProfilePage.jsx:92-101 | the comparator is a consistent comparator for every sort order; only the title order needs `localeCompare` to be a total preorder |
| `SortStage.SortByIsSorted` | src/components/ResearchProfilePage.jsx:92-101 | the sorted copy has no record after one the comparator puts before it |
| `SortStage.SortByPermutes` | src/components/ResearchProfilePage.jsx:92 | the sorted copy holds the same records as the input, each as often, so it has the same length, whatever `localeCompare` does |
| `SortStage.CitationsOrderIsNonIncreasing` | src/components/ResearchProfilePage.jsx:93-94 | sorted by `"citations"`, citation counts never increase along the list, whatever `localeCompare` does |
| `SortStage.YearOrderIsNonIncreasing` | src/components/ResearchProfilePage.jsx:95-96 | sorted by `"year"`, years never increase along the list, whatever `localeCompare` does |
| `SortStage.TitleOrderIsAscending` | src/components/ResearchProfilePage.jsx:97-98 | sorted by `"title"`, every earlier title compares at most 0 with every later one under `localeCompare` |
| `SortStage.SortIsStable` | src/components/ResearchProfilePage.jsx:92-101 | for any record, the records the comparator ranks equal to it appear in the sorted copy in their input order |
| `SortStage.SortIsUnique` | src/components/ResearchProfilePage.jsx:92-101 | any sorted rearrangement of the input that keeps tied records in input order equals `SortBy`'s result |
| `SortStage.SortOfSortedIsIdentity` | src/components/ResearchProfilePage.jsx:92-101 | sorting an already sorted list returns it unchanged |
| `SortStage.SortIsIdempotent` | src/components/ResearchProfilePage.jsx:92-101 | sorting twice by the same order equals sorting once |
| `SortStage.UnrecognisedOrderKeepsInputOrder` | src/components/ResearchProfilePage.jsx:93-100 | for every `sortOrder` value other than `"citations"`, `"year"` and `"title"`, every comparison is 0 and the copy keeps the input order exactly |
| `FilterStage.YearRangeNameOfValue` | src/components/ResearchProfilePage.jsx:105-108 | classifying a `yearRange` value loses nothing: its name is the value itself |
| `FilterStage.YearRangeOfName` | src/components/ResearchProfilePage.jsx:105-108 | each of `"all"`, `"since2020"`, `"since2018"`, `"custom"` and every other string classifies back to the range it names |
| `FilterStage.SubsequenceMembers` | src/components/ResearchProfilePage.jsx:104 | a list obtained by dropping records holds only records of the original and is no longer |
| `FilterStage.FilterIsSubsequence` | src/components/ResearchProfilePage.jsx:104-113 | the filtered list is the input with some records dropped and the rest in their input order |
| `FilterStage.FilterCounts` | src/components/ResearchProfilePage.jsx:104-113 | the filtered list holds each record the range keeps exactly as often as the input does, and no other record |
| `FilterStage.Since2020KeepsFrom2020` | src/components/ResearchProfilePage.jsx:106 | `"since2020"` keeps a record if and only if it is in the input and its year is at least 2020 |
| `FilterStage.Since2018KeepsFrom2018` | src/components/ResearchProfilePage.jsx:107 | `"since2018"` keeps a record if and only if it is in the input and its year is at least 2018 |
| `FilterStage.FilterFailsOpen` | src/components/ResearchProfilePage.jsx:104-113 | for every `yearRange` value other than `"since2020"` and `"since2018"` (so `"all"`, `"custom"` and any unknown value) the input comes back unchanged |
| `FilterStage.FilterIsIdempotent` | src/components/ResearchProfilePage.jsx:104-113 | filtering twice by the same range equals filtering once |
| `FilterStage.Since2020NarrowsSince2018` | src/components/ResearchProfilePage.jsx:106-107 | filtering the `"since2018"` list by `"since2020"` equals filtering the input by `"since2020"` |
| `FilterStage.Since2020WithinSince2018` | src/components/ResearchProfilePage.jsx:106-107 | the `"since2020"` list is the `"since2018"` list with some records dropped, order kept |
| `FilterStage.FilterCountIgnoresOrder` | src/components/ResearchProfilePage.jsx:104-113 | two lists with the same records keep the same number of records under any range |
| `ResearchProfile.SortedSubsequence` | src/components/ResearchProfilePage.jsx:104 | dropping records from a sorted list leaves it sorted |
| `ResearchProfile.Pipeline` | src/components/ResearchProfilePage.jsx:91-113 | the displayed list (sort, then filter) is sorted by the selected order |
| `ResearchProfile.PipelineSelects` | src/components/ResearchProfilePage.jsx:91-113 | the filter never reorders the sorted list, keeps exactly the records the range keeps with their multiplicities, and never lengthens the list |
| `ResearchProfile.PipelineIsIdempotent` | src/components/ResearchProfilePage.jsx:91-113 | feeding the displayed list through the same sort and filter again gives the same list |
| `ResearchProfile.NoticeTextIsUnambiguous` | src/components/ResearchProfilePage.jsx:133 | the alert's text determines the title it names and whether it announces starring or un-starring: different notices never read the same |
| `ResearchProfile.NoticeTellsStarringApart` | src/components/ResearchProfilePage.jsx:133 | for every record, the alert reads differently once the record's starred flag is flipped |
| `ResearchProfile.ToggleStar` | src/components/ResearchProfilePage.jsx:130-134 | the handler leaves the view state unchanged, succeeds exactly when the index is within the seven records, and then reports the record at that index of the unsorted array |
| `ResearchProfile.DisplayedIndexIsInRange` | src/components/ResearchProfilePage.jsx:266-272 | every index a star button passes (a position in the displayed list) is within the unsorted array, so the handler never throws |
| `ResearchProfile.ToggleDisplayedStar` | src/components/ResearchProfilePage.jsx:266-272 | the corrected handler leaves the view state unchanged, succeeds exactly for positions of the displayed list, and reports the title and starred state of the clicked record |
| `ResearchProfile.ToggleStarReportsAnotherRecord` | src/components/ResearchProfilePage.jsx:130-134 | in the initial view the third star belongs to "Generative Adversarial Networks", but the handler as written names "Deep Residual Learning for Image Recognition"; the corrected handler names the clicked record, whatever `localeCompare` does |
| `ResearchProfile.HandlersAgreeInDeclarationOrder` | src/components/ResearchProfilePage.jsx:130-134 | sorted by year with all years shown, the display order is the declaration order and both handlers give the same result for every index, whatever `localeCompare` does |
| `ResearchProfile.PublicationsHaveFixtureKeys` | src/components/ResearchProfilePage.jsx:32-89 | the seven records carry years 2023 down to 2017 and their declared citation counts, in declaration order |
| `ResearchProfile.YearOrderWithFixtureKeys` | src/components/ResearchProfilePage.jsx:32-89 | the records as declared are already in year order |
| `ResearchProfile.FixtureByCitations` | src/components/ResearchProfilePage.jsx:32-89 | sorted by citations, the seven records come out as Attention, BERT, GAN, ResNet, word2vec, Batch Normalization, GPT-3 |
| `ResearchProfile.InitialViewShowsCitationOrder` | src/components/ResearchProfilePage.jsx:8-10 | with the initial view state the page shows all seven records, the 54236-citation record first and the 12437-citation record last, whatever `localeCompare` does |
| `ResearchProfile.FixtureYearRangeCounts` | src/components/ResearchProfilePage.jsx:106-107 | whatever the sort order, `"since2020"` leaves 4 of the seven records and `"since2018"` leaves 6 |
| `ResearchProfile.Since2020ByCitations` | src/components/ResearchProfilePage.jsx:106 | sorted by citations and filtered by `"since2020"`, the page shows 4 records with years 2023, 2022, 2021, 2020 in that order, whatever `localeCompare` does |

## Left out

- Rendering: the JSX markup, CSS classes, tab buttons, the co-author grid,
  the profile header and statistics (`ResearchProfilePage.jsx:136-317`).
  Whether the list is shown at all (`activeTab === "articles"`) is rendering,
  so `activeTab` is carried in the view state but used by nothing.
- The citations-per-year chart and its bar height arithmetic
  (`ResearchProfilePage.jsx:116-124`, `:203`): floating-point display only.
- `handleBackToHome` and `navigate(...)` (`ResearchProfilePage.jsx:126-128`):
  a router call with no logic of the page's own.
- `alert(...)` itself: the model returns the `Notice` the alert would show
  (`Notice.Text` gives its text) instead of calling the browser.
- The React state setters (`setActiveTab`, `setSortOrder`, `setYearRange`):
  each replaces one field of the view state; the model keeps the view state
  as an immutable record and computes the list from whichever record is
  given, which is what re-rendering does.
- `localeCompare`'s actual collation rules: the model takes any function that
  is a total preorder on strings, so no lemma fixes the title order of the
  seven records.
- The engine's sort algorithm, which the standard leaves to the
  implementation: the model uses an insertion sort and proves that any
  stable sort with this comparator gives the same result (`SortIsUnique`).
- JavaScript number semantics: `year` and `citations` are unbounded
  integers, which agrees with the page's values because their differences
  are exact in double precision; fields that are missing or not numbers
  cannot occur in the fixed data and are not modelled.
- The page sorts a spread copy, so `publications` is never changed; in a
  model over values no operation can change it, and nothing more is stated.
- The model uses the page's own field names (`journal`, `citations`) and
  keeps any selector value the comparator or the filter predicate does not
  test for as `Other`.
- `src/components/Sidebar.jsx` and `src/components/sections/CTASection.jsx`
  are not part of this model: router plumbing and a presentational banner.

## Findings

| source | as written | input that shows it | evidently intended | confidence | as-written member | corrected member |
|---|---|---|---|---|---|---|
| src/components/ResearchProfilePage.jsx:130-134 | the star button passes its position in the displayed (sorted and filtered) list (`:266`, `:272`), but `toggleStar` looks that position up in the unsorted `publications` array | initial view (sorted by citations, all years), third star, index 2: the card shows "Generative Adversarial Networks" (starred), the alert names "Deep Residual Learning for Image Recognition" and says "starred" | announce the record whose star was clicked, `filteredPublications[index]` | high (not executed) | `ResearchProfile.ToggleStar`, exhibited by `ResearchProfile.ToggleStarReportsAnotherRecord` | `ResearchProfile.ToggleDisplayedStar` |
