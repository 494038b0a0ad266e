# Lessn catalogue core, modelled in Dafny

Lessn is a catalogue front-end over one `Presentation` table. This project
models the parts of it that compute something, and proves what those parts
promise:

- the facet routes under `/api/meta`:
  - `grades`: alias table, merge by canonical grade, pedagogical order;
  - `filters` and `subjects`: the merge by lower-cased title case and the name order;
  - `topics` and `subtopics`: `readList`, the `limit` cap, the `where.AND` conjunction, title-cased rows and `slice`.
- the search route `POST /api/presentations/search`: the filter, `total`, the `skip`/`take` page window, the item shaping through `extractThumbSrc` and the four aggregates.
- the suggest route `GET /api/search/suggest`: the two-character guard, `take: 8` and the 120-character snippet.
- `PresentationCard`: `extractImgSrc`, `absolutize`, the `thumbUrl` fallback chain and the `imgOk` state.
- `HeroSection`'s suggest box:
  - `escapeRe` and `scoreByTopic`;
  - normalising a fetched suggestion;
  - the top four by score;
  - the query cache;
  - the `onType` and fetch-completion transitions;
  - the shortened snippet and the `goSearch` guard.
- `FilterPopup`: hydrating the check lists, the topic selects, `toggleChecked` and the `handleApply` payload.
- `ExploreClient`: `runSearch`'s request body and URL update, `onApply`, the entry flow, the paginator and the popup defaults.
- the explorer page `explore-library/page.js`: `arr` and the first request body.
- `scripts/import-csv.js`: the record built for each CSV line, and the loop that upserts them.

The model:

- The table is a `seq<Presentation>` with unique ids.
- A Prisma `where` is a condition datatype. Its meaning on a row is the predicate `Holds`.
- `groupBy` is a function giving each distinct column value, `null` included, with its row count.
- The code that updates state step by step is written as methods proved against specification functions:
  - the merge loop over a `Map`;
  - the loop of `scoreByTopic`;
  - the `thumbUrl` fallback chain;
  - the import loop.
- React components with state are classes. Each handler is a method whose `ensures` gives the whole new state.
- Network answers are parameters. So are `Number` parsing, `slugify`, `encodeURIComponent` and `new URL`.

Modules follow the source: one per route or component. They share these:

- `Text`: `titleCase`, `trim`, `split`, decimal text;
- `QueryParams`: `URLSearchParams`, `readList`, `limit`, `slice`;
- `Catalog`: the table and the Prisma operations;
- `Facets`: the merge loop;
- `Listing`: the list that the topic and sub-topic routes share;
- `Markup`: the `src` regular expressions;
- `Sorting`: a stable insertion sort, standing for `Array.prototype.sort`.

## Model

| member | source | states |
|---|---|---|
| Text.Lower | src/app/api/meta/filters/route.js:7 | `toLowerCase` keeps the length and lower-cases each character in place |
| Text.Trim | src/app/api/meta/filters/route.js:6 | `trim` leaves no whitespace at either end, and gives "" exactly for a blank string |
| Text.TrimIsInfix | src/app/api/meta/filters/route.js:6 | `trim` gives the string itself with the whitespace at both ends cut off: a slice of it with only whitespace before and after |
| Text.TrimOfTrimmed | src/app/api/meta/filters/route.js:6 | trimming an already trimmed string changes nothing |
| Text.CollapseIsCollapsed | src/app/api/meta/filters/route.js:8 | after `replace(/\s+/g, " ")` whitespace occurs only as single spaces |
| Text.CollapseOfCollapsed | src/app/api/meta/filters/route.js:8 | collapsing a string with only single spaces changes nothing |
| Text.CapitalizeAt | src/app/api/meta/filters/route.js:9 | `replace(/\b\w/g, …)` upper-cases a character exactly where a word starts and keeps every other character |
| Text.Folded | src/app/api/meta/filters/route.js:5-8 | the text before capitalising is trimmed, single-spaced and has no capitals, and is "" exactly for a blank value |
| Text.TitleCaseShape | src/app/api/meta/filters/route.js:4-9 | `titleCase` output is trimmed and single-spaced, with capitals exactly at word starts |
| Text.TitleCaseFixpoint | src/app/api/meta/filters/route.js:4-9 | a trimmed, single-spaced, title-shaped string is its own `titleCase` |
| Text.TitleCaseIdempotent | src/app/api/meta/filters/route.js:4-9 | `titleCase` applied twice equals `titleCase` applied once |
| Text.TitleCaseCaseless | src/app/api/meta/subjects/route.js:17-20 | two `titleCase` results that agree ignoring case are equal, so keying by the lower-cased name merges only identical names |
| Text.Split | src/app/api/meta/topics/route.js:21 | `split(",")` gives at least one part and no part holds a comma |
| Text.SplitJoin | src/app/api/meta/topics/route.js:21 | splitting a join of comma-free parts gives the parts back |
| Text.CleanParts | src/app/api/meta/topics/route.js:21 | `.map(trim).filter(Boolean)` keeps only non-empty trimmed items, never more than it was given |
| Text.CsvItemsClean | src/app/api/meta/topics/route.js:24 | every item of a comma list is non-empty, trimmed and comma-free |
| Text.CsvItemsOfJoin | src/app/api/meta/topics/route.js:24 | splitting the comma-join of clean items gives them back |
| Text.WordsAreWords | src/components/HeroSection.jsx:187-191 | `trim().split(/\s+/).filter(Boolean)` gives non-empty tokens without whitespace |
| Text.StrLeTotal | src/app/api/meta/filters/route.js:29 | the name order compares any two names |
| Text.StrLeTransitive | src/app/api/meta/filters/route.js:29 | the name order is transitive |
| Text.StrLeAntisymmetric | src/app/api/meta/filters/route.js:29 | two names that each precede the other are equal |
| Text.NatToString | src/components/ExploreClient.jsx:59 | `String(n)` of a natural number is non-empty and all decimal digits |
| Text.IntToStringSign | src/components/ExploreClient.jsx:59 | the decimal text starts with `-` exactly for a negative number |
| Text.IntToStringInjective | src/components/ExploreClient.jsx:59 | two numbers with the same decimal text are equal |
| Sorting.Sort | src/app/api/meta/filters/route.js:29 | the sort returns a permutation of its input |
| Sorting.SortSorted | src/app/api/meta/filters/route.js:29 | under a total preorder comparator the result is ordered |
| Sorting.SortDistinct | src/app/api/meta/grades/route.js:65 | sorting keeps the elements' keys pairwise distinct |
| Sorting.SortMembers | src/app/api/meta/filters/route.js:29 | an element is in the sorted list exactly when it is in the input |
| Catalog.AllOfPush | src/app/api/meta/topics/route.js:41-43 | after `where.AND.push(c)` a row is selected exactly when it satisfied the conjunction before and also satisfies `c` |
| Catalog.Select | src/app/api/presentations/search/route.js:43-44 | `findMany({ where })` returns exactly the table rows that satisfy the condition, none invented, never more than the table |
| Catalog.Count | src/app/api/presentations/search/route.js:41 | `count({ where })` is the number of selected rows (`Catalog.SelectCounts` says which and how often), never more than the table |
| Catalog.SelectCounts | src/app/api/presentations/search/route.js:41-44 | the selection holds each row that satisfies the condition exactly as often as the table does, and no other row |
| Catalog.SelectKeepsAll | src/app/api/presentations/search/route.js:41-44 | the selection is as long as the table exactly when every row satisfies the condition |
| Catalog.CountBounds | src/app/api/presentations/search/route.js:41 | the count is 0 exactly when no row matches, and the table's length exactly when every row does |
| Catalog.CountWithPositive | src/app/api/meta/grades/route.js:55 | a value some row holds has a positive row count |
| Catalog.DistinctValues | src/app/api/meta/grades/route.js:55 | the grouped values are pairwise distinct and are exactly the values some row holds |
| Catalog.GroupBy | src/app/api/meta/grades/route.js:55 | `groupBy` gives one group per distinct value, with a positive count equal to the rows holding it, and covers every row |
| Catalog.GroupByCounts | src/app/api/meta/grades/route.js:55 | `groupBy` loses no row: the counts of groups whose value passes a test add up to the rows whose value passes it |
| Facets.MapGet | src/app/api/meta/filters/route.js:21 | `map.get(k)` finds an entry exactly when the key is present, and the entry has that key |
| Facets.MapSet | src/app/api/meta/filters/route.js:23-26 | `map.set` adds the key to the key set, and the new entry is present |
| Facets.StepSkip | src/app/api/meta/filters/route.js:17-18 | a row whose title-cased name is empty changes nothing |
| Facets.StepKept | src/app/api/meta/filters/route.js:20-26 | a kept row keeps the merge invariant: keys distinct, names from rows, each count the total of its key, every kept row covered |
| Facets.Merge | src/app/api/meta/filters/route.js:13-27 | the merge loop ends with distinct keys, each name the name of a kept row, each count the sum of the counts of the kept rows with its key, and every kept row covered |
| Facets.MergeAbsent | src/app/api/meta/filters/route.js:13-27 | a key with no entry after the loop has no kept row |
| Facets.SumCountsSort | src/app/api/meta/filters/route.js:29 | sorting the entries keeps the total count |
| Facets.ByNameTotalPreorder | src/app/api/meta/filters/route.js:29 | the comparator by name is a total preorder |
| Facets.SortKeepsMerge | src/app/api/meta/filters/route.js:29 | sorting the merged entries keeps every fact the merge loop established |
| Facets.TitledNames | src/app/api/meta/subjects/route.js:17 | names drawn from title-cased rows are `titleCase` fixpoints |
| Facets.ByNameAscending | src/app/api/meta/subjects/route.js:24 | a list sorted by the name comparator has ascending names |
| Facets.MergedCountsRows | src/app/api/meta/subjects/route.js:13-22 | each merged count is the number of table rows whose value maps to its key, and the total is every counted row |
| Grades.Canonical | src/app/api/meta/grades/route.js:30-50 | the alias tables give a canonical grade exactly for a known alias |
| Grades.CanonicalInOrder | src/app/api/meta/grades/route.js:30-50 | every canonical grade from an alias is in `ORDER` |
| Grades.NormalizeGradeEmpty | src/app/api/meta/grades/route.js:28-29 | `normalizeGrade` is "" exactly for a null, empty or whitespace value |
| Grades.NormalizeGradeCaseless | src/app/api/meta/grades/route.js:28 | values that agree once trimmed and lower-cased normalise alike ("1st grade", "FIRST GRADE") |
| Grades.NormalizeGradeAlias | src/app/api/meta/grades/route.js:30-50 | every alias hit yields a member of `ORDER` |
| Grades.NormalizeGradeFallback | src/app/api/meta/grades/route.js:51 | any other non-blank value falls back to its `titleCase` |
| Grades.Rank | src/app/api/meta/grades/route.js:66-67 | `ORDER.indexOf` finds a grade exactly when it is in `ORDER`, at its position |
| Grades.GradeLeTotalPreorder | src/app/api/meta/grades/route.js:65-72 | the grade comparator is a total preorder |
| Grades.GradeOrdered | src/app/api/meta/grades/route.js:65-72 | under the comparator, known grades follow `ORDER` and precede every unknown grade, and unknown grades are in name order |
| Grades.List | src/app/api/meta/grades/route.js:55-72 | the list merges the grade groups by canonical name with distinct names; each count is the rows normalising to it; blanks are dropped; the total is every graded row; the order is `ORDER`, then unknown grades by name |
| Grades.Get | src/app/api/meta/grades/route.js:54-75 | with no error handler, a failing table read ends in status 500 and no list; a reachable table is answered with status 200 and the merged, conserved list in `ORDER` order |
| Filters.BuildList | src/app/api/meta/filters/route.js:11-30 | `buildList`: title-cased non-empty names, distinct ignoring case, counts summed per name, ascending by name |
| Filters.Get | src/app/api/meta/filters/route.js:32-53 | status 200 always; two empty lists when the database fails; otherwise both facets as `buildList` promises, counted against the table |
| Subjects.List | src/app/api/meta/subjects/route.js:13-24 | subjects title-cased, blank dropped, distinct ignoring case, each count the rows with that subject, total conserved, ascending by name |
| Subjects.Get | src/app/api/meta/subjects/route.js:12-26 | with no error handler, a failing table read ends in status 500 and no list; a reachable table is answered with status 200 and the merged, title-cased, conserved list in name order |
| QueryParams.GetAll | src/app/api/meta/topics/route.js:18 | `getAll` returns no more values than there are pairs |
| QueryParams.GetFirst | src/app/api/meta/topics/route.js:19 | `get` is present exactly when `getAll` is non-empty, and is its first value |
| QueryParams.SplitAll | src/app/api/meta/topics/route.js:21 | `flatMap(v => v.split(","))` gives comma-free parts |
| QueryParams.ReadList | src/app/api/meta/topics/route.js:17-27 | every `readList` item is non-empty, trimmed and comma-free |
| QueryParams.ReadListAbsent | src/app/api/meta/topics/route.js:26 | an absent key reads as [] |
| QueryParams.ReadListFromRepeated | src/app/api/meta/topics/route.js:20-22 | the repeated values take precedence: the list is their items in occurrence order |
| QueryParams.ReadListOfRepeated | src/app/api/meta/topics/route.js:21 | clean items sent as repeated keys read back unchanged |
| QueryParams.ReadListOfJoined | src/app/api/meta/topics/route.js:20-24 | clean items sent as one comma-joined value read back unchanged |
| QueryParams.Limit | src/app/api/meta/topics/route.js:34-35 | `limit` is 500 when absent, empty or not finite; a finite number up to 1000 is kept and a larger one becomes 1000 |
| QueryParams.SliceTo | src/app/api/meta/topics/route.js:56 | `slice(0, limit)` is a prefix: `limit` items at most for a non-negative limit, counted from the back for a negative one |
| Listing.PushIn | src/app/api/meta/topics/route.js:41-42 | pushing the `in` condition of a non-empty list adds, for every row, list membership ignoring case; an empty list adds nothing |
| Listing.PushText | src/app/api/meta/topics/route.js:43 | pushing the text condition of a non-empty `q` adds containment ignoring case; an empty `q` adds nothing |
| Listing.CondsMeans | src/app/api/meta/topics/route.js:40-43 | the built `where.AND` selects a row exactly when it is listed: the column neither null nor empty, each non-empty list matched, `q` contained |
| Listing.SelectListedCount | src/app/api/meta/topics/route.js:40-50 | grouping the rows the `where` selects counts exactly the listed rows with each value |
| Listing.ValueLeTotalPreorder | src/app/api/meta/topics/route.js:49 | `orderBy: { topic: "asc" }` is a total preorder on groups |
| Listing.Filter | src/app/api/meta/topics/route.js:52-54 | `filter` keeps only elements of the input, never more of them |
| Listing.FilterMapAligned | src/app/api/meta/topics/route.js:52-54 | mapping the kept elements lines each image up with its kept element |
| Listing.FilterSorted | src/app/api/meta/topics/route.js:49-54 | filtering an ordered list keeps it ordered |
| Listing.ShapeIsFilterMap | src/app/api/meta/topics/route.js:52-54 | the shaped list is the named groups, each shaped, in order |
| Listing.AnswerInValueOrder | src/app/api/meta/topics/route.js:49-56 | the answer's entry `i` is the shape of the `i`-th named group in value order, so `slice(0, limit)` keeps the smallest values; for a limit of 0 or more the length is exactly the limit or the number of named groups, whichever is smaller |
| Listing.Shape | src/app/api/meta/topics/route.js:52-54 | the shaped list is no longer than the groups |
| Listing.ShapeMembers | src/app/api/meta/topics/route.js:52-54 | an entry is in the list exactly when it is a group's title-cased shape with a non-empty name |
| Listing.ShapeTitled | src/app/api/meta/topics/route.js:52-54 | the names of the list are title-cased and never blank |
| Listing.GroupMember | src/app/api/meta/topics/route.js:45-48 | a group counts exactly the rows holding its value, at least one |
| Listing.AnswerShaped | src/app/api/meta/topics/route.js:52-56 | each answered entry is the non-blank title-cased shape of one group |
| Listing.AnswerEntry | src/app/api/meta/topics/route.js:45-54 | each answered entry counts listed rows whose value title-cases to its name |
| Listing.AnswerCovers | src/app/api/meta/topics/route.js:45-56 | when the limit is at least the number of named groups, every listed row with a non-blank title has an entry of that name |
| Listing.AnswerAnswered | src/app/api/meta/topics/route.js:45-56 | the answer keeps every promise of the topic list: length cap, title-cased non-blank names, counts of listed rows, and coverage of every listed value whenever the limit did not cut the list |
| Listing.CondsAnswered | src/app/api/meta/topics/route.js:40-56 | the answer to the conditions the route builds keeps those promises for the same lists, text and limit |
| Topics.Where | src/app/api/meta/topics/route.js:40-43 | the built `where.AND` selects a row exactly when its topic is non-empty, its subject and grade are in the given lists ignoring case, and its topic contains `q` |
| Topics.List | src/app/api/meta/topics/route.js:31-56 | the list is exactly the named topic groups of the selected rows, in value order and cut at the query's capped `limit` (order and length by `Listing.AnswerInValueOrder`), and it answers the query's subject and grade lists and its trimmed lower-cased `q` |
| Topics.ListForAnswers | src/app/api/meta/topics/route.js:31-56 | that list keeps every promise of `Listing.Answered` for the query |
| Topics.Get | src/app/api/meta/topics/route.js:29-61 | status 500 with "Failed to load topics" when the database fails; otherwise 200 and the list the query asks for |
| Subtopics.Where | src/app/api/meta/subtopics/route.js:41-45 | the built `where.AND` selects a row exactly when its sub-topic is non-empty, it is in the subject, grade and topic lists ignoring case, and its sub-topic contains `q` |
| Subtopics.List | src/app/api/meta/subtopics/route.js:31-58 | the list is exactly the named sub-topic groups of the selected rows, in value order and cut at the query's capped `limit` (order and length by `Listing.AnswerInValueOrder`), and it answers the query's three lists and its trimmed lower-cased `q` |
| Subtopics.ListForAnswers | src/app/api/meta/subtopics/route.js:31-58 | that list keeps every promise of `Listing.Answered` for the query |
| Subtopics.Get | src/app/api/meta/subtopics/route.js:29-63 | status 500 with "Failed to load sub-topics" when the database fails; otherwise 200 and the list the query asks for |
| Markup.QuotedValue | src/app/api/presentations/search/route.js:8 | the captured `([^"']+)` is non-empty and holds no quote |
| Markup.SkipSpaces | src/components/PresentationCard.jsx:13 | `\s*` stops at the first non-space |
| Markup.FirstSrc | src/app/api/presentations/search/route.js:8 | `match(/src=["']…["']/i)` finds nothing exactly when no attribute matches, otherwise the value of the leftmost match |
| Markup.LastTagAt | src/components/PresentationCard.jsx:55 | the greedy `[^>]*` takes the last `src` attribute that matches before the tag's first `>` |
| Markup.FirstTagSrc | src/components/PresentationCard.jsx:55 | the `<img …src=…>` search finds nothing exactly when no tag matches, otherwise the value captured by the leftmost tag |
| Markup.FirstSrcAt | src/app/api/presentations/search/route.js:8 | with no attribute before position `p`, the search returns the attribute at `p` |
| Search.ExtractThumbSrc | src/app/api/presentations/search/route.js:3-12 | null for a missing or blank thumbnail; a thumbnail not starting with `<img` is trimmed; an address found in a tag is non-empty |
| Search.ThumbOfImg | src/app/api/presentations/search/route.js:7-10 | an `<img` thumbnail gives the leftmost quoted `src=` address of the trimmed tag (`Markup.FirstSrc`), or null when there is none |
| Search.ThumbOfImgTag | src/app/api/presentations/search/route.js:7-9 | `<img src="u"…` yields `u` |
| Search.TextMatchMeans | src/app/api/presentations/search/route.js:22-33 | the `OR` holds exactly when some text column contains `q` ignoring case |
| Search.TextCondMeans | src/app/api/presentations/search/route.js:22-33 | the first `AND` entry holds exactly when `q` is empty or some text column contains it ignoring case |
| Search.FacetCondMeans | src/app/api/presentations/search/route.js:34-37 | a facet entry holds exactly when its list is empty or holds the row's value |
| Search.WhereMeans | src/app/api/presentations/search/route.js:20-39 | the `where` holds exactly for the matching rows: the text test for a non-empty `q`, and membership for each non-empty list |
| Search.RowLeTotalPreorder | src/app/api/presentations/search/route.js:45 | the rating, reviews and id order is a total preorder |
| Search.RowLeAntisymmetric | src/app/api/presentations/search/route.js:45 | the id tiebreak leaves no ties between different ids |
| Search.Ordered | src/app/api/presentations/search/route.js:41-45 | the ordered matches are exactly the matching rows, as many as `count` gives |
| Search.OrderedSorted | src/app/api/presentations/search/route.js:45 | the results follow the `orderBy` |
| Search.OrderedDistinct | src/app/api/presentations/search/route.js:45 | on a table with unique ids no row appears twice |
| Search.Window | src/app/api/presentations/search/route.js:46-47 | `skip` then `take` gives the rows from `skip` on, at most `take` of them |
| Search.PagesPrefix | src/app/api/presentations/search/route.js:46-47 | reading pages 1 to `p` in turn gives the first `p * n` results, with nothing skipped or repeated |
| Search.PagesDisjoint | src/app/api/presentations/search/route.js:46-47 | two different pages share no row |
| Search.Titled | src/app/api/presentations/search/route.js:81 | the subject and grade aggregates keep one entry per group |
| Search.TitledEntry | src/app/api/presentations/search/route.js:81 | an aggregate entry is the title-cased value with the group's count |
| Search.RawNamed | src/app/api/presentations/search/route.js:87-88 | the topic filter never adds entries |
| Search.TitledMembers | src/app/api/presentations/search/route.js:81 | an entry is in the title-cased aggregate exactly when it is some group's entry |
| Search.RawMembers | src/app/api/presentations/search/route.js:87-88 | an entry is in the raw aggregate exactly when it is a non-blank group's raw value and count |
| Search.RawNamedDistinct | src/app/api/presentations/search/route.js:87-88 | distinct group values give distinct raw names |
| Search.TitledAggFacts | src/app/api/presentations/search/route.js:80-85 | subject and grade aggregates: ascending, title-case fixpoints, one entry per group, counts adding to the whole table |
| Search.RawAggFacts | src/app/api/presentations/search/route.js:86-93 | topic and sub-topic aggregates: ascending distinct raw names, one entry per non-blank value with its row count, counts adding to the non-blank rows |
| Search.RawAggSound | src/app/api/presentations/search/route.js:86-93 | each raw aggregate entry names a value some row holds, with that value's row count |
| Search.PageItems | src/app/api/presentations/search/route.js:43-57 | the page holds exactly the smaller of the absolute `take` and the rows left after `skip` items, item `i` shaped with `extractThumbSrc` from the `i`-th row of the window |
| Search.Post | src/app/api/presentations/search/route.js:14-98 | the database refuses a negative `skip` and nothing else; otherwise `total` is the number of matches, whatever the page, and there are at most as many items as the absolute `pageSize` |
| Search.Serve | src/app/api/presentations/search/route.js:14-98 | with no error handler, status 500 and no answer exactly when the table cannot be read or the database refuses the query; otherwise status 200 and the handler's answer |
| Search.PostItems | src/app/api/presentations/search/route.js:43-57 | the items of an answer are exactly `PageItems` of the ordered matches at `skip` and `take` |
| Search.PageRows | src/app/api/presentations/search/route.js:46-47 | the window holds the smaller of the absolute `take` and the rows left after `skip` rows: from `skip` on for a `take` of zero or more, ending `skip` rows before the end for a negative one |
| Search.TailWindow | src/app/api/presentations/search/route.js:46-47 | a negative `take` of `-n` gives the `n` rows that end `skip` rows before the end, in result order |
| Search.TailWindowFromTheEnd | src/app/api/presentations/search/route.js:46-47 | that window is the database's reading of a negative `take`: reverse the order, skip and take, reverse the page back |
| Search.PageRowAt | src/app/api/presentations/search/route.js:46-47 | each position of a page shows one row of the ordered matches |
| Search.PostAggregates | src/app/api/presentations/search/route.js:59-94 | the aggregates count the whole table, not the matches: subject and grade counts add up to every row, topic and sub-topic counts to the rows with a non-blank value; subject names are title-cased, topic names never blank |
| Search.Get | src/app/api/presentations/search/route.js:100-102 | `GET` answers 405 |
| Suggest.Snippet | src/app/api/search/suggest/route.js:45-47 | the snippet is the first 120 characters of the content, or "" with no content |
| Suggest.ToSuggestion | src/app/api/search/suggest/route.js:37-48 | `title` is `name`, `subtopic` is `sub_topic`, the snippet is as above, and the other fields are copied |
| Suggest.Query | src/app/api/search/suggest/route.js:7 | the looked-up query is trimmed |
| Suggest.Items | src/app/api/search/suggest/route.js:5-50 | a query shorter than two characters gives no items, and there are never more than 8 |
| Suggest.Serve | src/app/api/search/suggest/route.js:5-51 | a query shorter than two characters is answered with status 200 and no items before the table is read; otherwise status 500 and no items exactly when the table cannot be read, and status 200 with `Items` when it can |
| Suggest.ItemsFor | src/app/api/search/suggest/route.js:9-35 | the same bounds for a given trimmed query |
| Suggest.ItemsMatch | src/app/api/search/suggest/route.js:13-35 | there are as many suggestions as matching rows, at most 8, and each comes from a table row with a text column containing the query ignoring case |
| Suggest.ItemsIgnoreBlanks | src/app/api/search/suggest/route.js:7 | blanks around the query change no suggestion |
| Card.ExtractImgSrc | src/components/PresentationCard.jsx:6-18 | "" for a non-string or blank value; absolute and `data:image/` addresses trimmed; the `src` of an `<img` string; otherwise the trimmed string |
| Card.NotImgAndAbsolute | src/components/PresentationCard.jsx:10-12 | a string opening with `<img` is neither absolute nor a data address |
| Card.ImgSrcOfTag | src/components/PresentationCard.jsx:12-15 | `<img src="u"…` yields `u` |
| Card.ImgSrcOfAbsolute | src/components/PresentationCard.jsx:10 | an absolute address is its own thumbnail |
| Card.Rooted | src/components/PresentationCard.jsx:27 | the path starts with `/` and is the address, or the address with `/` prepended |
| Card.Absolutize | src/components/PresentationCard.jsx:20-32 | "" stays ""; absolute and data addresses, and every address without an origin, stay as they are; otherwise the resolved rooted path, or the address when resolution throws |
| Card.AbsolutizeEmpty | src/components/PresentationCard.jsx:22 | only "" becomes "" |
| Card.AbsolutizeIdempotent | src/components/PresentationCard.jsx:23 | absolutizing twice is absolutizing once |
| Card.ContentImgSrc | src/components/PresentationCard.jsx:54-57 | the content gives an address exactly when some `<img>` tag in it carries a `src` |
| Card.FirstNonEmpty | src/components/PresentationCard.jsx:52-60 | "" exactly when all candidates are empty, otherwise the first non-empty one |
| Card.ThumbUrl | src/components/PresentationCard.jsx:51-63 | the fallback chain yields the first non-empty of thumbnail, content image, `thumbnailUrl` and `thumbnail_path`, made absolute |
| Card.ThumbnailFirst | src/components/PresentationCard.jsx:52 | a usable thumbnail wins over every later source |
| Card.NoThumbUrl | src/components/PresentationCard.jsx:52-62 | there is no address exactly when no source gives one |
| Card.CardState.constructor | src/components/PresentationCard.jsx:35 | `imgOk` starts true; the image address is the fallback chain's, or "" for a card without data |
| Card.CardState.OnImgError | src/components/PresentationCard.jsx:80 | after a load error the image is hidden |
| Hero.EscapeRe | src/components/HeroSection.jsx:155 | `escapeRe` never shortens and leaves text without special characters unchanged |
| Hero.UnescapeEscape | src/components/HeroSection.jsx:155 | the escaped pattern reads back as the literal text |
| Hero.ScoreByTopic | src/components/HeroSection.jsx:185-210 | the loop's score equals the specification: phrase points, token points, and 40 when every token is contained |
| Hero.ScoreBounds | src/components/HeroSection.jsx:185-209 | 0 for an empty topic or no tokens, at least 20 when some token is contained, at most 160 plus 50 per token |
| Hero.ScoreAllTokens | src/components/HeroSection.jsx:202-208 | a topic containing every token earns the bonus and 20 per token |
| Hero.ScorePhrasePrefix | src/components/HeroSection.jsx:198 | a topic starting with the whole phrase scores at least 190 plus 20 per token |
| Hero.ScoreIgnoresCase | src/components/HeroSection.jsx:186-188 | lower-casing the topic or the query changes no score |
| Hero.Or | src/components/HeroSection.jsx:278-282 | `a \|\| b` is `a` or `b`, and never an empty `a` |
| Hero.Nullish | src/components/HeroSection.jsx:284-288 | `a ?? b` keeps a present `a`, even "" |
| Hero.Normalize | src/components/HeroSection.jsx:277-289 | a shown topic is never empty, and is the suggestion's topic when it has one; the slug and a present snippet are kept |
| Hero.ByScoreTotalPreorder | src/components/HeroSection.jsx:292 | the score comparator is a total preorder |
| Hero.Top | src/components/HeroSection.jsx:291-293 | four suggestions are shown, or all of them when fewer |
| Hero.TopBest | src/components/HeroSection.jsx:291-293 | the shown suggestions are ranked by score, come from the fetched ones, and none left out scores higher |
| Hero.SuggestBox.constructor | src/components/HeroSection.jsx:60-75 | the box starts empty, closed, idle, with an empty cache |
| Hero.SuggestBox.OnType | src/components/HeroSection.jsx:213-235 | the box opens on the new text; blank text clears the list; a cached query shows its list at once; a miss shows the loader |
| Hero.SuggestBox.QueryChanged | src/components/HeroSection.jsx:238-262 | a blank query closes the box; the last fetched query shows its cache; any other schedules a fetch |
| Hero.SuggestBox.FetchCompleted | src/components/HeroSection.jsx:263-308 | an answer is normalised, ranked, cut to four, cached and shown; a failure empties the list; an abort changes only the loader |
| Hero.SuggestBox.SearchTarget | src/components/HeroSection.jsx:326-330 | `goSearch` does nothing for a blank query, otherwise it goes to `/see-all-results?q=` followed by the encoded trimmed query |
| Hero.SuggestBox.SeeAllTarget | src/components/HeroSection.jsx:700-703 | the "See all results" button goes to `/see-all-results?q=` followed by the encoded query as typed, untrimmed and even when blank |
| Hero.SeeAllVersusSearch | src/components/HeroSection.jsx:326-330 | the button and `goSearch` reach the same page exactly when the query is not blank and its trimmed and untrimmed encodings agree |
| Hero.FetchThenRetype | src/components/HeroSection.jsx:296-298 | after typing a query and an answered fetch for it, the cache entry for the query is the list on show and `lastFetchedQ` is the query |
| Hero.SnippetShort | src/components/HeroSection.jsx:679 | up to 140 characters unchanged; a longer snippet becomes its first 140 characters followed by an ellipsis |
| FilterPopup.Normalize | src/components/FilterPopup.jsx:6 | `normalize` gives a trimmed string |
| FilterPopup.Hydrate | src/components/FilterPopup.jsx:42-57 | ids 1 to n in order, names as given, a missing count 0, checked exactly when the trimmed name is among the trimmed defaults |
| FilterPopup.SelectDefault | src/components/FilterPopup.jsx:66-73 | the single value when not empty, else the first of the list, else "" |
| FilterPopup.Toggle | src/components/FilterPopup.jsx:171 | only the line with the id flips `checked` |
| FilterPopup.ToggleTwice | src/components/FilterPopup.jsx:169-175 | toggling twice restores the list |
| FilterPopup.CheckedNames | src/components/FilterPopup.jsx:178-179 | the payload's names are exactly the checked lines' names |
| FilterPopup.CheckedAt | src/components/FilterPopup.jsx:178-179 | the checked lines' positions, every one of them, in increasing order |
| FilterPopup.CheckedNamesInOrder | src/components/FilterPopup.jsx:178-179 | the `k`-th name of the payload is the name of the `k`-th checked line: `filter` keeps the list order |
| FilterPopup.ReopenKeepsChecks | src/components/FilterPopup.jsx:28-57 | reopening with the applied names as defaults checks the same lines |
| FilterPopup.ReopenKeepsCheck | src/components/FilterPopup.jsx:47 | one line is checked after reopening exactly when it was checked before |
| FilterPopup.AsList | src/components/FilterPopup.jsx:185-186 | `[selected]` when a topic is selected, else [] |
| FilterPopup.ReopenKeepsSelection | src/components/FilterPopup.jsx:66-68 | reopening with the applied payload restores the selected topic |
| FilterPopup.FallbackSubTopics | src/components/FilterPopup.jsx:115-117 | every fallback offers two sub-topics |
| FilterPopup.LabelsAsWritten | src/components/FilterPopup.jsx:89 | as written, one label per fetched row |
| FilterPopup.LabelsAsWrittenLoseNames | src/components/FilterPopup.jsx:89 | as written, two different topics get the same label and no name is offered |
| FilterPopup.Labels | src/components/FilterPopup.jsx:89 | corrected, each label is its row's name |
| FilterPopup.LabelsKeepNames | src/components/FilterPopup.jsx:89 | corrected, different names keep different labels and every name is offered |
| FilterPopup.SubTopicsQueryAsWrittenIgnored | src/components/FilterPopup.jsx:109 | as written, `?topic=` reads as no topic filter in the sub-topics route |
| FilterPopup.SubTopicsQueryFilters | src/components/FilterPopup.jsx:109 | corrected, `?topics=` filters on the selected topic |
| FilterPopup.Popup.constructor | src/components/FilterPopup.jsx:10-20 | lists and selections start empty |
| FilterPopup.Popup.Open | src/components/FilterPopup.jsx:23-77 | the selects take their defaults; the check lists are hydrated from the facets, or kept when the fetch fails |
| FilterPopup.Popup.TopicsLoaded | src/components/FilterPopup.jsx:80-97 | topics are the corrected labels of the rows (see Findings), unchanged on a non-array answer, the fallback on an error |
| FilterPopup.Popup.SubTopicsLoaded | src/components/FilterPopup.jsx:99-123 | no topic gives no sub-topics; otherwise the corrected labels of the fetched rows (see Findings), or the topic's fallback on an error |
| FilterPopup.Popup.ChooseTopic | src/components/FilterPopup.jsx:307-309 | choosing a topic clears the selected sub-topic |
| FilterPopup.Popup.ChooseSubTopic | src/components/FilterPopup.jsx:350-351 | choosing a sub-topic changes only it |
| FilterPopup.Popup.ToggleChecked | src/components/FilterPopup.jsx:169-175 | "subject" toggles in the subjects, any other type in the grades, and nothing else changes |
| FilterPopup.Popup.Apply | src/components/FilterPopup.jsx:177-190 | the payload lists the checked subjects and grades in list order (the `k`-th name is the `k`-th checked line's), each select as a list of at most one, and the legacy singles |
| ExploreClient.DeleteParam | src/components/ExploreClient.jsx:58 | `delete` removes every value of the key and keeps the others |
| ExploreClient.ReplaceFirst | src/components/ExploreClient.jsx:59 | `set` on a present key leaves it one value and keeps the others |
| ExploreClient.SetParam | src/components/ExploreClient.jsx:58-59 | after `set` the key has exactly the one value, other keys are kept, and an absent key is appended |
| ExploreClient.SyncedUrl | src/components/ExploreClient.jsx:57-59 | `q` is present exactly when the query is not empty, and then equals it; `page` is the page's text; other keys are kept |
| ExploreClient.SearchBody | src/components/ExploreClient.jsx:46-51 | the body carries the query, the page, page size 12 and the four filter lists |
| ExploreClient.FirstRequestAgrees | src/components/ExploreClient.jsx:46-51 | page 1 without filters is the request the explorer page makes for a URL with only `q` |
| ExploreClient.AnswerMatches | src/components/ExploreClient.jsx:53-54 | every item of the route's answer shows a table row that matches the request, so what `onApply` shows matches the applied filters |
| ExploreClient.PopupDefaults | src/components/ExploreClient.jsx:138 | the popup's defaults are always `lastFilters`, whose keys make it truthy |
| ExploreClient.UrlPage | src/components/ExploreClient.jsx:74 | a missing or empty `page` reads as 1 |
| ExploreClient.Explorer.constructor | src/components/ExploreClient.jsx:10-23 | the page's answer and query, page 1, popup closed, no filters |
| ExploreClient.Explorer.RunSearch | src/components/ExploreClient.jsx:38-61 | posts the explicit query, page and filters or the current ones, stores the answer and syncs the URL |
| ExploreClient.Explorer.OnType | src/components/ExploreClient.jsx:95 | typing changes only the query |
| ExploreClient.Explorer.OnEnterKey | src/components/ExploreClient.jsx:96-97 | Enter goes to page 1 and searches the box's text |
| ExploreClient.Explorer.SearchClickedAsWritten | src/components/ExploreClient.jsx:103 | as written, the button searches page 1 and the paginator matches the URL only when it was already on page 1 |
| ExploreClient.Explorer.SearchClicked | src/components/ExploreClient.jsx:103 | corrected, the button goes to page 1 and the paginator matches the URL |
| ExploreClient.Explorer.OnPageChange | src/components/ExploreClient.jsx:128-131 | the paginator goes to page `n` and searches it |
| ExploreClient.Explorer.OpenFilters | src/components/ExploreClient.jsx:109 | the Filters button opens the popup and nothing else |
| ExploreClient.Explorer.CloseFilters | src/components/ExploreClient.jsx:137 | the popup closes and nothing else |
| ExploreClient.Explorer.OnApply | src/components/ExploreClient.jsx:63-69 | the filters are stored, the popup closes, and page 1 is searched with the current query and them |
| ExploreClient.Explorer.EnterFlow | src/components/ExploreClient.jsx:72-87 | a fetch happens exactly when the URL query is non-empty and differs, or the URL page differs; then the state takes them |
| ExplorePage.Arr | src/app/explore-library/page.js:15-20 | falsy is []; an array passes through; a string gives clean items |
| ExplorePage.ArrOfJoin | src/app/explore-library/page.js:19 | `arr(xs.join(","))` is `xs` for clean items |
| ExplorePage.ArrAsReadList | src/app/explore-library/page.js:19 | one value reads as the meta routes' `readList` reads it |
| ExplorePage.PageNumber | src/app/explore-library/page.js:29 | a missing or empty page is 1; a number is itself; NaN arrives as 0 |
| ExplorePage.Body | src/app/explore-library/page.js:22-31 | `q` defaults to "", each list is read by `arr`, page size 12 |
| ExplorePage.BodyFirstPage | src/app/explore-library/page.js:22-31 | without a page the first render's request skips nothing and is answered with the first twelve matches, or all of them when fewer |
| ImportCsv.OrNull | scripts/import-csv.js:43 | `x \|\| null` is null exactly for a missing or empty cell, otherwise the cell |
| ImportCsv.TrimmedOrNull | scripts/import-csv.js:29-30 | topic and sub-topic are trimmed, and blank becomes null |
| ImportCsv.NumberOrNull | scripts/import-csv.js:47-48 | rating and reviews are null for an empty cell, otherwise the parsed number |
| ImportCsv.SlugSuffix | scripts/import-csv.js:32 | every slug ends in `-id` |
| ImportCsv.SlugsDiffer | scripts/import-csv.js:32 | two lines with the same name and different ids get different slugs |
| ImportCsv.CreateIsUpdateWithId | scripts/import-csv.js:34-76 | `create` is `update` with the id of `where` added |
| ImportCsv.UpdateFacts | scripts/import-csv.js:26-55 | the stored record: trimmed name; subject and grade `titleCase` fixpoints; topic null exactly when blank; view link "" not null; slug ending in `-id` |
| ImportCsv.Upserts | scripts/import-csv.js:24 | one upsert per line |
| ImportCsv.UpsertsStorable | scripts/import-csv.js:25-34 | lines with finite ids give upserts the database accepts |
| ImportCsv.UpsertedStores | scripts/import-csv.js:34-77 | an accepted upsert stores its `update` columns under its id, whether or not the id existed |
| ImportCsv.ImportAllOverrides | scripts/import-csv.js:24-78 | the import only adds or replaces the file's ids |
| ImportCsv.ImportTwice | scripts/import-csv.js:24-78 | importing the same file twice leaves the table as importing it once |
| ImportCsv.ImportStep | scripts/import-csv.js:24-34 | one more line is one more upsert |
| ImportCsv.Import | scripts/import-csv.js:15-82 | the loop's table is the lines' upserts in order; it fails exactly at the first line whose id is not a finite number, and completes exactly when every id is finite |

## Left out

- Rendering, styling, hover timers, body scroll locking and route prefetching: these are pure UI and compute nothing.
- Network, `AbortController`, the debounce timer and `sessionStorage`: each answer arrives as a parameter of the method that handles it (`Store`, `Outcome`, `Load`, `Fetched`), the explorer's search route is the parameter `post` (on the server it answers as `Search.Post`), and timing and cancellation are reduced to the `Aborted` outcome.
- `highlightTopic` and the DOMPurify `toPlain` (`HeroSection.jsx:149-182`): they rely on the regular-expression engine and a foreign library. `Hero.SnippetShort` takes the already plain text.
- `localeCompare` is modelled as ordinal code-point order (`Text.StrLe`), because locale collation is outside Dafny.
- Listing.ValueLe: the database's `orderBy: "asc"` on a text column follows the column's collation, which may be locale-aware; the model orders by code point, so which names a cutting `limit` keeps can differ under another collation.
- FilterPopup.Popup.TopicsLoaded: stores the corrected labels (`FilterPopup.Labels`), not the `arr.map(String)` of the source, which is `FilterPopup.LabelsAsWritten` (see Findings).
- FilterPopup.Popup.SubTopicsLoaded: stores the corrected labels (`FilterPopup.Labels`), not the `arr.map(String)` of the source, which is `FilterPopup.LabelsAsWritten` (see Findings).
- Text is ASCII: `\s`, `\w`, `toLowerCase` and `toUpperCase` act on ASCII characters only, and there is no Unicode case mapping. Lengths count characters, not UTF-16 code units.
- `Number` parsing is an opaque parameter (`number`):
  - it gives a whole number or not-a-number;
  - fractional pages, ratings and ids are not represented;
  - any non-finite id prints as `NaN` (`ImportCsv.NumText`), including `Infinity`.
- `new URL(path, base).toString()`, `encodeURIComponent` and `slugify` are opaque parameters. So are the CSV parser and reading the file.
- The import script's usage message, `process.exit`, the final count message and `$disconnect` are I/O.
- Database null placement in the `rating`/`reviews` descending order is fixed as nulls first, PostgreSQL's default.
- `findMany` without `orderBy` (the suggest route) returns rows in table order.
- Exceptions from `req.json()` or `res.json()` on a malformed body are not modelled.
- JSON values of unexpected types (a non-string name, a non-numeric count) are not modelled, and neither are `String(...)`/`Number(...)` on them.
- Concurrent searches in the explorer racing each other are not modelled. Each `runSearch` completes before the next event.
- `urlDefaults` in `ExploreClient` is always four empty lists and is never used (see `ExploreClient.PopupDefaults`). It has no member of its own.
- Subjects.Get: a failing table read is reduced to its status 500; the body of the framework's error response is not modelled.
- Grades.Get: a failing table read is reduced to its status 500; the body of the framework's error response is not modelled.
- Search.Serve: a failing table read or a refused query is reduced to its status 500; the body of the framework's error response is not modelled.
- Suggest.Serve: a failing table read is reduced to its status 500; the body of the framework's error response is not modelled.
- Hero.Normalize: the numeric `id` the suggest route sends is held as text, so a numeric id 0, falsy in the source, is kept rather than falling through to the slug; the id only keys the rendered list.
- Grades.NormalizeGrade: the alias object is looked up as its own entries only. A raw grade such as "constructor" or "toString" also hits a property inherited from `Object.prototype` in the source, which returns a function rather than a title-cased string.
- ExplorePage.PageNumber: repeated `q` or `page` keys (arrays in `searchParams`) are read as a single value. Only the four lists take the array form.
- ExploreClient.UrlPage: a page that parses to NaN is not represented, because `number` returns an integer. In the source `NaN !== page` always holds, so the entry flow would always fetch.
- ImportCsv.Import: the only refusal modelled is an id that is not a finite number. Refusals from constraints of the database schema, which is not part of this model, are left out.
- Card.CardState.constructor: `useMemo` recomputing `thumbUrl` when `p` changes is not modelled. A card's `p` is fixed.

## Findings

| source | as written | input that shows it | evidently intended | confidence | as-written member | corrected member |
|---|---|---|---|---|---|---|
| src/components/FilterPopup.jsx:89 | the topic labels are `arr.map(String)`, but the topics route answers `{ name, count }` objects | the answer `[{name:"Algebra",count:3},{name:"Geometry",count:2}]` labels both topics "[object Object]" | the label of each row is its `name` | high; not executed | FilterPopup.LabelsAsWrittenLoseNames | FilterPopup.LabelsKeepNames |
| src/components/FilterPopup.jsx:109 | sub-topics are fetched with `?topic=…`, but the sub-topics route reads the key `topics` (src/app/api/meta/subtopics/route.js:33) | selecting "Algebra" sends `?topic=Algebra`, which reads as no topic list, so every sub-topic is offered | `?topics=…` | high; not executed | FilterPopup.SubTopicsQueryAsWrittenIgnored | FilterPopup.SubTopicsQueryFilters |
| src/components/ExploreClient.jsx:103 | the Search button calls `runSearch({ q, page: 1 })` without `setPage(1)` | on page 3, clicking Search shows page 1's results and writes `page=1` to the URL, while the paginator still shows page 3 | `setPage(1)` first, as the Enter key does at line 97 | medium; not executed | ExploreClient.Explorer.SearchClickedAsWritten | ExploreClient.Explorer.SearchClicked |
