/**
 * The server-rendered explorer page (`/explore-library`): its `arr` reading
 * of a query value into a list, and the body of the first search request.
 */
module ExplorePage {
  import opened Wrappers
  import opened Text
  import opened QueryParams
  import opened Catalog
  import opened Search

  /** A key of the page's `searchParams`: missing, given once (a string), or
      repeated (an array of strings). */
  datatype ParamValue = Absent | One(s: string) | Many(xs: seq<string>)

  /** `arr(x)`: a falsy value (missing, or the empty string) is the empty
      list, an array is taken as it is, and a string is split at commas into
      trimmed, non-empty items. */
  function Arr(x: ParamValue): (r: seq<string>)
    ensures x.Absent? || x == One("") ==> r == []
    ensures x.Many? ==> r == x.xs
    ensures x.One? ==> forall k :: 0 <= k < |r| ==> CleanItem(r[k])
  {
    match x
    case Absent => []
    case Many(xs) => xs
    case One(s) =>
      CsvItemsClean(s);
      if s == "" then [] else CsvItems(s)
  }

  /** Round trip: a list of well-formed items written as one comma-joined
      value reads back as the same list. */
  lemma ArrOfJoin(xs: seq<string>)
    requires forall k :: 0 <= k < |xs| ==> CleanItem(xs[k])
    ensures Arr(One(Join(xs, ','))) == xs
  {
    CsvItemsOfJoin(xs);
  }

  /** A single value reads as the meta routes' `readList` reads it. */
  lemma ArrAsReadList(key: string, s: string)
    ensures Arr(One(s)) == ReadList([(key, s)], key)
  {
    var sp: Params := [(key, s)];
    assert GetAll(sp, key) == [s] by {
      assert sp[1..] == [];
    }
    assert SplitAll([s]) == Split(s, ',') by {
      assert [s][1..] == [];
      assert Split(s, ',') + [] == Split(s, ',');
    }
    assert ReadList(sp, key) == CsvItems(s);
    if s == "" {
      assert CleanParts([""]) == [];
    }
  }

  /** The page's `searchParams` as it reads them: `q` and `page` once each,
      and the four lists. */
  datatype PageParams = PageParams(
    q: Option<string>,
    subjects: ParamValue, grades: ParamValue, topics: ParamValue, subTopics: ParamValue,
    page: Option<string>)

  /** The page size both the page and the explorer ask for. */
  const PageSize := 12

  /** `Number(sp.page || 1)`, as the route receives it: the number itself,
      or, when `Number` gives NaN (sent as `null`), the 0 the route's
      `Number(null)` reads. */
  function PageNumber(raw: Option<string>, number: string -> Num): (page: int)
    ensures raw.None? || raw == Some("") ==> page == 1
    ensures raw.Some? && raw.value != "" && number(raw.value).Finite? ==> page == number(raw.value).n
    ensures raw.Some? && raw.value != "" && number(raw.value).NotFinite? ==> page == 0
  {
    if raw.None? || raw.value == "" then 1
    else match number(raw.value)
      case Finite(n) => n
      case NotFinite => 0
  }

  /** `fetchResults`' body: `q` defaults to "", each list is read by `Arr`,
      `page` by `PageNumber`, and the page size is always 12. */
  function Body(sp: PageParams, number: string -> Num): (req: Request)
    ensures Q(req) == sp.q.GetOr("") && req.q.Some?
    ensures req.subjects == Some(Arr(sp.subjects)) && req.grades == Some(Arr(sp.grades))
    ensures req.topics == Some(Arr(sp.topics)) && req.subTopics == Some(Arr(sp.subTopics))
    ensures req.page == Some(PageNumber(sp.page, number))
    ensures PageSizeOf(req) == PageSize && req.pageSize.Some?
  {
    Request(Some(sp.q.GetOr("")), Some(Arr(sp.subjects)), Some(Arr(sp.grades)), Some(Arr(sp.topics)),
            Some(Arr(sp.subTopics)), Some(PageNumber(sp.page, number)), Some(PageSize))
  }

  /** Without a `page`, the first render asks for the first twelve matching
      rows, and the route answers with them. */
  lemma BodyFirstPage(table: seq<Presentation>, sp: PageParams, number: string -> Num)
    requires sp.page.None?
    ensures var out := Post(table, Body(sp, number));
      && out.Found? && Skip(Body(sp, number)) == 0
      && |out.items| == Min(PageSize, |Ordered(table, Body(sp, number))|)
  {
    var req := Body(sp, number);
    var out := Post(table, req);
    assert Skip(req) == 0;
    assert out.items == PageItems(Ordered(table, req), 0, PageSize);
  }
}
