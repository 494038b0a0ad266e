/**
 * The explorer's client state (`ExploreClient`): the query box, the
 * paginator's page, the popup's visibility and last applied filters, the
 * page's URL query string, and the search answer on screen. Every search
 * posts to the search route and writes `q` and `page` back into the URL. The
 * route, reached over the network, is the parameter `post`; on the server it
 * answers as `Search.Post` over the table.
 */
module ExploreClient {
  import opened Wrappers
  import opened Text
  import opened Catalog
  import opened QueryParams
  import opened Search
  import opened FilterPopup
  import ExplorePage

  // ---------------------------------------------------------------------
  // Editing a `URLSearchParams`

  /** `GetAll` of a list with one more pair at the end. */
  lemma {:induction false} GetAllSnoc(sp: Params, p: (string, string), key: string)
    ensures GetAll(sp + [p], key) == GetAll(sp, key) + (if p.0 == key then [p.1] else [])
    decreases |sp|
  {
    if sp == [] {
      assert [p][1..] == [];
    } else {
      assert (sp + [p])[1..] == sp[1..] + [p];
      GetAllSnoc(sp[1..], p, key);
    }
  }

  /** `p.delete(key)`: every pair of `key` goes, the others stay in order. */
  function DeleteParam(sp: Params, key: string): (r: Params)
    ensures GetAll(r, key) == []
    ensures forall k :: k != key ==> GetAll(r, k) == GetAll(sp, k)
  {
    if sp == [] then []
    else
      var rest := DeleteParam(sp[1..], key);
      if sp[0].0 == key then rest
      else
        assert ([sp[0]] + rest)[1..] == rest;
        [sp[0]] + rest
  }

  /** `set` when `key` is present: the first pair takes the value in place,
      the later pairs of `key` go. */
  function ReplaceFirst(sp: Params, key: string, v: string): (r: Params)
    requires GetAll(sp, key) != []
    ensures GetAll(r, key) == [v]
    ensures forall k :: k != key ==> GetAll(r, k) == GetAll(sp, k)
  {
    if sp[0].0 == key then
      var rest := DeleteParam(sp[1..], key);
      assert ([(key, v)] + rest)[1..] == rest;
      [(key, v)] + rest
    else
      var rest := ReplaceFirst(sp[1..], key, v);
      assert ([sp[0]] + rest)[1..] == rest;
      [sp[0]] + rest
  }

  /** `p.set(key, v)`: afterwards `key` has the one value `v` (replacing the
      first pair, or appended when there was none), and every other key keeps
      its values. */
  function SetParam(sp: Params, key: string, v: string): (r: Params)
    ensures GetAll(r, key) == [v]
    ensures forall k :: k != key ==> GetAll(r, k) == GetAll(sp, k)
    ensures GetAll(sp, key) == [] ==> r == sp + [(key, v)]
  {
    if GetAll(sp, key) == [] then
      forall k ensures GetAll(sp + [(key, v)], k) == GetAll(sp, k) + (if key == k then [v] else []) {
        GetAllSnoc(sp, (key, v), k);
      }
      sp + [(key, v)]
    else ReplaceFirst(sp, key, v)
  }

  /** The URL after a search for `q` on `page`: `q` is present exactly when
      it is not empty, and then holds it; `page` holds the page; every other
      parameter is kept. */
  function SyncedUrl(url: Params, q: string, page: int): (r: Params)
    ensures GetAll(r, "q") == (if q != "" then [q] else [])
    ensures GetAll(r, "page") == [IntToString(page)]
    ensures forall k :: k != "q" && k != "page" ==> GetAll(r, k) == GetAll(url, k)
  {
    var withQ := if q != "" then SetParam(url, "q", q) else DeleteParam(url, "q");
    SetParam(withQ, "page", IntToString(page))
  }

  // ---------------------------------------------------------------------
  // Requests

  /** The JSON body `runSearch` posts: `q`, `page`, page size 12 and the
      four filter lists. */
  function SearchBody(q: string, page: int, f: Filters): (req: Request)
    ensures Q(req) == q && PageOf(req) == page && PageSizeOf(req) == ExplorePage.PageSize
    ensures req.subjects == Some(f.subjects) && req.grades == Some(f.grades)
    ensures req.topics == Some(f.topics) && req.subTopics == Some(f.subTopics)
  {
    Request(Some(q), Some(f.subjects), Some(f.grades), Some(f.topics), Some(f.subTopics), Some(page),
            Some(ExplorePage.PageSize))
  }

  /** The client's request for the page's query on page 1 without filters is
      the one the page itself made for a URL holding only `q`. */
  lemma FirstRequestAgrees(q: Option<string>, number: string -> Num)
    ensures SearchBody(q.GetOr(""), 1, NoFilters) ==
      ExplorePage.Body(ExplorePage.PageParams(q, ExplorePage.Absent, ExplorePage.Absent,
                                              ExplorePage.Absent, ExplorePage.Absent, None), number)
  {
  }

  /** `it` shows a table row that matches the request. */
  ghost predicate ShowsMatch(it: Item, table: seq<Presentation>, req: Request) {
    exists r :: r in table && Matches(r, req) && it == ToItem(r)
  }

  /** Every item of an answer shows a table row that matches the request. */
  lemma AnswerMatches(table: seq<Presentation>, req: Request)
    requires Post(table, req).Found?
    ensures forall i :: 0 <= i < |Post(table, req).items| ==> ShowsMatch(Post(table, req).items[i], table, req)
  {
    var rows := Ordered(table, req);
    PostItems(table, req);
    var items := PageItems(rows, Skip(req), PageSizeOf(req));
    forall i | 0 <= i < |items| ensures ShowsMatch(items[i], table, req) {
      var j := PageRowAt(rows, Skip(req), PageSizeOf(req), i);
      assert rows[j] in rows;
    }
  }

  /** The options of `runSearch`: a missing one takes the current state. */
  datatype Opts = Opts(q: Option<string>, page: Option<int>, filters: Option<Filters>)

  /** The initial `lastFilters`, and the URL defaults: four empty lists. */
  const NoFilters := Filters([], [], [], [], None, None)

  /** `Object.keys(f).length`: the four lists, and the single topic and
      sub-topic once applied. */
  function KeyCount(f: Filters): nat {
    4 + (if f.topic.Some? then 1 else 0) + (if f.subtopic.Some? then 1 else 0)
  }

  /** The popup's defaults: `lastFilters` when it has keys, else the URL
      defaults. It always has keys, so the popup is always given the last
      applied filters. */
  function PopupDefaults(last: Filters): (d: Filters)
    ensures d == last
  {
    if KeyCount(last) > 0 then last else NoFilters
  }

  /** `Number(searchParams.get("page") || 1)`, the parse itself being the
      parameter `number`. */
  function UrlPage(url: Params, number: string -> int): (page: int)
    ensures GetFirst(url, "page").None? || GetFirst(url, "page") == Some("") ==> page == 1
  {
    match GetFirst(url, "page")
    case None => 1
    case Some(s) => if s == "" then 1 else number(s)
  }

  class Explorer {
    var data: Outcome
    var q: string
    var page: int
    var showFilters: bool
    var lastFilters: Filters
    var url: Params

    /** The first render: the page's answer, its query, page 1, the popup
        closed and no filters applied. */
    constructor (initial: Outcome, initialQuery: Option<string>, url0: Params)
      ensures data == initial && q == initialQuery.GetOr("") && page == 1
      ensures !showFilters && lastFilters == NoFilters && url == url0
    {
      data := initial;
      q := initialQuery.GetOr("");
      page := 1;
      showFilters := false;
      lastFilters := NoFilters;
      url := url0;
    }

    /** The paginator shows the page the URL names. */
    predicate InSync()
      reads this
    {
      GetAll(url, "page") == [IntToString(page)]
    }

    /** `runSearch(opts)`: post the explicit query, page and filters, or the
        current ones; show the answer; write `q` and `page` into the URL.
        The state's own query, page and filters do not change. */
    method RunSearch(opts: Opts, post: Request -> Outcome)
      modifies this
      ensures data == post(SearchBody(opts.q.GetOr(old(q)), opts.page.GetOr(old(page)),
                                             opts.filters.GetOr(old(lastFilters))))
      ensures url == SyncedUrl(old(url), opts.q.GetOr(old(q)), opts.page.GetOr(old(page)))
      ensures q == old(q) && page == old(page)
      ensures showFilters == old(showFilters) && lastFilters == old(lastFilters)
    {
      var nextQ := opts.q.GetOr(q);
      var nextPage := opts.page.GetOr(page);
      var filters := opts.filters.GetOr(lastFilters);
      data := post(SearchBody(nextQ, nextPage, filters));
      url := SyncedUrl(url, nextQ, nextPage);
    }

    /** Typing in the search box changes only the query. */
    method OnType(value: string)
      modifies this
      ensures q == value
      ensures page == old(page) && data == old(data) && url == old(url)
      ensures showFilters == old(showFilters) && lastFilters == old(lastFilters)
    {
      q := value;
    }

    /** Enter in the search box: back to page 1 and search the box's text. */
    method OnEnterKey(value: string, post: Request -> Outcome)
      modifies this
      ensures page == 1 && q == old(q) && InSync()
      ensures data == post(SearchBody(value, 1, old(lastFilters)))
      ensures url == SyncedUrl(old(url), value, 1)
      ensures showFilters == old(showFilters) && lastFilters == old(lastFilters)
    {
      page := 1;
      RunSearch(Opts(Some(value), Some(1), None), post);
    }

    /** The Search button as written: it searches page 1 and writes page 1
        into the URL, but leaves the paginator's page alone, so the two
        disagree whenever the page was not already 1. */
    method SearchClickedAsWritten(post: Request -> Outcome)
      modifies this
      ensures data == post(SearchBody(old(q), 1, old(lastFilters)))
      ensures url == SyncedUrl(old(url), old(q), 1)
      ensures page == old(page) && q == old(q)
      ensures showFilters == old(showFilters) && lastFilters == old(lastFilters)
      ensures InSync() <==> old(page) == 1
    {
      RunSearch(Opts(Some(q), Some(1), None), post);
      if InSync() {
        IntToStringInjective(page, 1);
      }
    }

    /** The Search button as evidently intended (as Enter does): back to
        page 1, then search it. */
    method SearchClicked(post: Request -> Outcome)
      modifies this
      ensures data == post(SearchBody(old(q), 1, old(lastFilters)))
      ensures url == SyncedUrl(old(url), old(q), 1)
      ensures page == 1 && q == old(q) && InSync()
      ensures showFilters == old(showFilters) && lastFilters == old(lastFilters)
    {
      page := 1;
      RunSearch(Opts(Some(q), Some(1), None), post);
    }

    /** The paginator's `onChange(n)`: go to page `n` and search it with the
        current query and filters. */
    method OnPageChange(n: int, post: Request -> Outcome)
      modifies this
      ensures page == n && q == old(q) && InSync()
      ensures data == post(SearchBody(old(q), n, old(lastFilters)))
      ensures url == SyncedUrl(old(url), old(q), n)
      ensures showFilters == old(showFilters) && lastFilters == old(lastFilters)
    {
      page := n;
      RunSearch(Opts(None, Some(n), None), post);
    }

    /** The Filters button opens the popup. */
    method OpenFilters()
      modifies this
      ensures showFilters
      ensures q == old(q) && page == old(page) && data == old(data) && url == old(url)
      ensures lastFilters == old(lastFilters)
    {
      showFilters := true;
    }

    /** The popup's `onClose`. */
    method CloseFilters()
      modifies this
      ensures !showFilters
      ensures q == old(q) && page == old(page) && data == old(data) && url == old(url)
      ensures lastFilters == old(lastFilters)
    {
      showFilters := false;
    }

    /** `onApply(filters)`: remember the filters, close the popup, go to
        page 1 and search it with them. When the route answers as
        `Search.Post`, every item shown then matches them (`AnswerMatches`). */
    method OnApply(f: Filters, post: Request -> Outcome)
      modifies this
      ensures lastFilters == f && !showFilters && page == 1 && q == old(q) && InSync()
      ensures data == post(SearchBody(old(q), 1, f))
      ensures url == SyncedUrl(old(url), old(q), 1)
    {
      lastFilters := f;
      showFilters := false;
      page := 1;
      RunSearch(Opts(None, Some(1), Some(f)), post);
    }

    /** The entry flow on mount: take a non-empty URL query that differs
        from the state's, and the URL page when it differs, and search only
        when one of them changed. */
    method EnterFlow(post: Request -> Outcome, number: string -> int) returns (fetched: bool)
      modifies this
      ensures var urlQ := GetFirst(old(url), "q").GetOr("");
        && (fetched <==> (urlQ != "" && urlQ != old(q)) || UrlPage(old(url), number) != old(page))
        && q == (if urlQ != "" then urlQ else old(q))
        && page == UrlPage(old(url), number)
        && (fetched ==> data == post(SearchBody(urlQ, page, old(lastFilters)))
                        && url == SyncedUrl(old(url), urlQ, page) && InSync())
        && (!fetched ==> data == old(data) && url == old(url))
      ensures showFilters == old(showFilters) && lastFilters == old(lastFilters)
    {
      var urlQ := GetFirst(url, "q").GetOr("");
      var urlPage := UrlPage(url, number);
      var takeQ := urlQ != "" && urlQ != q;
      var takePage := urlPage != page;
      fetched := takeQ || takePage;
      if fetched {
        q, page := if takeQ then urlQ else q, urlPage;
        RunSearch(Opts(Some(urlQ), Some(urlPage), None), post);
      }
    }
  }
}
