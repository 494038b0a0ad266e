/**
 * `GET /api/search/suggest`: up to eight rows whose text columns contain the
 * trimmed query, ignoring case, shaped as suggestions with a short snippet.
 */
module Suggest {
  import opened Wrappers
  import opened Text
  import opened Catalog
  import opened QueryParams
  import opened Search

  /** The shortest trimmed query that is looked up. */
  const MinQuery := 2
  /** `take: 8`. */
  const MaxItems := 8
  /** `presentation_content.slice(0, 120)`. */
  const SnippetLength := 120

  datatype Suggestion = Suggestion(
    id: int,
    slug: string,
    title: Option<string>,
    subject: Option<string>,
    grade: Option<string>,
    topic: Option<string>,
    subtopic: Option<string>,
    snippet: string)

  /** The first 120 characters of the content, or "" when there is none. */
  function Snippet(content: Option<string>): (s: string)
    ensures |s| <= SnippetLength
    ensures content.None? ==> s == ""
    ensures content.Some? ==> IsPrefix(s, content.value)
    ensures content.Some? && |content.value| >= SnippetLength ==> |s| == SnippetLength
    ensures content.Some? && |content.value| < SnippetLength ==> s == content.value
  {
    match content
    case None => ""
    case Some(c) => if c == "" then "" else c[..Min(SnippetLength, |c|)]
  }

  /** One suggestion: the row's identity and facets, `title` from `name`,
      `subtopic` from `sub_topic`. */
  function ToSuggestion(r: Presentation): (s: Suggestion)
    ensures s.id == r.id && s.slug == r.slug && s.title == r.name
    ensures s.subject == r.subject && s.grade == r.grade
    ensures s.topic == r.topic && s.subtopic == r.subTopic
    ensures s.snippet == Snippet(r.content)
  {
    Suggestion(r.id, r.slug, r.name, r.subject, r.grade, r.topic, r.subTopic, Snippet(r.content))
  }

  /** The query the route looks up: the first `q`, trimmed. */
  function Query(sp: Params): (q: string)
    ensures Trimmed(q)
  {
    Trim(GetFirst(sp, "q").GetOr(""))
  }

  /** The route's `items`: nothing for a query shorter than two characters;
      otherwise the first eight matching rows in table order (there is no
      `orderBy`), each as a suggestion. */
  function Items(table: seq<Presentation>, sp: Params): (items: seq<Suggestion>)
    ensures |Query(sp)| < MinQuery ==> items == []
    ensures |items| <= MaxItems
  {
    ItemsFor(table, Query(sp))
  }

  /** The route's status and `items`. A query shorter than two characters
      is answered with no items before the table is read, so even a failing
      table gives status 200 then; otherwise the handler catches nothing, so
      a table that cannot be read ends in the framework's status 500 with no
      items, and a readable one is answered with status 200 and `Items`. */
  datatype Suggested = Suggested(status: int, items: seq<Suggestion>)

  function Serve(store: Store, sp: Params): (reply: Suggested)
    ensures reply.status == 500 <==> store.Failing? && |Query(sp)| >= MinQuery
    ensures reply.status != 500 ==> reply.status == 200
    ensures |Query(sp)| < MinQuery || reply.status == 500 ==> reply.items == []
    ensures store.Reachable? ==> reply.items == Items(store.table, sp)
  {
    if |Query(sp)| < MinQuery then Suggested(200, [])
    else
      match store
      case Failing => Suggested(500, [])
      case Reachable(table) => Suggested(200, Items(table, sp))
  }

  function ItemsFor(table: seq<Presentation>, q: string): (items: seq<Suggestion>)
    ensures |q| < MinQuery ==> items == []
    ensures |items| <= MaxItems
  {
    if q == "" || |q| < MinQuery then []
    else
      var rows := SliceTo(Select(table, TextMatch(q)), MaxItems);
      seq(|rows|, i requires 0 <= i < |rows| => ToSuggestion(rows[i]))
  }

  /** `s` is the suggestion of a table row one of whose text columns contains
      `q`, ignoring case. */
  ghost predicate FromMatchingRow(s: Suggestion, table: seq<Presentation>, q: string) {
    exists r :: r in table && s == ToSuggestion(r) && Matching(r, q)
  }

  predicate Matching(r: Presentation, q: string) {
    exists f :: FieldOf(r, f).Some? && ContainsIgnoringCase(FieldOf(r, f).value, q)
  }

  /** Every suggestion for a long enough query comes from a matching row of
      the table; and there are eight of them, or every matching row when
      fewer match. */
  lemma ItemsMatch(table: seq<Presentation>, sp: Params)
    requires |Query(sp)| >= MinQuery
    ensures var items := Items(table, sp);
      && |items| == Min(MaxItems, Count(table, TextMatch(Query(sp))))
      && forall i :: 0 <= i < |items| ==> FromMatchingRow(items[i], table, Query(sp))
  {
    var q := Query(sp);
    var rows := Select(table, TextMatch(q));
    var items := Items(table, sp);
    var taken := SliceTo(rows, MaxItems);
    forall i | 0 <= i < |items| ensures FromMatchingRow(items[i], table, q) {
      var r := taken[i];
      assert taken == rows[..|taken|];
      assert r == rows[i] && r in rows;
      assert items[i] == ToSuggestion(r);
      TextMatchMeans(r, q);
      assert Matching(r, q);
    }
  }

  /** Blanks around the query change nothing: a query and its trimmed form
      suggest the same rows. */
  lemma ItemsIgnoreBlanks(table: seq<Presentation>, sp: Params)
    requires GetAll(sp, "q") != []
    ensures Items(table, [("q", Trim(GetAll(sp, "q")[0]))]) == Items(table, sp)
  {
    QueryOfFirst(sp);
    QueryOfTrimmed(GetAll(sp, "q")[0]);
    ItemsOfSameQuery(table, [("q", Trim(GetAll(sp, "q")[0]))], sp);
  }

  lemma QueryOfFirst(sp: Params)
    requires GetAll(sp, "q") != []
    ensures Query(sp) == Trim(GetAll(sp, "q")[0])
  {
  }

  lemma QueryOfTrimmed(x: string)
    ensures Query([("q", Trim(x))]) == Trim(x)
  {
    var sp := [("q", Trim(x))];
    assert GetFirst(sp, "q") == Some(Trim(x));
    TrimOfTrimmed(Trim(x));
  }

  lemma ItemsOfSameQuery(table: seq<Presentation>, a: Params, b: Params)
    requires Query(a) == Query(b)
    ensures Items(table, a) == Items(table, b)
  {
  }
}
