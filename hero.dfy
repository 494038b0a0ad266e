/**
 * The landing page's suggest box (`HeroSection`): the topic score that ranks
 * suggestions, the four best shown, the query-to-list cache, the state
 * changes on typing and when a fetch completes, the shortened snippet and
 * the search button's guard.
 */
module Hero {
  import opened Wrappers
  import opened Text
  import opened Sorting
  import opened QueryParams

  // ---------------------------------------------------------------------
  // escapeRe

  /** The characters of `[.*+?^${}()|[\]\\]`. */
  predicate IsRegexSpecial(c: char) {
    c in ".*+?^${}()|[]\\"
  }

  /** `escapeRe`: a backslash before every special character. */
  function EscapeRe(s: string): (r: string)
    ensures |r| >= |s|
    ensures (forall k :: 0 <= k < |s| ==> !IsRegexSpecial(s[k])) ==> r == s
  {
    if s == [] then []
    else (if IsRegexSpecial(s[0]) then ['\\', s[0]] else [s[0]]) + EscapeRe(s[1..])
  }

  /** What a regular expression engine reads back: a backslash makes the
      next character literal. */
  function Unescape(r: string): string
    decreases |r|
  {
    if r == [] then []
    else if r[0] == '\\' && |r| >= 2 then [r[1]] + Unescape(r[2..])
    else [r[0]] + Unescape(r[1..])
  }

  /** The escaped pattern stands for the text itself. */
  lemma {:induction false} UnescapeEscape(s: string)
    ensures Unescape(EscapeRe(s)) == s
    decreases |s|
  {
    if s != [] {
      var rest := EscapeRe(s[1..]);
      UnescapeEscape(s[1..]);
      if IsRegexSpecial(s[0]) {
        assert (['\\', s[0]] + rest)[2..] == rest;
      } else {
        assert s[0] != '\\';
        assert ([s[0]] + rest)[1..] == rest;
      }
      assert s == [s[0]] + s[1..];
    }
  }

  // ---------------------------------------------------------------------
  // scoreByTopic

  /** The query's lower-cased whitespace-separated tokens. */
  function Tokens(query: string): seq<string> {
    Words(Lower(query))
  }

  /** +120 when the topic starts with the phrase, otherwise +90 when it
      contains it. */
  function PhrasePoints(t: string, phrase: string): nat {
    if IsPrefix(phrase, t) then 120 else if Contains(t, phrase) then 90 else 0
  }

  /** +30 when the topic starts with the token, +20 when it contains it. */
  function TokenPoints(t: string, tk: string): nat {
    (if IsPrefix(tk, t) then 30 else 0) + (if Contains(t, tk) then 20 else 0)
  }

  function TokenScore(t: string, toks: seq<string>): nat
    decreases |toks|
  {
    if toks == [] then 0 else TokenScore(t, toks[..|toks| - 1]) + TokenPoints(t, toks[|toks| - 1])
  }

  predicate AllContained(t: string, toks: seq<string>) {
    forall k :: 0 <= k < |toks| ==> Contains(t, toks[k])
  }

  /** The score of a topic for a query: 0 for an empty topic or a query
      without tokens; otherwise the phrase points, the points of each token,
      and 40 more when the topic contains every token. */
  function Score(topic: string, query: string): nat {
    var t := Lower(topic);
    var toks := Tokens(query);
    if t == "" || toks == [] then 0
    else PhrasePoints(t, Join(toks, ' ')) + TokenScore(t, toks) + (if AllContained(t, toks) then 40 else 0)
  }

  /** `scoreByTopic`: the phrase signal, then one pass over the tokens
      adding their points and clearing `all` at the first token missing. */
  method ScoreByTopic(topic: string, query: string) returns (score: int)
    ensures score == Score(topic, query)
  {
    var t := Lower(topic);
    var toks := Tokens(query);
    if t == "" || toks == [] {
      return 0;
    }
    var phrase := Join(toks, ' ');
    score := 0;
    if IsPrefix(phrase, t) {
      score := score + 120;
    } else if Contains(t, phrase) {
      score := score + 90;
    }
    assert score == PhrasePoints(t, phrase);
    var all := true;
    var i := 0;
    while i < |toks|
      invariant 0 <= i <= |toks|
      invariant score == PhrasePoints(t, phrase) + TokenScore(t, toks[..i])
      invariant all <==> AllContained(t, toks[..i])
    {
      var tk := toks[i];
      ScoreStep(t, toks, i);
      if IsPrefix(tk, t) {
        score := score + 30;
      }
      if Contains(t, tk) {
        score := score + 20;
      }
      if !Contains(t, tk) {
        all := false;
      }
      i := i + 1;
    }
    assert toks[..i] == toks;
    if all {
      score := score + 40;
    }
  }

  /** One more token adds its points, and keeps `all` only when the topic
      contains it. */
  lemma ScoreStep(t: string, toks: seq<string>, i: nat)
    requires i < |toks|
    ensures TokenScore(t, toks[..i + 1]) == TokenScore(t, toks[..i]) + TokenPoints(t, toks[i])
    ensures AllContained(t, toks[..i + 1]) <==> AllContained(t, toks[..i]) && Contains(t, toks[i])
  {
    assert toks[..i + 1][..i] == toks[..i];
    assert toks[..i + 1][i] == toks[i];
  }

  lemma {:induction false} TokenScoreAtMost(t: string, toks: seq<string>)
    ensures TokenScore(t, toks) <= 50 * |toks|
    decreases |toks|
  {
    if toks != [] {
      TokenScoreAtMost(t, toks[..|toks| - 1]);
    }
  }

  lemma {:induction false} TokenScoreAtLeast(t: string, toks: seq<string>)
    requires AllContained(t, toks)
    ensures TokenScore(t, toks) >= 20 * |toks|
    decreases |toks|
  {
    if toks != [] {
      TokenScoreAtLeast(t, toks[..|toks| - 1]);
    }
  }

  /** The score is 0 for an empty topic or a query without tokens, at
      least 20 when the topic contains some token, and at most 160 plus 50
      per token. */
  lemma ScoreBounds(topic: string, query: string)
    ensures topic == "" || Tokens(query) == [] ==> Score(topic, query) == 0
    ensures topic != "" && (exists k :: 0 <= k < |Tokens(query)| && Contains(Lower(topic), Tokens(query)[k])) ==>
      Score(topic, query) >= 20
    ensures Score(topic, query) <= 160 + 50 * |Tokens(query)|
  {
    var t := Lower(topic);
    var toks := Tokens(query);
    TokenScoreAtMost(t, toks);
    if topic != "" && exists k :: 0 <= k < |toks| && Contains(t, toks[k]) {
      var k :| 0 <= k < |toks| && Contains(t, toks[k]);
      TokenScoreHas(t, toks, k);
    }
  }

  lemma {:induction false} TokenScoreHas(t: string, toks: seq<string>, k: int)
    requires 0 <= k < |toks| && Contains(t, toks[k])
    ensures TokenScore(t, toks) >= 20
    decreases |toks|
  {
    if k < |toks| - 1 {
      assert toks[..|toks| - 1][k] == toks[k];
      TokenScoreHas(t, toks[..|toks| - 1], k);
    }
  }

  /** A topic that contains every token earns the bonus and each token's
      20: at least 40 plus 20 per token. */
  lemma ScoreAllTokens(topic: string, query: string)
    requires topic != ""
    requires AllContained(Lower(topic), Tokens(query))
    ensures Tokens(query) != [] ==> Score(topic, query) >= 40 + 20 * |Tokens(query)|
  {
    TokenScoreAtLeast(Lower(topic), Tokens(query));
  }

  /** The first part of a join starts it. */
  lemma JoinStartsWithFirst(parts: seq<string>, sep: char)
    requires parts != []
    ensures IsPrefix(parts[0], Join(parts, sep))
  {
    if |parts| > 1 {
      assert Join(parts, sep) == parts[0] + ([sep] + Join(parts[1..], sep));
    }
  }

  lemma PrefixTransitive(p: string, m: string, s: string)
    requires IsPrefix(p, m) && IsPrefix(m, s)
    ensures IsPrefix(p, s)
  {
    assert s[..|p|] == s[..|m|][..|p|];
  }

  /** A topic that starts with the whole phrase scores the most a phrase can
      earn: 120, the first token's 30, every token's 20 and the 40 bonus. */
  lemma ScorePhrasePrefix(topic: string, query: string)
    requires topic != "" && Tokens(query) != []
    requires IsPrefix(Join(Tokens(query), ' '), Lower(topic))
    ensures Score(topic, query) >= 190 + 20 * |Tokens(query)|
  {
    var t := Lower(topic);
    var toks := Tokens(query);
    var phrase := Join(toks, ' ');
    PrefixContained(phrase, t);
    forall k | 0 <= k < |toks| ensures Contains(t, toks[k]) {
      JoinContainsPart(toks, ' ', k);
      ContainsTransitive(t, phrase, toks[k]);
    }
    TokenScoreAtLeast(t, toks);
    JoinStartsWithFirst(toks, ' ');
    PrefixTransitive(toks[0], phrase, t);
    FirstTokenPoints(t, toks);
  }

  lemma {:induction false} FirstTokenPoints(t: string, toks: seq<string>)
    requires toks != [] && IsPrefix(toks[0], t) && AllContained(t, toks)
    ensures TokenScore(t, toks) >= 30 + 20 * |toks|
    decreases |toks|
  {
    if |toks| == 1 {
      assert toks[..0] == [];
    } else {
      var init := toks[..|toks| - 1];
      assert init[0] == toks[0];
      FirstTokenPoints(t, init);
    }
  }

  /** Lower-casing the topic or the query changes no score. */
  lemma ScoreIgnoresCase(topic: string, query: string)
    ensures Score(Lower(topic), Lower(query)) == Score(topic, query)
  {
    assert Lower(Lower(topic)) == Lower(topic);
    assert Lower(Lower(query)) == Lower(query);
  }

  // ---------------------------------------------------------------------
  // Normalising and ranking the fetched suggestions

  /** A suggestion as the box receives it; `None` is a missing or `null`
      property. */
  datatype RawSuggestion = RawSuggestion(
    id: Option<string>, slug: Option<string>, topic: Option<string>, title: Option<string>,
    name: Option<string>, grade: Option<string>, subtopic: Option<string>, subTopic: Option<string>,
    snippet: Option<string>, presentationContent: Option<string>, presentationHtml: Option<string>,
    content: Option<string>)

  /** A suggestion as the box shows it. */
  datatype Shown = Shown(
    id: Option<string>, slug: Option<string>, topic: string, grade: string, subtopic: string, snippet: string)

  /** `a || b` on strings: `a` unless it is missing or empty. */
  function Or(a: Option<string>, b: Option<string>): (r: Option<string>)
    ensures r == a || r == b
    ensures r.Some? && r.value == "" ==> r == b
  {
    if a.Some? && a.value != "" then a else b
  }

  /** `a ?? b`: `a` unless it is missing; an empty `a` is kept. */
  function Nullish(a: Option<string>, b: Option<string>): (r: Option<string>)
    ensures a.Some? ==> r == a
    ensures a.None? ==> r == b
  {
    if a.Some? then a else b
  }

  /** The normalising `map`: the topic falls back through title and name to
      "Untitled", so it is never empty; grade and sub-topic fall back to "";
      the snippet takes the first property that is present at all. The
      suggest route sends a numeric `id`, held here as its text: a numeric
      id 0 is falsy in the source and falls through to the slug, while its
      text "0" is kept here. The id only keys the rendered list. */
  function Normalize(x: RawSuggestion): (n: Shown)
    ensures n.topic != ""
    ensures x.topic.Some? && x.topic.value != "" ==> n.topic == x.topic.value
    ensures n.slug == x.slug
    ensures x.snippet.Some? ==> n.snippet == x.snippet.value
  {
    Shown(
      Or(x.id, Or(x.slug, Or(x.topic, Or(x.title, x.name)))),
      x.slug,
      Or(x.topic, Or(x.title, Or(x.name, Some("Untitled")))).value,
      Or(x.grade, Some("")).value,
      Or(x.subtopic, Or(x.subTopic, Some(""))).value,
      Nullish(x.snippet, Nullish(x.presentationContent, Nullish(x.presentationHtml, Nullish(x.content, Some(""))))).value)
  }

  /** How many suggestions are shown. */
  const MaxShown := 4

  /** The comparator `(a, b) => score(b) - score(a)`: higher scores first. */
  function ByScore(query: string): (Shown, Shown) -> bool {
    (a: Shown, b: Shown) => Score(a.topic, query) >= Score(b.topic, query)
  }

  lemma ByScoreTotalPreorder(query: string)
    ensures TotalPreorder(ByScore(query))
  {
  }

  /** The suggestions in non-increasing score order. */
  ghost predicate Ranked(xs: seq<Shown>, query: string) {
    forall i, j :: 0 <= i < j < |xs| ==> Score(xs[i].topic, query) >= Score(xs[j].topic, query)
  }

  /** `.sort(byScore).slice(0, 4)`. */
  function Top(xs: seq<Shown>, query: string): (shown: seq<Shown>)
    ensures |shown| == if |xs| < MaxShown then |xs| else MaxShown
  {
    SliceTo(Sort(xs, ByScore(query)), MaxShown)
  }

  /** A prefix of a sorted list is sorted, is part of the list, and comes
      ahead of everything left after it. */
  lemma SortedPrefix<T>(sorted: seq<T>, n: nat, le: (T, T) -> bool)
    requires Sorted(sorted, le) && n <= |sorted|
    ensures Sorted(sorted[..n], le)
    ensures multiset(sorted[..n]) <= multiset(sorted)
    ensures forall x, i :: x in multiset(sorted) - multiset(sorted[..n]) && 0 <= i < n ==> le(sorted[i], x)
  {
    var rest := sorted[n..];
    assert sorted == sorted[..n] + rest;
    assert multiset(sorted) == multiset(sorted[..n]) + multiset(rest);
    forall x, i | x in multiset(sorted) - multiset(sorted[..n]) && 0 <= i < n
      ensures le(sorted[i], x)
    {
      assert x in multiset(rest);
      var k :| 0 <= k < |rest| && rest[k] == x;
      assert sorted[n + k] == x;
    }
  }

  /** The shown suggestions are ranked, come from the fetched ones, and
      none left out scores above any shown one. */
  lemma TopBest(xs: seq<Shown>, query: string)
    ensures var shown := Top(xs, query);
      && Ranked(shown, query)
      && multiset(shown) <= multiset(xs)
      && forall x, i :: x in multiset(xs) - multiset(shown) && 0 <= i < |shown| ==>
           Score(x.topic, query) <= Score(shown[i].topic, query)
  {
    var le := ByScore(query);
    var sorted := Sort(xs, le);
    var shown := Top(xs, query);
    ByScoreTotalPreorder(query);
    SortSorted(xs, le);
    assert shown == sorted[..|shown|];
    SortedPrefix(sorted, |shown|, le);
  }

  // ---------------------------------------------------------------------
  // The suggest box's state

  /** How the fetch scheduled for a query ended. */
  datatype Fetched =
    | Answered(items: seq<RawSuggestion>)   // `data.items`, or [] when it is not an array
    | Failed                                // a bad status or another error
    | Aborted                               // superseded by a newer fetch

  /** Every cached list holds at most four suggestions, ranked for its own
      query. */
  ghost predicate CacheOk(cache: map<string, seq<Shown>>) {
    forall k :: k in cache ==> |cache[k]| <= MaxShown && Ranked(cache[k], k)
  }

  /** The suggest box: `q`, `open`, `items`, `loading`, `hadFirstType`,
      `cacheRef` and `lastFetchedQ`. */
  class SuggestBox {
    var q: string
    var open: bool
    var items: seq<Shown>
    var loading: bool
    var hadFirstType: bool
    var cache: map<string, seq<Shown>>
    var lastFetchedQ: string

    /** At most four suggestions are on show; every cached list holds at
        most four, ranked for its own query; the last fetched query is
        cached. */
    ghost predicate Valid()
      reads this
    {
      && |items| <= MaxShown
      && CacheOk(cache)
      && (lastFetchedQ != "" ==> lastFetchedQ in cache)
    }

    constructor ()
      ensures Valid()
      ensures q == "" && !open && items == [] && !loading && !hadFirstType
      ensures cache == map[] && lastFetchedQ == ""
    {
      q := "";
      open := false;
      items := [];
      loading := false;
      hadFirstType := false;
      cache := map[];
      lastFetchedQ := "";
    }

    /** `onType`: the box opens on the new text; blank text clears the list;
        a cached non-empty list is shown at once; a miss shows the loader. */
    method OnType(val: string)
      requires Valid()
      modifies this
      ensures Valid()
      ensures q == val && hadFirstType && open
      ensures cache == old(cache) && lastFetchedQ == old(lastFetchedQ)
      ensures Blank(val) ==> items == [] && !loading
      ensures !Blank(val) && Trim(val) in cache && cache[Trim(val)] != [] ==>
        items == cache[Trim(val)] && !loading
      ensures !Blank(val) && !(Trim(val) in cache && cache[Trim(val)] != []) ==>
        items == old(items) && loading
    {
      q := val;
      hadFirstType := true;
      open := true;
      var trimmed := Trim(val);
      if trimmed == "" {
        items := [];
        loading := false;
        return;
      }
      if trimmed in cache && cache[trimmed] != [] {
        items := cache[trimmed];
        loading := false;
      } else {
        loading := true;
      }
    }

    /** The effect that runs when `q` changes: a blank query closes the box;
        the last fetched query is shown from the cache; any other query
        schedules a fetch for its trimmed text, changing nothing yet. */
    method QueryChanged() returns (fetch: Option<string>)
      requires Valid()
      modifies this
      ensures Valid()
      ensures q == old(q) && cache == old(cache) && lastFetchedQ == old(lastFetchedQ)
      ensures hadFirstType == old(hadFirstType)
      ensures Blank(q) ==> fetch.None? && items == [] && !loading && !open
      ensures !Blank(q) && Trim(q) == lastFetchedQ && cache[lastFetchedQ] != [] ==>
        fetch.None? && items == cache[lastFetchedQ] && !loading && open
      ensures !Blank(q) && !(Trim(q) == lastFetchedQ && cache[lastFetchedQ] != []) ==>
        fetch == Some(Trim(q)) && items == old(items) && loading == old(loading) && open == old(open)
    {
      var trimmed := Trim(q);
      assert trimmed == "" <==> Blank(q);
      assert trimmed != "" && trimmed == lastFetchedQ ==> trimmed in cache && |cache[trimmed]| <= MaxShown;
      if trimmed == "" {
        items, loading, open := [], false, false;
        return None;
      }
      if trimmed == lastFetchedQ && cache[trimmed] != [] {
        items, loading, open := cache[trimmed], false, true;
        return None;
      }
      return Some(trimmed);
    }

    /** The scheduled fetch for `trimmed` ends: an answer is normalised,
        ranked and cut to four, cached under `trimmed`, remembered as the
        last fetched query and shown; a failure shows an empty open list; an
        abort only stops the loader. */
    method FetchCompleted(trimmed: string, outcome: Fetched)
      requires Valid()
      modifies this
      ensures Valid()
      ensures !loading && q == old(q) && hadFirstType == old(hadFirstType)
      ensures outcome.Answered? ==>
        && items == Top(seq(|outcome.items|, i requires 0 <= i < |outcome.items| => Normalize(outcome.items[i])), trimmed)
        && cache == old(cache)[trimmed := items] && lastFetchedQ == trimmed && open
      ensures outcome.Failed? ==>
        items == [] && open && cache == old(cache) && lastFetchedQ == old(lastFetchedQ)
      ensures outcome.Aborted? ==>
        items == old(items) && open == old(open) && cache == old(cache) && lastFetchedQ == old(lastFetchedQ)
    {
      match outcome {
        case Answered(raw) =>
          var normalized := seq(|raw|, i requires 0 <= i < |raw| => Normalize(raw[i]));
          var sorted := Top(normalized, trimmed);
          TopBest(normalized, trimmed);
          cache := cache[trimmed := sorted];
          lastFetchedQ := trimmed;
          items := sorted;
          open := true;
        case Failed =>
          items := [];
          open := true;
        case Aborted =>
      }
      loading := false;
    }

    /** `goSearch`: nothing for a blank query, otherwise the results page
        for the trimmed query; `encode` is `encodeURIComponent`. */
    function SearchTarget(encode: string -> string): (target: Option<string>)
      reads this
      ensures target.None? <==> Blank(q)
      ensures target.Some? ==> target.value == "/see-all-results?q=" + encode(Trim(q))
    {
      var query := Trim(q);
      if query == "" then None else Some("/see-all-results?q=" + encode(query))
    }

    /** The "See all results" button: the results page for `q` as typed,
        untrimmed and even when blank. */
    function SeeAllTarget(encode: string -> string): (target: string)
      reads this
      ensures target == "/see-all-results?q=" + encode(q)
    {
      "/see-all-results?q=" + encode(q)
    }
  }

  /** The button and `goSearch` go to the same page exactly when the query
      is not blank and encoding it trimmed gives what encoding it as typed
      gives; a blank query still has a button target but no search. */
  lemma SeeAllVersusSearch(box: SuggestBox, encode: string -> string)
    ensures box.SearchTarget(encode) == Some(box.SeeAllTarget(encode)) <==>
            !Blank(box.q) && encode(Trim(box.q)) == encode(box.q)
  {
    var prefix := "/see-all-results?q=";
    var t := box.SearchTarget(encode);
    if t == Some(box.SeeAllTarget(encode)) {
      assert t.value == prefix + encode(Trim(box.q)) == prefix + encode(box.q);
      assert encode(Trim(box.q)) == (prefix + encode(Trim(box.q)))[|prefix|..];
    }
  }

  /** After an answered fetch the cache entry for the query is exactly the
      list on show, and showing that query again needs no fetch. */
  method FetchThenRetype(box: SuggestBox, val: string, raw: seq<RawSuggestion>)
    requires box.Valid() && !Blank(val)
    modifies box
    ensures box.Valid()
    ensures Trim(val) in box.cache && box.cache[Trim(val)] == box.items && box.lastFetchedQ == Trim(val)
  {
    box.FetchCompleted(Trim(val), Answered(raw));
    var shown := box.items;
    box.OnType(val);
    if shown == [] {
      assert box.items == shown;
    }
  }

  // ---------------------------------------------------------------------
  // The shortened snippet

  const SnippetMax := 140

  /** A snippet of at most 140 characters unchanged, a longer one cut to 140
      with an ellipsis. */
  function SnippetShort(s: string): (r: string)
    ensures |s| <= SnippetMax ==> r == s
    ensures |s| > SnippetMax ==> |r| == SnippetMax + 1 && IsPrefix(r[..SnippetMax], s) && r[SnippetMax] == '…'
  {
    if |s| > SnippetMax then s[..SnippetMax] + "…" else s
  }
}
