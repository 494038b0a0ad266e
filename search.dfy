/**
 * `POST /api/presentations/search`: the rows that match a text query and
 * exact facet lists, counted, ordered by rating, reviews and id, cut into
 * one page, shaped into items with a usable thumbnail, and returned with
 * four facet aggregates over the whole table. `GET` is refused.
 */
module Search {
  import opened Wrappers
  import opened Text
  import opened Sorting
  import opened Catalog
  import opened Facets
  import opened Markup

  // ---------------------------------------------------------------------
  // extractThumbSrc

  /** `extractThumbSrc`: nothing for a missing or blank thumbnail; for an
      `<img` tag the quoted `src=` address (leftmost), or nothing; any other
      thumbnail trimmed. */
  function ExtractThumbSrc(t: Option<string>): (r: Option<string>)
    ensures t.None? || Blank(t.value) ==> r.None?
    ensures t.Some? && !Blank(t.value) && !IsPrefix("<img", Trim(t.value)) ==> r == Some(Trim(t.value))
    ensures r.Some? ==> r.value != "" && (IsPrefix("<img", Trim(t.value)) || Trimmed(r.value))
  {
    if t.None? then None
    else
      var s := Trim(t.value);
      if s == "" then None
      else if IsPrefix("<img", s) then FirstSrc(s, 0, false)
      else Some(s)
  }

  /** An `<img` thumbnail gives the leftmost quoted `src=` address of the
      trimmed tag, or nothing when the tag has none. */
  lemma ThumbOfImg(t: Option<string>)
    requires t.Some? && IsPrefix("<img", Trim(t.value))
    ensures ExtractThumbSrc(t) == FirstSrc(Trim(t.value), 0, false)
  {
    assert Trim(t.value) != "";
  }

  /** `<img src="u"…` yields `u`: the only `src=` before it would have to
      start inside `<img `. */
  lemma ThumbOfImgTag(u: string, rest: string)
    requires u != [] && forall k :: 0 <= k < |u| ==> !IsQuote(u[k])
    requires rest == [] || !IsSpace(rest[|rest| - 1])
    ensures ExtractThumbSrc(Some("<img src=\"" + u + "\"" + rest)) == Some(u)
  {
    ImgTagFirstSrc(u, rest, false);
  }

  // ---------------------------------------------------------------------
  // The request and its filter

  /** The JSON body; a missing key is `None` and takes its default. */
  datatype Request = Request(
    q: Option<string>,
    subjects: Option<seq<string>>,
    grades: Option<seq<string>>,
    topics: Option<seq<string>>,
    subTopics: Option<seq<string>>,
    page: Option<int>,
    pageSize: Option<int>)

  function Q(req: Request): string { req.q.GetOr("") }
  function PageOf(req: Request): int { req.page.GetOr(1) }
  function PageSizeOf(req: Request): int { req.pageSize.GetOr(12) }

  /** `{ OR: [...] }` over the six text columns. */
  function TextMatch(q: string): Cond {
    AnyOf([ContainsInsensitive(Name, q), ContainsInsensitive(Subject, q), ContainsInsensitive(Grade, q),
           ContainsInsensitive(Topic, q), ContainsInsensitive(SubTopic, q), ContainsInsensitive(Content, q)])
  }

  /** `where.AND`: the text condition when `q` is not empty, and exact
      membership for each non-empty facet list; `{}` otherwise. */
  function Where(req: Request): Cond {
    AllOf([
      TextCond(Q(req)),
      FacetCond(Subject, req.subjects.GetOr([])),
      FacetCond(Grade, req.grades.GetOr([])),
      FacetCond(Topic, req.topics.GetOr([])),
      FacetCond(SubTopic, req.subTopics.GetOr([]))])
  }

  /** `if (q) AND.push({ OR: [...] })`; `{}` otherwise. */
  function TextCond(q: string): Cond {
    if q != "" then TextMatch(q) else Always
  }

  /** `if (xs.length) AND.push({ [f]: { in: xs } })`; `{}` otherwise. */
  function FacetCond(f: Field, xs: seq<string>): Cond {
    if |xs| > 0 then In(f, xs) else Always
  }

  /** An empty list does not constrain; otherwise the value is one of it. */
  predicate Within(v: Option<string>, xs: seq<string>) {
    xs == [] || (v.Some? && v.value in xs)
  }

  /** The rows a request matches: some text column contains `q` ignoring
      case (when `q` is not empty), and each facet is in its list. */
  predicate Matches(r: Presentation, req: Request) {
    && (Q(req) != "" ==> exists f :: FieldOf(r, f).Some? && ContainsIgnoringCase(FieldOf(r, f).value, Q(req)))
    && Within(r.subject, req.subjects.GetOr([]))
    && Within(r.grade, req.grades.GetOr([]))
    && Within(r.topic, req.topics.GetOr([]))
    && Within(r.subTopic, req.subTopics.GetOr([]))
  }

  lemma TextMatchMeans(r: Presentation, q: string)
    ensures Holds(TextMatch(q), r) <==> exists f :: FieldOf(r, f).Some? && ContainsIgnoringCase(FieldOf(r, f).value, q)
  {
    var cs := TextMatch(q).cs;
    if exists f :: FieldOf(r, f).Some? && ContainsIgnoringCase(FieldOf(r, f).value, q) {
      var f :| FieldOf(r, f).Some? && ContainsIgnoringCase(FieldOf(r, f).value, q);
      var k := match f
        case Name => 0 case Subject => 1 case Grade => 2 case Topic => 3 case SubTopic => 4 case Content => 5;
      assert Holds(cs[k], r);
    }
    if Holds(TextMatch(q), r) {
      var k :| 0 <= k < |cs| && Holds(cs[k], r);
      assert FieldOf(r, cs[k].f).Some? && ContainsIgnoringCase(FieldOf(r, cs[k].f).value, q);
    }
  }

  lemma TextCondMeans(r: Presentation, q: string)
    ensures Holds(TextCond(q), r) <==>
      (q != "" ==> exists f :: FieldOf(r, f).Some? && ContainsIgnoringCase(FieldOf(r, f).value, q))
  {
    if q != "" {
      TextMatchMeans(r, q);
    }
  }

  lemma FacetCondMeans(r: Presentation, f: Field, xs: seq<string>)
    ensures Holds(FacetCond(f, xs), r) <==> Within(FieldOf(r, f), xs)
  {
  }

  /** The `where` selects exactly the matching rows. */
  lemma WhereMeans(r: Presentation, req: Request)
    ensures Holds(Where(req), r) <==> Matches(r, req)
  {
    TextCondMeans(r, Q(req));
    FacetCondMeans(r, Subject, req.subjects.GetOr([]));
    FacetCondMeans(r, Grade, req.grades.GetOr([]));
    FacetCondMeans(r, Topic, req.topics.GetOr([]));
    FacetCondMeans(r, SubTopic, req.subTopics.GetOr([]));
    var cs := Where(req).cs;
    assert Holds(Where(req), r) <==>
      (Holds(cs[0], r) && Holds(cs[1], r) && Holds(cs[2], r) && Holds(cs[3], r) && Holds(cs[4], r));
  }

  // ---------------------------------------------------------------------
  // Order and page window

  /** `x` comes strictly before `y` in a `desc` order, where PostgreSQL puts
      `null` first. */
  predicate DescBefore(x: Option<int>, y: Option<int>) {
    x != y && (x.None? || (y.Some? && x.value > y.value))
  }

  /** `orderBy: [{ rating: "desc" }, { reviews: "desc" }, { id: "asc" }]`. */
  predicate RowLe(a: Presentation, b: Presentation) {
    if a.rating != b.rating then DescBefore(a.rating, b.rating)
    else if a.reviews != b.reviews then DescBefore(a.reviews, b.reviews)
    else a.id <= b.id
  }

  lemma DescBeforeTotal(x: Option<int>, y: Option<int>)
    requires x != y
    ensures DescBefore(x, y) != DescBefore(y, x)
  {
  }

  lemma RowLeTotalPreorder()
    ensures TotalPreorder(RowLe)
  {
    forall a: Presentation, b: Presentation ensures RowLe(a, b) || RowLe(b, a) {
      if a.rating != b.rating {
        DescBeforeTotal(a.rating, b.rating);
      } else if a.reviews != b.reviews {
        DescBeforeTotal(a.reviews, b.reviews);
      }
    }
  }

  /** With the id as the last key, two rows that each may precede the other
      share their id: on a table with unique ids the order is total. */
  lemma RowLeAntisymmetric(a: Presentation, b: Presentation)
    requires RowLe(a, b) && RowLe(b, a)
    ensures a.id == b.id
  {
    if a.rating != b.rating {
      DescBeforeTotal(a.rating, b.rating);
    } else if a.reviews != b.reviews {
      DescBeforeTotal(a.reviews, b.reviews);
    }
  }

  /** The matching rows in result order. */
  function Ordered(table: seq<Presentation>, req: Request): (rs: seq<Presentation>)
    ensures |rs| == Count(table, Where(req))
    ensures forall r :: r in rs <==> r in table && Matches(r, req)
  {
    var sel := Select(table, Where(req));
    SortMembers(sel, RowLe);
    forall r ensures Holds(Where(req), r) <==> Matches(r, req) {
      WhereMeans(r, req);
    }
    Sort(sel, RowLe)
  }

  lemma OrderedSorted(table: seq<Presentation>, req: Request)
    ensures Sorted(Ordered(table, req), RowLe)
  {
    RowLeTotalPreorder();
    SortSorted(Select(table, Where(req)), RowLe);
  }

  function Id(r: Presentation): int { r.id }

  lemma {:induction false} SelectDistinct(table: seq<Presentation>, c: Cond)
    requires UniqueIds(table)
    ensures DistinctBy(Select(table, c), Id)
    decreases |table|
  {
    if table != [] {
      var rest := Select(table[1..], c);
      assert UniqueIds(table[1..]) by {
        forall i, j | 0 <= i < j < |table[1..]| ensures table[1..][i].id != table[1..][j].id {
          assert table[1..][i] == table[i + 1] && table[1..][j] == table[j + 1];
        }
      }
      SelectDistinct(table[1..], c);
      if Holds(c, table[0]) {
        forall k | 0 <= k < |rest| ensures rest[k].id != table[0].id {
          assert rest[k] in table[1..];
          var m :| 0 <= m < |table[1..]| && table[1..][m] == rest[k];
          assert table[m + 1] == rest[k];
        }
        var s := [table[0]] + rest;
        forall i, j | 0 <= i < j < |s| ensures Id(s[i]) != Id(s[j]) {
          assert s[j] == rest[j - 1];
          if i > 0 {
            assert s[i] == rest[i - 1];
          }
        }
      }
    }
  }

  /** On a table with unique ids, the result order has no two rows with one id. */
  lemma OrderedDistinct(table: seq<Presentation>, req: Request)
    requires UniqueIds(table)
    ensures DistinctBy(Ordered(table, req), Id)
  {
    SelectDistinct(table, Where(req));
    SortDistinct(Select(table, Where(req)), RowLe, Id);
  }

  function Min(a: int, b: int): int { if a <= b then a else b }

  function Abs(n: int): nat { if n < 0 then -n else n }

  /** `skip` then `take` on a sequence. */
  function Window<T>(xs: seq<T>, skip: nat, take: nat): (w: seq<T>)
    ensures |w| == if skip >= |xs| then 0 else Min(take, |xs| - skip)
    ensures forall i :: 0 <= i < |w| ==> w[i] == xs[skip + i]
  {
    if skip >= |xs| then [] else if skip + take >= |xs| then xs[skip..] else xs[skip..skip + take]
  }

  /** `take` with a negative count `-n`: the `n` rows that end `skip` rows
      before the end, still in result order. */
  function TailWindow<T>(xs: seq<T>, skip: nat, n: nat): (w: seq<T>)
    ensures |w| == if skip >= |xs| then 0 else Min(n, |xs| - skip)
    ensures forall i :: 0 <= i < |w| ==> w[i] == xs[|xs| - skip - |w| + i]
  {
    if skip >= |xs| then [] else if skip + n >= |xs| then xs[..|xs| - skip] else xs[|xs| - skip - n..|xs| - skip]
  }

  /** `skip` and `take` as the database reads them: a `take` of zero or more
      counts from `skip` on, a negative one from `skip` rows before the end. */
  function PageRows<T>(rows: seq<T>, skip: nat, take: int): (w: seq<T>)
    ensures |w| == if skip >= |rows| then 0 else Min(Abs(take), |rows| - skip)
    ensures take >= 0 ==> forall i :: 0 <= i < |w| ==> w[i] == rows[skip + i]
    ensures take < 0 ==> forall i :: 0 <= i < |w| ==> w[i] == rows[|rows| - skip - |w| + i]
  {
    if take >= 0 then Window(rows, skip, take) else TailWindow(rows, skip, -take)
  }

  /** The row of `rows` at a page's position `i`. */
  lemma PageRowAt<T>(rows: seq<T>, skip: nat, take: int, i: int) returns (j: int)
    requires 0 <= i < |PageRows(rows, skip, take)|
    ensures 0 <= j < |rows| && PageRows(rows, skip, take)[i] == rows[j]
  {
    var w := PageRows(rows, skip, take);
    if take >= 0 {
      j := skip + i;
      assert w[i] == rows[j];
    } else {
      j := |rows| - skip - |w| + i;
      assert w[i] == rows[j];
    }
  }

  /** The rows in the opposite order. */
  function Reversed<T>(xs: seq<T>): (r: seq<T>)
    ensures |r| == |xs| && forall i :: 0 <= i < |xs| ==> r[i] == xs[|xs| - 1 - i]
  {
    seq(|xs|, i requires 0 <= i < |xs| => xs[|xs| - 1 - i])
  }

  /** A negative `take` pages from the other end: reverse the order, skip and
      take there, and reverse the page back. */
  lemma TailWindowFromTheEnd<T>(xs: seq<T>, skip: nat, n: nat)
    ensures TailWindow(xs, skip, n) == Reversed(Window(Reversed(xs), skip, n))
  {
    var w := TailWindow(xs, skip, n);
    var v := Reversed(Window(Reversed(xs), skip, n));
    assert |w| == |v|;
    forall i | 0 <= i < |w| ensures w[i] == v[i] {
      assert v[i] == Reversed(xs)[skip + |w| - 1 - i];
    }
  }

  /** Pages `1..p` of size `n`, one after the other. */
  function Pages<T>(xs: seq<T>, n: nat, p: nat): seq<T> {
    if p == 0 then [] else Pages(xs, n, p - 1) + Window(xs, (p - 1) * n, n)
  }

  /** Reading pages `1..p` in turn gives the first `p * n` results: no result
      is skipped or repeated. */
  lemma {:induction false} PagesPrefix<T>(xs: seq<T>, n: nat, p: nat)
    ensures Pages(xs, n, p) == xs[..Min(p * n, |xs|)]
  {
    if p > 0 {
      PagesPrefix(xs, n, p - 1);
      PrefixThenWindow(xs, (p - 1) * n, n);
      assert p * n == (p - 1) * n + n;
    }
  }

  /** The first `m` results followed by the window at `m` are the first
      `m + n` results. */
  lemma PrefixThenWindow<T>(xs: seq<T>, m: nat, n: nat)
    ensures xs[..Min(m, |xs|)] + Window(xs, m, n) == xs[..Min(m + n, |xs|)]
  {
    var a := Min(m, |xs|);
    var b := Min(m + n, |xs|);
    var w := Window(xs, m, n);
    assert w == xs[a..b];
    assert xs[..b] == xs[..a] + xs[a..b];
  }

  /** Two different pages share no row (by id, on a table with unique ids). */
  lemma PagesDisjoint<T>(xs: seq<T>, key: T -> int, n: nat, p1: nat, p2: nat)
    requires DistinctBy(xs, key) && 1 <= p1 < p2
    ensures var w1 := Window(xs, (p1 - 1) * n, n); var w2 := Window(xs, (p2 - 1) * n, n);
      forall i, j :: 0 <= i < |w1| && 0 <= j < |w2| ==> key(w1[i]) != key(w2[j])
  {
    MulMono(p1, p2 - 1, n);
    assert p1 * n == (p1 - 1) * n + n;
    WindowsDisjoint(xs, key, (p1 - 1) * n, (p2 - 1) * n, n);
  }

  lemma WindowsDisjoint<T>(xs: seq<T>, key: T -> int, s1: nat, s2: nat, n: nat)
    requires DistinctBy(xs, key) && s1 + n <= s2
    ensures var w1 := Window(xs, s1, n); var w2 := Window(xs, s2, n);
      forall i, j :: 0 <= i < |w1| && 0 <= j < |w2| ==> key(w1[i]) != key(w2[j])
  {
    var w1 := Window(xs, s1, n);
    var w2 := Window(xs, s2, n);
    forall i, j | 0 <= i < |w1| && 0 <= j < |w2| ensures key(w1[i]) != key(w2[j]) {
      assert w1[i] == xs[s1 + i] && w2[j] == xs[s2 + j];
    }
  }

  lemma MulMono(a: nat, b: nat, n: nat)
    requires a <= b
    ensures a * n <= b * n
  {
  }

  // ---------------------------------------------------------------------
  // Items and aggregates

  /** The nine selected columns, the thumbnail made usable. */
  datatype Item = Item(
    id: int, slug: string, name: Option<string>, subject: Option<string>, grade: Option<string>,
    topic: Option<string>, subTopic: Option<string>, thumbnail: Option<string>, thumbnailAlt: Option<string>)

  function ToItem(r: Presentation): Item {
    Item(r.id, r.slug, r.name, r.subject, r.grade, r.topic, r.subTopic, ExtractThumbSrc(r.thumbnail), r.thumbnailAlt)
  }

  /** `groups.map(g => ({ name: titleCase(g.f), count: g._count._all }))`. */
  function Titled(gs: seq<Group>): (es: seq<Entry>)
    ensures |es| == |gs|
    decreases |gs|
  {
    if gs == [] then []
    else Titled(gs[..|gs| - 1]) + [TitledEntry(gs[|gs| - 1])]
  }

  /** `{ name: titleCase(g.f), count: g._count._all }`. */
  function TitledEntry(g: Group): (e: Entry)
    ensures e.name == TitleOf(g.value) && e.count == g.count
  {
    Entry(TitleOf(g.value), g.count)
  }

  /** A value that is neither null nor blank (`tidy(v)` is truthy). */
  predicate NotBlank(v: Option<string>) {
    !Blank(v.GetOr(""))
  }

  /** `.filter(g => tidy(g.f)).map(g => ({ name: g.f, count: g._count._all }))`. */
  function RawNamed(gs: seq<Group>): (es: seq<Entry>)
    ensures |es| <= |gs|
    decreases |gs|
  {
    if gs == [] then []
    else
      var g := gs[|gs| - 1];
      RawNamed(gs[..|gs| - 1]) + (if NotBlank(g.value) then [Entry(g.value.GetOr(""), g.count)] else [])
  }

  function TitledAgg(table: seq<Presentation>, f: Field): seq<Entry> {
    Sort(Titled(GroupBy(table, f)), ByName)
  }

  function RawAgg(table: seq<Presentation>, f: Field): seq<Entry> {
    Sort(RawNamed(GroupBy(table, f)), ByName)
  }

  lemma {:induction false} TitledAt(gs: seq<Group>, i: int)
    requires 0 <= i < |gs|
    ensures Titled(gs)[i] == TitledEntry(gs[i])
    decreases |gs|
  {
    var init := gs[..|gs| - 1];
    if i < |gs| - 1 {
      TitledAt(init, i);
      assert Titled(gs) == Titled(init) + [TitledEntry(gs[|gs| - 1])];
    }
  }

  lemma TitledMembers(gs: seq<Group>, e: Entry)
    ensures e in Titled(gs) <==> exists g :: g in gs && e == TitledEntry(g)
  {
    var es := Titled(gs);
    if e in es {
      var i :| 0 <= i < |es| && es[i] == e;
      TitledAt(gs, i);
      assert gs[i] in gs;
    }
    if exists g :: g in gs && e == TitledEntry(g) {
      var g :| g in gs && e == TitledEntry(g);
      var i :| 0 <= i < |gs| && gs[i] == g;
      TitledAt(gs, i);
      assert es[i] == e;
    }
  }

  lemma {:induction false} TitledSum(gs: seq<Group>)
    ensures SumCounts(Titled(gs)) == GroupSum(gs, AnyValue)
    decreases |gs|
  {
    if gs != [] {
      var init := gs[..|gs| - 1];
      TitledSum(init);
      SumCountsAppend(Titled(init), TitledEntry(gs[|gs| - 1]));
    }
  }

  lemma {:induction false} RawMembers(gs: seq<Group>, e: Entry)
    ensures e in RawNamed(gs) <==> exists g :: g in gs && NotBlank(g.value) && e == Entry(g.value.GetOr(""), g.count)
    decreases |gs|
  {
    if gs != [] {
      var init := gs[..|gs| - 1];
      var last := gs[|gs| - 1];
      RawMembers(init, e);
      var tail := if NotBlank(last.value) then [Entry(last.value.GetOr(""), last.count)] else [];
      assert RawNamed(gs) == RawNamed(init) + tail;
      if e in RawNamed(gs) {
        if e in RawNamed(init) {
          var g :| g in init && NotBlank(g.value) && e == Entry(g.value.GetOr(""), g.count);
          assert g in gs;
        } else {
          assert last in gs;
        }
      }
      if exists g :: g in gs && NotBlank(g.value) && e == Entry(g.value.GetOr(""), g.count) {
        var g :| g in gs && NotBlank(g.value) && e == Entry(g.value.GetOr(""), g.count);
        var m :| 0 <= m < |gs| && gs[m] == g;
        if m < |gs| - 1 {
          assert init[m] == g;
        }
      }
    }
  }

  lemma {:induction false} RawSum(gs: seq<Group>)
    ensures SumCounts(RawNamed(gs)) == GroupSum(gs, NotBlank)
    decreases |gs|
  {
    if gs != [] {
      var init := gs[..|gs| - 1];
      var g := gs[|gs| - 1];
      RawSum(init);
      if NotBlank(g.value) {
        SumCountsAppend(RawNamed(init), Entry(g.value.GetOr(""), g.count));
      } else {
        assert RawNamed(gs) == RawNamed(init) + [] == RawNamed(init);
        assert GroupSum(gs, NotBlank) == GroupSum(init, NotBlank);
      }
    }
  }

  function EntryName(e: Entry): string { e.name }

  lemma {:induction false} RawNamedDistinct(gs: seq<Group>)
    requires forall i, j :: 0 <= i < j < |gs| ==> gs[i].value != gs[j].value
    ensures DistinctBy(RawNamed(gs), EntryName)
    decreases |gs|
  {
    if gs != [] {
      var init := gs[..|gs| - 1];
      var g := gs[|gs| - 1];
      var es := RawNamed(init);
      RawNamedDistinct(init);
      if NotBlank(g.value) {
        var e := Entry(g.value.GetOr(""), g.count);
        forall k | 0 <= k < |es| ensures es[k].name != e.name {
          RawMembers(init, es[k]);
          var h :| h in init && NotBlank(h.value) && es[k] == Entry(h.value.GetOr(""), h.count);
          var m :| 0 <= m < |init| && init[m] == h;
          assert gs[m] == h;
        }
        var r := es + [e];
        forall i, j | 0 <= i < j < |r| ensures EntryName(r[i]) != EntryName(r[j]) {
          if j == |es| {
            assert r[i] == es[i];
          } else {
            assert r[i] == es[i] && r[j] == es[j];
          }
        }
      } else {
        assert RawNamed(gs) == es + [];
      }
    }
  }

  lemma {:induction false} RowCountAll(table: seq<Presentation>, f: Field)
    ensures RowCount(table, f, AnyValue) == |table|
    decreases |table|
  {
    if table != [] {
      RowCountAll(table[1..], f);
    }
  }

  /** The subject and grade aggregates: ascending names, each a `titleCase`
      fixpoint; one entry per raw group, so title-case duplicates stay apart;
      and the counts add up to the whole table. */
  lemma TitledAggFacts(table: seq<Presentation>, f: Field)
    ensures var agg := TitledAgg(table, f);
      && (forall i, j :: 0 <= i < j < |agg| ==> StrLe(agg[i].name, agg[j].name))
      && (forall i :: 0 <= i < |agg| ==> TitleCase(agg[i].name) == agg[i].name)
      && (forall e :: e in agg <==> exists g :: g in GroupBy(table, f) && e == TitledEntry(g))
      && SumCounts(agg) == |table|
  {
    var gs := GroupBy(table, f);
    var agg := TitledAgg(table, f);
    ByNameTotalPreorder();
    SortSorted(Titled(gs), ByName);
    ByNameAscending(agg);
    SortMembers(Titled(gs), ByName);
    forall e ensures e in agg <==> exists g :: g in gs && e == TitledEntry(g) {
      TitledMembers(gs, e);
    }
    forall i | 0 <= i < |agg| ensures TitleCase(agg[i].name) == agg[i].name {
      TitledMembers(gs, agg[i]);
      var g :| g in gs && agg[i] == TitledEntry(g);
      TitleCaseIdempotent(g.value.GetOr(""));
    }
    SumCountsSort(Titled(gs), ByName);
    TitledSum(gs);
    GroupByCounts(table, f, AnyValue);
    RowCountAll(table, f);
  }

  /** The topic and sub-topic aggregates: ascending, pairwise distinct raw
      names; an entry exactly for each non-blank value some row holds, with
      the number of rows holding it; and the counts add up to the rows whose
      value is not blank. */
  lemma RawAggFacts(table: seq<Presentation>, f: Field)
    ensures var agg := RawAgg(table, f);
      && (forall i, j :: 0 <= i < j < |agg| ==> StrLe(agg[i].name, agg[j].name) && agg[i].name != agg[j].name)
      && (forall e :: e in agg <==>
            && !Blank(e.name) && e.count == CountWith(table, f, Some(e.name))
            && exists k :: 0 <= k < |table| && FieldOf(table[k], f) == Some(e.name))
      && SumCounts(agg) == RowCount(table, f, NotBlank)
  {
    var gs := GroupBy(table, f);
    var agg := RawAgg(table, f);
    ByNameTotalPreorder();
    SortSorted(RawNamed(gs), ByName);
    ByNameAscending(agg);
    RawNamedDistinct(gs);
    SortDistinct(RawNamed(gs), ByName, EntryName);
    SortMembers(RawNamed(gs), ByName);
    forall e ensures e in agg <==>
      && !Blank(e.name) && e.count == CountWith(table, f, Some(e.name))
      && exists k :: 0 <= k < |table| && FieldOf(table[k], f) == Some(e.name)
    {
      RawAggMember(table, f, e);
    }
    SumCountsSort(RawNamed(gs), ByName);
    RawSum(gs);
    GroupByCounts(table, f, NotBlank);
  }

  lemma RawAggMember(table: seq<Presentation>, f: Field, e: Entry)
    ensures e in RawNamed(GroupBy(table, f)) <==>
      && !Blank(e.name) && e.count == CountWith(table, f, Some(e.name))
      && exists k :: 0 <= k < |table| && FieldOf(table[k], f) == Some(e.name)
  {
    var gs := GroupBy(table, f);
    RawMembers(gs, e);
    if e in RawNamed(gs) {
      RawAggSound(table, f, e);
    }
    if && !Blank(e.name) && e.count == CountWith(table, f, Some(e.name))
       && exists k :: 0 <= k < |table| && FieldOf(table[k], f) == Some(e.name)
    {
      var k :| 0 <= k < |table| && FieldOf(table[k], f) == Some(e.name);
      var i :| 0 <= i < |gs| && gs[i].value == FieldOf(table[k], f);
      assert gs[i] in gs && NotBlank(gs[i].value) && e == Entry(gs[i].value.GetOr(""), gs[i].count);
    }
  }

  lemma RawAggSound(table: seq<Presentation>, f: Field, e: Entry)
    requires exists g :: g in GroupBy(table, f) && NotBlank(g.value) && e == Entry(g.value.GetOr(""), g.count)
    ensures !Blank(e.name) && e.count == CountWith(table, f, Some(e.name))
    ensures exists k :: 0 <= k < |table| && FieldOf(table[k], f) == Some(e.name)
  {
    var gs := GroupBy(table, f);
    var g :| g in gs && NotBlank(g.value) && e == Entry(g.value.GetOr(""), g.count);
    var m :| 0 <= m < |gs| && gs[m] == g;
    assert g.value == Some(e.name);
    assert g.value in DistinctValues(table, f);
  }

  datatype Aggregates = Aggregates(subjects: seq<Entry>, grades: seq<Entry>, topics: seq<Entry>, subTopics: seq<Entry>)

  /** The answer: `total` and `items` of the page and the aggregates, or a
      query the database refuses (a negative `skip`). */
  datatype Outcome = Found(total: nat, items: seq<Item>, aggregates: Aggregates) | Refused

  /** `(Number(page) - 1) * Number(pageSize)`. */
  function Skip(req: Request): int {
    (PageOf(req) - 1) * PageSizeOf(req)
  }

  /** The items of one page, each shaped by `ToItem`: for a `take` of zero
      or more, the rows from `skip` on, at most `take`; for a negative
      `take`, at most `-take` rows ending `skip` rows before the end. */
  function PageItems(rows: seq<Presentation>, skip: nat, take: int): (items: seq<Item>)
    ensures |items| == if skip >= |rows| then 0 else Min(Abs(take), |rows| - skip)
    ensures forall i :: 0 <= i < |items| ==> items[i] == ToItem(PageRows(rows, skip, take)[i])
  {
    ToItems(PageRows(rows, skip, take))
  }

  /** `rows.map(toItem)`. */
  function ToItems(rows: seq<Presentation>): (items: seq<Item>)
    ensures |items| == |rows|
    ensures forall i :: 0 <= i < |items| ==> items[i] == ToItem(rows[i])
  {
    if rows == [] then [] else [ToItem(rows[0])] + ToItems(rows[1..])
  }

  /** The handler. The database refuses the query when `skip` is negative;
      otherwise `total` counts every matching row whatever the page, and the
      items are the page's rows in result order. */
  function Post(table: seq<Presentation>, req: Request): (out: Outcome)
    ensures out.Found? <==> Skip(req) >= 0
    ensures out.Found? ==> out.total == |Ordered(table, req)|
    ensures out.Found? ==> |out.items| <= Abs(PageSizeOf(req))
  {
    var skip := Skip(req);
    if skip < 0 then Refused
    else
      var rows := Ordered(table, req);
      var take := PageSizeOf(req);
      var items := PageItems(rows, skip, take);
      assert |items| <= Abs(take);
      Found(
        Count(table, Where(req)),
        items,
        Aggregates(TitledAgg(table, Subject), TitledAgg(table, Grade), RawAgg(table, Topic), RawAgg(table, SubTopic)))
  }

  /** The route's status and answer. The handler catches nothing: a table
      that cannot be read, or a query the database refuses, ends in the
      framework's status 500 with no answer; anything else is answered with
      status 200 and the handler's `Found` outcome. */
  datatype Reply = Reply(status: int, out: Outcome)

  function Serve(store: Store, req: Request): (reply: Reply)
    ensures reply.status == 200 <==> store.Reachable? && Skip(req) >= 0
    ensures reply.status != 200 ==> reply.status == 500 && reply.out.Refused?
    ensures store.Reachable? ==> reply.out == Post(store.table, req)
  {
    match store
    case Failing => Reply(500, Refused)
    case Reachable(table) =>
      var out := Post(table, req);
      if out.Found? then Reply(200, out) else Reply(500, Refused)
  }

  /** The items of an answer are the page of the ordered matches: from
      `skip` on for a page size of zero or more, and counted from the end
      for a negative one (`PageItems`). */
  lemma PostItems(table: seq<Presentation>, req: Request)
    requires Post(table, req).Found?
    ensures Post(table, req).items == PageItems(Ordered(table, req), Skip(req), PageSizeOf(req))
  {
  }

  /** The aggregates ignore the request: they count the whole table, not the
      matching rows, so the subject and grade counts add up to every row and
      the topic and sub-topic counts to every row with a non-blank value. */
  lemma PostAggregates(table: seq<Presentation>, req: Request)
    requires Post(table, req).Found?
    ensures var a := Post(table, req).aggregates;
      && SumCounts(a.subjects) == |table| && SumCounts(a.grades) == |table|
      && SumCounts(a.topics) == RowCount(table, Topic, NotBlank)
      && SumCounts(a.subTopics) == RowCount(table, SubTopic, NotBlank)
      && (forall i :: 0 <= i < |a.subjects| ==> TitleCase(a.subjects[i].name) == a.subjects[i].name)
      && (forall i :: 0 <= i < |a.topics| ==> !Blank(a.topics[i].name))
  {
    TitledAggFacts(table, Subject);
    TitledAggFacts(table, Grade);
    RawAggFacts(table, Topic);
    RawAggFacts(table, SubTopic);
    var a := Post(table, req).aggregates;
    forall i | 0 <= i < |a.topics| ensures !Blank(a.topics[i].name) {
      assert a.topics[i] in RawAgg(table, Topic);
    }
  }

  /** `GET` answers 405 with a hint. */
  function Get(): (r: (int, string))
    ensures r.0 == 405
  {
    (405, "Use POST with JSON body.")
  }
}
