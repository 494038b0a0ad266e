/**
 * What the topic and sub-topic routes share: which rows they count, how a
 * sorted `groupBy` becomes the `{ name, count }` list, and the response.
 */
module Listing {
  import opened Wrappers
  import opened Text
  import opened Sorting
  import opened Catalog
  import opened Facets
  import opened QueryParams

  /** Case-insensitive membership of a nullable column in a list. */
  predicate MatchesList(v: Option<string>, xs: seq<string>) {
    xs == [] || (v.Some? && InsensitiveIn(v.value, xs))
  }

  /** The rows a topic or sub-topic list counts: column `f` is neither null
      nor empty, the subject, grade and topic are in their lists ignoring case
      (an empty list does not constrain), and column `f` contains `q`
      ignoring case when `q` is not empty. */
  predicate Listed(r: Presentation, f: Field, subjects: seq<string>, grades: seq<string>,
                   topics: seq<string>, q: string)
  {
    && FieldOf(r, f).Some? && FieldOf(r, f).value != ""
    && MatchesList(r.subject, subjects)
    && MatchesList(r.grade, grades)
    && MatchesList(r.topic, topics)
    && (q != "" ==> ContainsIgnoringCase(FieldOf(r, f).value, q))
  }

  /** The `where.AND` list the routes build for column `f`: `f` neither null
      nor empty, then one `in` condition per non-empty list, then the text
      condition for a non-empty `q`, each pushed in that order. */
  function Conds(f: Field, subjects: seq<string>, grades: seq<string>, topics: seq<string>,
                 q: string): seq<Cond>
  {
    var w1 := PushIf([NotNullOrEmpty(f)], |subjects| > 0, InInsensitive(Subject, subjects));
    var w2 := PushIf(w1, |grades| > 0, InInsensitive(Grade, grades));
    var w3 := PushIf(w2, |topics| > 0, InInsensitive(Topic, topics));
    PushIf(w3, q != "", ContainsInsensitive(f, q))
  }

  /** `if (b) where.AND.push(c)`. */
  function PushIf(w: seq<Cond>, b: bool, c: Cond): seq<Cond> {
    if b then w + [c] else w
  }

  /** Pushing the `in` condition of a non-empty list adds list membership. */
  lemma PushIn(w: seq<Cond>, fld: Field, xs: seq<string>, r: Presentation)
    ensures Holds(AllOf(PushIf(w, |xs| > 0, InInsensitive(fld, xs))), r) <==>
      Holds(AllOf(w), r) && MatchesList(FieldOf(r, fld), xs)
  {
    if |xs| > 0 {
      AllOfPush(w, InInsensitive(fld, xs), r);
    }
  }

  /** Pushing the text condition of a non-empty `q` adds containment. */
  lemma PushText(w: seq<Cond>, f: Field, q: string, r: Presentation)
    ensures Holds(AllOf(PushIf(w, q != "", ContainsInsensitive(f, q))), r) <==>
      Holds(AllOf(w), r) && (q != "" ==> FieldOf(r, f).Some? && ContainsIgnoringCase(FieldOf(r, f).value, q))
  {
    if q != "" {
      AllOfPush(w, ContainsInsensitive(f, q), r);
    }
  }

  /** The built list selects a row exactly when the row is listed. */
  lemma CondsMeans(f: Field, subjects: seq<string>, grades: seq<string>, topics: seq<string>,
                   q: string, r: Presentation)
    ensures Holds(AllOf(Conds(f, subjects, grades, topics, q)), r) <==> Listed(r, f, subjects, grades, topics, q)
  {
    var w0 := [NotNullOrEmpty(f)];
    assert Holds(AllOf(w0), r) <==> Holds(NotNullOrEmpty(f), r) by {
      assert w0[0] == NotNullOrEmpty(f);
    }
    var w1 := PushIf(w0, |subjects| > 0, InInsensitive(Subject, subjects));
    var w2 := PushIf(w1, |grades| > 0, InInsensitive(Grade, grades));
    var w3 := PushIf(w2, |topics| > 0, InInsensitive(Topic, topics));
    PushIn(w0, Subject, subjects, r);
    PushIn(w1, Grade, grades, r);
    PushIn(w2, Topic, topics, r);
    PushText(w3, f, q, r);
  }

  /** The number of listed rows whose column `f` is `v`. */
  function ListedCount(table: seq<Presentation>, f: Field, subjects: seq<string>, grades: seq<string>,
                       topics: seq<string>, q: string, v: Option<string>): nat
  {
    if table == [] then 0
    else
      (if Listed(table[0], f, subjects, grades, topics, q) && FieldOf(table[0], f) == v then 1 else 0)
      + ListedCount(table[1..], f, subjects, grades, topics, q, v)
  }

  /** Grouping the rows a `where` equivalent to `Listed` selects counts the
      listed rows with each value. */
  lemma {:induction false} SelectListedCount(table: seq<Presentation>, c: Cond, f: Field,
                                             subjects: seq<string>, grades: seq<string>,
                                             topics: seq<string>, q: string, v: Option<string>)
    requires forall r :: Holds(c, r) <==> Listed(r, f, subjects, grades, topics, q)
    ensures CountWith(Select(table, c), f, v) == ListedCount(table, f, subjects, grades, topics, q, v)
    decreases |table|
  {
    SelectCount(table, c, f, v);
    HoldingListed(table, c, f, subjects, grades, topics, q, v);
  }

  /** The rows of `table` that satisfy `c` and hold `v` in column `f`. */
  function CountHolding(table: seq<Presentation>, c: Cond, f: Field, v: Option<string>): nat {
    if table == [] then 0
    else (if Holds(c, table[0]) && FieldOf(table[0], f) == v then 1 else 0) + CountHolding(table[1..], c, f, v)
  }

  lemma {:induction false} SelectCount(table: seq<Presentation>, c: Cond, f: Field, v: Option<string>)
    ensures CountWith(Select(table, c), f, v) == CountHolding(table, c, f, v)
    decreases |table|
  {
    if table != [] {
      SelectCount(table[1..], c, f, v);
      var s := Select(table, c);
      var rest := Select(table[1..], c);
      var head: seq<Presentation> := if Holds(c, table[0]) then [table[0]] else [];
      assert s == head + rest;
      if head != [] {
        assert s[0] == table[0] && s[1..] == rest;
        assert CountWith(s, f, v) == (if FieldOf(table[0], f) == v then 1 else 0) + CountWith(rest, f, v);
      } else {
        assert s == rest;
        assert CountHolding(table, c, f, v) == CountHolding(table[1..], c, f, v);
      }
    }
  }

  lemma {:induction false} HoldingListed(table: seq<Presentation>, c: Cond, f: Field,
                                         subjects: seq<string>, grades: seq<string>,
                                         topics: seq<string>, q: string, v: Option<string>)
    requires forall r :: Holds(c, r) <==> Listed(r, f, subjects, grades, topics, q)
    ensures CountHolding(table, c, f, v) == ListedCount(table, f, subjects, grades, topics, q, v)
    decreases |table|
  {
    if table != [] {
      HoldingListed(table[1..], c, f, subjects, grades, topics, q, v);
      assert Holds(c, table[0]) <==> Listed(table[0], f, subjects, grades, topics, q);
    }
  }

  /** `orderBy: { f: "asc" }` on the grouped column (ordinal order; `null`
      reads as ""). */
  predicate ValueLe(a: Group, b: Group) {
    StrLe(a.value.GetOr(""), b.value.GetOr(""))
  }

  lemma ValueLeTotalPreorder()
    ensures TotalPreorder(ValueLe)
  {
    forall a: Group, b: Group ensures ValueLe(a, b) || ValueLe(b, a) {
      StrLeTotal(a.value.GetOr(""), b.value.GetOr(""));
    }
    forall a: Group, b: Group, c: Group | ValueLe(a, b) && ValueLe(b, c) ensures ValueLe(a, c) {
      StrLeTransitive(a.value.GetOr(""), b.value.GetOr(""), c.value.GetOr(""));
    }
  }

  /** `grouped.map(r => ({ name: titleCase(r.f), count: r._count._all }))
      .filter(r => r.name && r.name.trim().length > 0)`. */
  function Shape(gs: seq<Group>): (rows: seq<Entry>)
    ensures |rows| <= |gs|
  {
    if gs == [] then []
    else
      var e := Shaped(gs[0]);
      if e.name != "" then [e] + Shape(gs[1..]) else Shape(gs[1..])
  }

  /** The entry a group becomes. */
  function Shaped(g: Group): Entry {
    Entry(TitleOf(g.value), g.count)
  }

  /** Every group with a non-blank title becomes an entry, and every entry
      comes from such a group. */
  lemma {:induction false} ShapeMembers(gs: seq<Group>, e: Entry)
    ensures e in Shape(gs) <==> e.name != "" && exists j :: 0 <= j < |gs| && e == Shaped(gs[j])
    decreases |gs|
  {
    if gs != [] {
      var e0 := Shaped(gs[0]);
      assert e in Shape(gs) <==> (e0.name != "" && e == e0) || e in Shape(gs[1..]);
      ShapeMembers(gs[1..], e);
      var shaped := (g: Group) => Shaped(g);
      ImageIndexCons(gs, shaped, e);
      assert (exists j :: 0 <= j < |gs| && e == Shaped(gs[j])) <==> exists j :: 0 <= j < |gs| && e == shaped(gs[j]);
      assert (exists j :: 0 <= j < |gs[1..]| && e == Shaped(gs[1..][j])) <==>
        exists j :: 0 <= j < |gs[1..]| && e == shaped(gs[1..][j]);
    }
  }

  /** `y` is the image of some element exactly when it is the first
      element's or the image of some later element. */
  lemma ImageIndexCons<T, U>(xs: seq<T>, f: T -> U, y: U)
    requires xs != []
    ensures (exists j :: 0 <= j < |xs| && y == f(xs[j])) <==>
      y == f(xs[0]) || exists j :: 0 <= j < |xs[1..]| && y == f(xs[1..][j])
  {
    if y != f(xs[0]) && exists j :: 0 <= j < |xs| && y == f(xs[j]) {
      var j :| 0 <= j < |xs| && y == f(xs[j]);
      assert xs[1..][j - 1] == xs[j];
    }
    if exists j :: 0 <= j < |xs[1..]| && y == f(xs[1..][j]) {
      var j :| 0 <= j < |xs[1..]| && y == f(xs[1..][j]);
      assert xs[j + 1] == xs[1..][j];
    }
  }

  /** The names of the list are title-cased and never blank. */
  lemma ShapeTitled(gs: seq<Group>)
    ensures forall i :: 0 <= i < |Shape(gs)| ==>
      !Blank(Shape(gs)[i].name) && TitleCase(Shape(gs)[i].name) == Shape(gs)[i].name
  {
    var rows := Shape(gs);
    forall i | 0 <= i < |rows|
      ensures !Blank(rows[i].name) && TitleCase(rows[i].name) == rows[i].name
    {
      ShapeMembers(gs, rows[i]);
      var j :| 0 <= j < |gs| && rows[i] == Shaped(gs[j]);
      TitleCaseShape(gs[j].value.GetOr(""));
      TitleCaseIdempotent(gs[j].value.GetOr(""));
    }
  }

  /** The elements that satisfy `keep`, in order. */
  function Filter<T>(xs: seq<T>, keep: T -> bool): (ys: seq<T>)
    ensures |ys| <= |xs|
    ensures forall y :: y in ys ==> y in xs
  {
    if xs == [] then []
    else (if keep(xs[0]) then [xs[0]] else []) + Filter(xs[1..], keep)
  }

  /** The images under `f` of the elements that satisfy `keep`, in order. */
  function FilterMap<T, U>(xs: seq<T>, keep: T -> bool, f: T -> U): seq<U> {
    if xs == [] then []
    else (if keep(xs[0]) then [f(xs[0])] else []) + FilterMap(xs[1..], keep, f)
  }

  /** Filtering then mapping lines up the images with the kept elements. */
  lemma {:induction false} FilterMapAligned<T, U>(xs: seq<T>, keep: T -> bool, f: T -> U)
    ensures |FilterMap(xs, keep, f)| == |Filter(xs, keep)|
    ensures forall i :: 0 <= i < |Filter(xs, keep)| ==> FilterMap(xs, keep, f)[i] == f(Filter(xs, keep)[i])
  {
    if xs != [] {
      FilterMapAligned(xs[1..], keep, f);
      var m, k := FilterMap(xs[1..], keep, f), Filter(xs[1..], keep);
      if keep(xs[0]) {
        var fm, fk := FilterMap(xs, keep, f), Filter(xs, keep);
        assert fm == [f(xs[0])] + m && fk == [xs[0]] + k;
        forall i | 1 <= i < |fk| ensures fm[i] == f(fk[i]) {
          assert fm[i] == m[i - 1] && fk[i] == k[i - 1];
        }
      } else {
        assert FilterMap(xs, keep, f) == m && Filter(xs, keep) == k;
      }
    }
  }

  /** Dropping elements keeps an ordered sequence ordered. */
  lemma {:induction false} FilterSorted<T>(xs: seq<T>, keep: T -> bool, le: (T, T) -> bool)
    requires Sorted(xs, le)
    ensures Sorted(Filter(xs, keep), le)
  {
    if xs != [] {
      var rest := xs[1..];
      assert Sorted(rest, le) by {
        forall i, j | 0 <= i < j < |rest| ensures le(rest[i], rest[j]) {
          assert rest[i] == xs[i + 1] && rest[j] == xs[j + 1];
        }
      }
      FilterSorted(rest, keep, le);
      var ys := Filter(rest, keep);
      if keep(xs[0]) {
        var zs := [xs[0]] + ys;
        forall i, j | 0 <= i < j < |zs| ensures le(zs[i], zs[j]) {
          assert zs[j] == ys[j - 1] && zs[j] in rest;
          if i > 0 {
            assert zs[i] == ys[i - 1];
          } else {
            var k :| 0 <= k < |rest| && rest[k] == zs[j];
            assert xs[k + 1] == zs[j];
          }
        }
      }
    }
  }

  /** A group is kept when its title is not empty. */
  predicate Named(g: Group) {
    Shaped(g).name != ""
  }

  /** `Shape` keeps the named groups and shapes each. */
  lemma {:induction false} ShapeIsFilterMap(gs: seq<Group>)
    ensures Shape(gs) == FilterMap(gs, Named, Shaped)
  {
    if gs != [] {
      ShapeIsFilterMap(gs[1..]);
      var e := Shaped(gs[0]);
      if e.name != "" {
        assert Shape(gs) == [e] + Shape(gs[1..]);
      } else {
        assert Shape(gs) == Shape(gs[1..]);
      }
    }
  }

  /** The answer is in value order and a `limit` only cuts its tail: entry
      `i` is the shape of the `i`-th named group, and the named groups are
      ordered by value, so the entries that survive are those of the smallest
      values. */
  lemma AnswerInValueOrder(table: seq<Presentation>, c: Cond, f: Field, limit: int)
    ensures var kept := Filter(Sort(GroupBy(Select(table, c), f), ValueLe), Named);
      var rows := Answer(table, c, f, limit);
      && Sorted(kept, ValueLe) && |rows| <= |kept|
      && (limit >= 0 ==> |rows| == if limit < |kept| then limit else |kept|)
      && forall i :: 0 <= i < |rows| ==> rows[i] == Shaped(kept[i])
  {
    var sorted := Sort(GroupBy(Select(table, c), f), ValueLe);
    ValueLeTotalPreorder();
    SortSorted(GroupBy(Select(table, c), f), ValueLe);
    FilterSorted(sorted, Named, ValueLe);
    ShapeIsFilterMap(sorted);
    FilterMapAligned(sorted, Named, Shaped);
    var rows := Answer(table, c, f, limit);
    assert rows == SliceTo(Shape(sorted), limit);
  }

  /** What a topic or sub-topic list promises: at most `limit` entries for a
      non-negative `limit`; every name title-cased and never blank, and every
      count the number of listed rows holding one raw value with that title;
      and, when `limit` cannot cut the list (it is at least the table's
      length) or did not cut it (fewer than `limit` entries), a name for every
      listed row whose title is not blank. */
  ghost predicate Answered(table: seq<Presentation>, f: Field, subjects: seq<string>, grades: seq<string>,
                           topics: seq<string>, q: string, limit: int, rows: seq<Entry>)
  {
    && (limit >= 0 ==> |rows| <= limit)
    && (forall i :: 0 <= i < |rows| ==>
          && !Blank(rows[i].name) && TitleCase(rows[i].name) == rows[i].name && rows[i].count > 0
          && exists v :: TitleOf(v) == rows[i].name && rows[i].count == ListedCount(table, f, subjects, grades, topics, q, v))
    && (limit >= |table| || |rows| < limit ==>
          forall k :: 0 <= k < |table| && Listed(table[k], f, subjects, grades, topics, q) && TitleOf(FieldOf(table[k], f)) != "" ==>
            exists i :: 0 <= i < |rows| && rows[i].name == TitleOf(FieldOf(table[k], f)))
  }

  /** The list both routes answer with: the groups of the selected rows in
      value order, shaped, then `slice(0, limit)`. */
  function Answer(table: seq<Presentation>, c: Cond, f: Field, limit: int): seq<Entry> {
    SliceTo(Shape(Sort(GroupBy(Select(table, c), f), ValueLe)), limit)
  }

  /** An entry of the shaped sorted groups is the shape of one group. */
  lemma ShapeOfSorted(gs: seq<Group>, e: Entry)
    requires e in Shape(Sort(gs, ValueLe))
    ensures exists g :: g in gs && e == Shaped(g)
  {
    var sorted := Sort(gs, ValueLe);
    ShapeMembers(sorted, e);
    var j :| 0 <= j < |sorted| && e == Shaped(sorted[j]);
    SortedMember(gs, sorted[j]);
  }

  lemma SortedMember(gs: seq<Group>, g: Group)
    requires g in Sort(gs, ValueLe)
    ensures g in gs
  {
    SortMembers(gs, ValueLe);
  }

  /** A group of `groupBy` counts the rows holding its value, at least one. */
  lemma GroupMember(table: seq<Presentation>, f: Field, g: Group)
    requires g in GroupBy(table, f)
    ensures g.count == CountWith(table, f, g.value) && g.count > 0
  {
    var gs := GroupBy(table, f);
    var m :| 0 <= m < |gs| && gs[m] == g;
  }

  /** Each entry of the answer is a title-cased, non-blank group shape. */
  lemma AnswerShaped(table: seq<Presentation>, c: Cond, f: Field, limit: int, i: int)
    requires 0 <= i < |Answer(table, c, f, limit)|
    ensures var e := Answer(table, c, f, limit)[i];
      && !Blank(e.name) && TitleCase(e.name) == e.name
      && exists g :: g in GroupBy(Select(table, c), f) && e == Shaped(g)
  {
    var gs := GroupBy(Select(table, c), f);
    var shaped := Shape(Sort(gs, ValueLe));
    var e := Answer(table, c, f, limit)[i];
    assert e == shaped[i];
    ShapeTitled(Sort(gs, ValueLe));
    ShapeOfSorted(gs, e);
  }

  lemma AnswerEntry(table: seq<Presentation>, c: Cond, f: Field, subjects: seq<string>, grades: seq<string>,
                    topics: seq<string>, q: string, limit: int, i: int)
    requires forall r :: Holds(c, r) <==> Listed(r, f, subjects, grades, topics, q)
    requires 0 <= i < |Answer(table, c, f, limit)|
    ensures var e := Answer(table, c, f, limit)[i];
      && !Blank(e.name) && TitleCase(e.name) == e.name && e.count > 0
      && exists v :: TitleOf(v) == e.name && e.count == ListedCount(table, f, subjects, grades, topics, q, v)
  {
    var e := Answer(table, c, f, limit)[i];
    AnswerShaped(table, c, f, limit, i);
    var g :| g in GroupBy(Select(table, c), f) && e == Shaped(g);
    GroupMember(Select(table, c), f, g);
    SelectListedCount(table, c, f, subjects, grades, topics, q, g.value);
  }

  lemma AnswerCovers(table: seq<Presentation>, c: Cond, f: Field, subjects: seq<string>, grades: seq<string>,
                     topics: seq<string>, q: string, limit: int, k: int)
    requires forall r :: Holds(c, r) <==> Listed(r, f, subjects, grades, topics, q)
    requires |Shape(Sort(GroupBy(Select(table, c), f), ValueLe))| <= limit && 0 <= k < |table|
    requires Listed(table[k], f, subjects, grades, topics, q) && TitleOf(FieldOf(table[k], f)) != ""
    ensures var rows := Answer(table, c, f, limit);
      exists i :: 0 <= i < |rows| && rows[i].name == TitleOf(FieldOf(table[k], f))
  {
    var sel := Select(table, c);
    var gs := GroupBy(sel, f);
    var sorted := Sort(gs, ValueLe);
    var shaped := Shape(sorted);
    var rows := Answer(table, c, f, limit);
    assert rows == shaped;
    var g := GroupOfSelected(table, c, f, table[k]);
    ShapedInSorted(gs, g);
    var i :| 0 <= i < |shaped| && shaped[i] == Shaped(g);
  }

  /** A selected row's value has its group. */
  lemma GroupOfSelected(table: seq<Presentation>, c: Cond, f: Field, r: Presentation) returns (g: Group)
    requires r in table && Holds(c, r)
    ensures g in GroupBy(Select(table, c), f) && g.value == FieldOf(r, f)
  {
    var sel := Select(table, c);
    var gs := GroupBy(sel, f);
    assert r in sel;
    var k :| 0 <= k < |sel| && sel[k] == r;
    var m :| 0 <= m < |gs| && gs[m].value == FieldOf(sel[k], f);
    g := gs[m];
  }

  /** A group with a non-empty shaped name has its entry in the shaped
      sorted list. */
  lemma ShapedInSorted(gs: seq<Group>, g: Group)
    requires g in gs && Shaped(g).name != ""
    ensures Shaped(g) in Shape(Sort(gs, ValueLe))
  {
    var sorted := Sort(gs, ValueLe);
    SortMembers(gs, ValueLe);
    assert g in sorted;
    var j :| 0 <= j < |sorted| && sorted[j] == g;
    ShapeMembers(sorted, Shaped(g));
  }

  /** The answer to the conditions `Conds` builds keeps every promise of
      `Answered` for the same lists, text and limit. */
  lemma CondsAnswered(table: seq<Presentation>, f: Field, subjects: seq<string>, grades: seq<string>,
                      topics: seq<string>, q: string, limit: int)
    ensures Answered(table, f, subjects, grades, topics, q, limit,
                     Answer(table, AllOf(Conds(f, subjects, grades, topics, q)), f, limit))
  {
    var c := AllOf(Conds(f, subjects, grades, topics, q));
    forall r ensures Holds(c, r) <==> Listed(r, f, subjects, grades, topics, q) {
      CondsMeans(f, subjects, grades, topics, q, r);
    }
    AnswerAnswered(table, c, f, subjects, grades, topics, q, limit);
  }

  /** The answer keeps every promise of `Answered`. */
  lemma AnswerAnswered(table: seq<Presentation>, c: Cond, f: Field, subjects: seq<string>, grades: seq<string>,
                       topics: seq<string>, q: string, limit: int)
    requires forall r :: Holds(c, r) <==> Listed(r, f, subjects, grades, topics, q)
    ensures Answered(table, f, subjects, grades, topics, q, limit, Answer(table, c, f, limit))
  {
    var rows := Answer(table, c, f, limit);
    forall i | 0 <= i < |rows|
      ensures && !Blank(rows[i].name) && TitleCase(rows[i].name) == rows[i].name && rows[i].count > 0
              && exists v :: TitleOf(v) == rows[i].name && rows[i].count == ListedCount(table, f, subjects, grades, topics, q, v)
    {
      AnswerEntry(table, c, f, subjects, grades, topics, q, limit, i);
    }
    var shaped := Shape(Sort(GroupBy(Select(table, c), f), ValueLe));
    if limit >= |table| || |rows| < limit {
      assert |shaped| <= limit by {
        if limit >= |table| {
          assert |shaped| <= |GroupBy(Select(table, c), f)| <= |Select(table, c)| <= |table|;
        }
      }
      forall k | 0 <= k < |table| && Listed(table[k], f, subjects, grades, topics, q) && TitleOf(FieldOf(table[k], f)) != ""
        ensures exists i :: 0 <= i < |rows| && rows[i].name == TitleOf(FieldOf(table[k], f))
      {
        AnswerCovers(table, c, f, subjects, grades, topics, q, limit, k);
      }
    }
  }

  /** The JSON body: the list, or `{ error }`. */
  datatype Body = Rows(rows: seq<Entry>) | Error(error: string)

  datatype Response = Response(status: int, body: Body)
}
