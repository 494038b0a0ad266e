/**
 * `GET /api/meta/grades`: the grade facet. Raw grade values are mapped onto
 * a fixed list of canonical grades through an alias table, merged by
 * canonical name with their counts summed, and ordered by the pedagogical
 * order, unknown grades last in name order.
 */
module Grades {
  import opened Wrappers
  import opened Text
  import opened Sorting
  import opened Catalog
  import opened Facets

  /** The pedagogical order of the canonical grades. */
  const Order: seq<string> := [
    "Pre-K", "Kindergarten", "First Grade", "Second Grade", "Third Grade", "Fourth Grade",
    "Fifth Grade", "Sixth Grade", "Seventh Grade", "Eighth Grade", "High School"]

  const PreKAliases: seq<string> := ["pre k", "pre-k", "prek", "pk", "prekindergarten"]

  const KindergartenAliases: seq<string> := ["k", "kg", "kinder", "kindergarten", "kingdergardon"]

  /** The alias object for the numbered grades and high school, keyed by the
      trimmed lower-cased raw value. */
  const GradeAliases: map<string, string> := map[
    "1st grade" := "First Grade", "first grade" := "First Grade",
    "2nd grade" := "Second Grade", "second grade" := "Second Grade",
    "3rd grade" := "Third Grade", "third grade" := "Third Grade",
    "4th grade" := "Fourth Grade", "fourth grade" := "Fourth Grade",
    "5th grade" := "Fifth Grade", "fifth grade" := "Fifth Grade",
    "6th grade" := "Sixth Grade", "sixth grade" := "Sixth Grade",
    "7th grade" := "Seventh Grade", "seventh grade" := "Seventh Grade",
    "8th grade" := "Eighth Grade", "eighth grade" := "Eighth Grade",
    "high school" := "High School"]

  /** The lookup key: `String(raw || "").trim().toLowerCase()`. */
  function GradeKey(raw: Option<string>): string {
    Lower(Trim(raw.GetOr("")))
  }

  /** Whether the alias tables know a lookup key. */
  predicate IsAlias(s: string) {
    s in PreKAliases || s in KindergartenAliases || s in GradeAliases
  }

  /** The canonical grade the alias tables give a lookup key. */
  function Canonical(s: string): (r: Option<string>)
    ensures r.Some? <==> IsAlias(s)
  {
    if s in PreKAliases then Some("Pre-K")
    else if s in KindergartenAliases then Some("Kindergarten")
    else if s in GradeAliases then Some(GradeAliases[s])
    else None
  }

  /** Every alias names a canonical grade. */
  lemma CanonicalInOrder(s: string)
    ensures Canonical(s).Some? ==> Canonical(s).value in Order
  {
  }

  /** `normalizeGrade`: "" for a blank value, the canonical grade for an
      alias, otherwise the title-cased raw value. The alias object is read
      as its own entries only (see "Left out" in the README). */
  function NormalizeGrade(raw: Option<string>): string {
    var s := GradeKey(raw);
    if s == "" then ""
    else match Canonical(s)
      case Some(c) => c
      case None => TitleCase(raw.GetOr(""))
  }

  lemma GradeKeyEmpty(raw: Option<string>)
    ensures GradeKey(raw) == "" <==> Blank(raw.GetOr(""))
  {
  }

  /** Every canonical grade is non-empty. */
  lemma CanonicalNonEmpty(s: string)
    ensures Canonical(s).Some? ==> Canonical(s).value != ""
  {
    CanonicalInOrder(s);
  }

  /** `normalizeGrade` is "" exactly for a null, empty or whitespace value. */
  lemma NormalizeGradeEmpty(raw: Option<string>)
    ensures NormalizeGrade(raw) == "" <==> Blank(raw.GetOr(""))
  {
    GradeKeyEmpty(raw);
    var s := GradeKey(raw);
    if s != "" {
      CanonicalNonEmpty(s);
      TitleCaseShape(raw.GetOr(""));
    }
  }

  /** The fallback title case depends on the lookup key only. */
  lemma TitleCaseOfKey(raw: Option<string>)
    ensures TitleCase(raw.GetOr("")) == Capitalize(Collapse(GradeKey(raw)))
  {
  }

  /** Case and surrounding whitespace do not matter to `normalizeGrade`. */
  lemma NormalizeGradeCaseless(a: Option<string>, b: Option<string>)
    requires GradeKey(a) == GradeKey(b)
    ensures NormalizeGrade(a) == NormalizeGrade(b)
  {
    TitleCaseOfKey(a);
    TitleCaseOfKey(b);
  }

  lemma EmptyNotAlias()
    ensures !IsAlias("")
  {
    assert "" !in GradeAliases;
  }

  /** Every alias yields a member of `Order`. */
  lemma NormalizeGradeAlias(raw: Option<string>)
    ensures IsAlias(GradeKey(raw)) ==> NormalizeGrade(raw) in Order
  {
    var s := GradeKey(raw);
    if IsAlias(s) {
      EmptyNotAlias();
      CanonicalInOrder(s);
    }
  }

  /** Any other non-blank value falls back to its title case. */
  lemma NormalizeGradeFallback(raw: Option<string>)
    ensures GradeKey(raw) != "" && !IsAlias(GradeKey(raw)) ==> NormalizeGrade(raw) == TitleCase(raw.GetOr(""))
  {
  }

  /** `ORDER.indexOf(name)`, with `|Order|` for -1. */
  function Rank(name: string): (k: nat)
    ensures k <= |Order|
    ensures k < |Order| <==> name in Order
    ensures k < |Order| ==> Order[k] == name
  {
    RankFrom(Order, name, 0)
  }

  /** The first index at or after `i` holding `name` in `order`, or `|order|`. */
  function RankFrom(order: seq<string>, name: string, i: nat): (k: nat)
    requires i <= |order|
    ensures i <= k <= |order|
    ensures k < |order| <==> name in order[i..]
    ensures k < |order| ==> order[k] == name
    decreases |order| - i
  {
    if i == |order| then |order|
    else if order[i] == name then i
    else RankFrom(order, name, i + 1)
  }

  /** The comparator of the sort: both unknown by name, an unknown grade
      after a known one, known grades by their index in `Order`. */
  predicate GradeLe(a: Entry, b: Entry) {
    if Rank(a.name) == |Order| && Rank(b.name) == |Order| then StrLe(a.name, b.name)
    else Rank(a.name) <= Rank(b.name)
  }

  lemma GradeLeTotalPreorder()
    ensures TotalPreorder(GradeLe)
  {
    forall a: Entry, b: Entry ensures GradeLe(a, b) || GradeLe(b, a) {
      StrLeTotal(a.name, b.name);
    }
    forall a: Entry, b: Entry, c: Entry | GradeLe(a, b) && GradeLe(b, c) ensures GradeLe(a, c) {
      if Rank(a.name) == |Order| && Rank(c.name) == |Order| {
        StrLeTransitive(a.name, b.name, c.name);
      }
    }
  }

  /** The identity: grades are merged by their canonical name itself. */
  function Verbatim(s: string): string { s }

  /** Under the comparator, known grades come in `Order` and before every
      unknown grade, and unknown grades come in name order. */
  lemma GradeOrdered(list: seq<Entry>)
    requires forall i, j :: 0 <= i < j < |list| ==> GradeLe(list[i], list[j])
    ensures forall i, j :: 0 <= i < j < |list| ==> Rank(list[i].name) <= Rank(list[j].name)
    ensures forall i, j :: 0 <= i < j < |list| && Rank(list[i].name) == |Order| ==>
      Rank(list[j].name) == |Order| && StrLe(list[i].name, list[j].name)
  {
  }

  /** The list for a reachable table: the grade groups normalised, merged by canonical
      name and ordered. Each count is the number of graded rows whose grade
      normalises to that name, every non-blank grade has an entry, and the
      list follows `Order`, with unknown grades last and in name order. */
  method List(table: seq<Presentation>) returns (list: seq<Entry>)
    ensures var rows := GroupBy(table, Grade);
      Merged(rows, NormalizeGrade, Verbatim, NonNull, |rows|, list)
    ensures forall i :: 0 <= i < |list| ==>
      list[i].count == RowCount(table, Grade, HasKey(NormalizeGrade, Verbatim, NonNull, list[i].name))
    ensures SumCounts(list) == RowCount(table, Grade, Counts(NormalizeGrade, NonNull))
    ensures forall i, j :: 0 <= i < j < |list| ==> Rank(list[i].name) <= Rank(list[j].name)
    ensures forall i, j :: 0 <= i < j < |list| && Rank(list[i].name) == |Order| ==>
      Rank(list[j].name) == |Order| && StrLe(list[i].name, list[j].name)
  {
    var rows := GroupBy(table, Grade);
    var combined := Merge(rows, NormalizeGrade, Verbatim, NonNull);
    list := Sort(combined, GradeLe);
    SortKeepsMerge(rows, NormalizeGrade, Verbatim, NonNull, combined, GradeLe);
    MergedCountsRows(table, Grade, NormalizeGrade, Verbatim, NonNull, list);
    GradeLeTotalPreorder();
    SortSorted(combined, GradeLe);
    GradeOrdered(list);
  }

  /** The route's answer. The route has no error handler: a failing table
      read ends in the framework's status 500 and no list is sent; a
      reachable table is answered with status 200 and `List`'s list. */
  method Get(store: Store) returns (status: int, list: seq<Entry>)
    ensures store.Failing? ==> status == 500 && list == []
    ensures store.Reachable? ==>
      var rows := GroupBy(store.table, Grade);
      && status == 200
      && Merged(rows, NormalizeGrade, Verbatim, NonNull, |rows|, list)
      && SumCounts(list) == RowCount(store.table, Grade, Counts(NormalizeGrade, NonNull))
      && (forall i, j :: 0 <= i < j < |list| ==> Rank(list[i].name) <= Rank(list[j].name))
  {
    match store {
      case Failing =>
        status, list := 500, [];
      case Reachable(table) =>
        list := List(table);
        status := 200;
    }
  }

}
