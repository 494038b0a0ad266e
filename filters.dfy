/**
 * `GET /api/meta/filters`: the subject and grade facets of the filter popup,
 * both through `buildList`, which title-cases each group's value, merges
 * values that agree ignoring case, and sorts by name. A failing database
 * read still answers 200, with two empty lists.
 */
module Filters {
  import opened Text
  import opened Sorting
  import opened Catalog
  import opened Facets

  /** `buildList(rows, key)`: names are title-cased, non-empty and distinct
      ignoring case, each count is the total of the rows whose title-cased
      value matches it ignoring case, no kept count is lost, and the list is
      in name order. */
  method BuildList(rows: seq<Group>) returns (list: seq<Entry>)
    ensures Merged(rows, TitleOf, Lower, AnyValue, |rows|, list)
    ensures forall i :: 0 <= i < |list| ==> TitleCase(list[i].name) == list[i].name
    ensures forall i, j :: 0 <= i < j < |list| ==> StrLe(list[i].name, list[j].name)
  {
    var merged := Merge(rows, TitleOf, Lower, AnyValue);
    list := Sort(merged, ByName);
    SortKeepsMerge(rows, TitleOf, Lower, AnyValue, merged, ByName);
    TitledNames(list, rows, |rows|);
    ByNameTotalPreorder();
    SortSorted(merged, ByName);
    ByNameAscending(list);
  }

  /** `{ subjects, grades }` with the response status. */
  datatype Response = Response(status: int, subjects: seq<Entry>, grades: seq<Entry>)

  /** The route: both facets from the table, or two empty lists when the
      database read fails; the status is 200 either way. */
  method Get(store: Store) returns (r: Response)
    ensures r.status == 200
    ensures store.Failing? ==> r.subjects == [] && r.grades == []
    ensures store.Reachable? ==>
      var subjects := GroupBy(store.table, Subject);
      var grades := GroupBy(store.table, Grade);
      && Merged(subjects, TitleOf, Lower, AnyValue, |subjects|, r.subjects)
      && Merged(grades, TitleOf, Lower, AnyValue, |grades|, r.grades)
      && (forall i :: 0 <= i < |r.subjects| ==>
            r.subjects[i].count == RowCount(store.table, Subject, HasKey(TitleOf, Lower, AnyValue, Lower(r.subjects[i].name))))
      && (forall i :: 0 <= i < |r.grades| ==>
            r.grades[i].count == RowCount(store.table, Grade, HasKey(TitleOf, Lower, AnyValue, Lower(r.grades[i].name))))
      && (forall i, j :: 0 <= i < j < |r.subjects| ==> StrLe(r.subjects[i].name, r.subjects[j].name))
      && (forall i, j :: 0 <= i < j < |r.grades| ==> StrLe(r.grades[i].name, r.grades[j].name))
  {
    match store
    case Failing =>
      r := Response(200, [], []);
    case Reachable(table) =>
      var subjects := BuildList(GroupBy(table, Subject));
      var grades := BuildList(GroupBy(table, Grade));
      MergedCountsRows(table, Subject, TitleOf, Lower, AnyValue, subjects);
      MergedCountsRows(table, Grade, TitleOf, Lower, AnyValue, grades);
      r := Response(200, subjects, grades);
  }
}
