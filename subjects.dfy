/**
 * `GET /api/meta/subjects`: the subject facet. Each group's subject is
 * title-cased; blank ones are skipped; subjects that agree ignoring case
 * are merged with their `_count.subject` summed; the list is sorted by name.
 */
module Subjects {
  import opened Text
  import opened Sorting
  import opened Catalog
  import opened Facets

  /** Names are title-cased, non-empty and distinct ignoring case; each count
      is the number of rows whose subject title-cases to that name ignoring
      case; no kept count is lost; and the list is in name order. */
  method List(table: seq<Presentation>) returns (list: seq<Entry>)
    ensures var rows := GroupBy(table, Subject);
      Merged(rows, TitleOf, Lower, NonNull, |rows|, list)
    ensures forall i :: 0 <= i < |list| ==>
      list[i].count == RowCount(table, Subject, HasKey(TitleOf, Lower, NonNull, Lower(list[i].name)))
    ensures SumCounts(list) == RowCount(table, Subject, Counts(TitleOf, NonNull))
    ensures forall i :: 0 <= i < |list| ==> TitleCase(list[i].name) == list[i].name
    ensures forall i, j :: 0 <= i < j < |list| ==> StrLe(list[i].name, list[j].name)
  {
    var rows := GroupBy(table, Subject);
    var merged := Merge(rows, TitleOf, Lower, NonNull);
    list := Sort(merged, ByName);
    SortKeepsMerge(rows, TitleOf, Lower, NonNull, merged, ByName);
    MergedCountsRows(table, Subject, TitleOf, Lower, NonNull, list);
    TitledNames(list, rows, |rows|);
    ByNameTotalPreorder();
    SortSorted(merged, ByName);
    ByNameAscending(list);
  }

  /** The route's answer. The route has no error handler: a failing table
      read ends in the framework's status 500 and no list is sent; a
      reachable table is answered with status 200 and `List`'s list. */
  method Get(store: Store) returns (status: int, list: seq<Entry>)
    ensures store.Failing? ==> status == 500 && list == []
    ensures store.Reachable? ==>
      var rows := GroupBy(store.table, Subject);
      && status == 200
      && Merged(rows, TitleOf, Lower, NonNull, |rows|, list)
      && SumCounts(list) == RowCount(store.table, Subject, Counts(TitleOf, NonNull))
      && (forall i :: 0 <= i < |list| ==> TitleCase(list[i].name) == list[i].name)
      && (forall i, j :: 0 <= i < j < |list| ==> StrLe(list[i].name, list[j].name))
  {
    match store {
      case Failing =>
        status, list := 500, [];
      case Reachable(table) =>
        list := List(table);
        status := 200;
    }
  }

}
