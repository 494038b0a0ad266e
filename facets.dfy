/**
 * The loop the facet routes share: walk the grouped rows, name each one,
 * skip empty labels, and accumulate `{ name, count }` in a `Map` keyed by a
 * function of the name, so that rows with the same key become one entry
 * whose count is the sum of theirs. The `Map` keeps insertion order, and a
 * `set` on an existing key replaces the entry in place.
 */
module Facets {
  import opened Wrappers
  import opened Sorting
  import opened Catalog

  /** `titleCase(s)`, where `String(s || "")` turns `null` into "". */
  function TitleOf(v: Option<string>): string {
    Text.TitleCase(v.GetOr(""))
  }

  /** `_count._all`: every row of a group counts. */
  predicate AnyValue(v: Option<string>) {
    true
  }

  /** `_count: { f: true }`: only rows whose column is not null count. */
  predicate NonNull(v: Option<string>) {
    v.Some?
  }

  /** A group's count as the route reads it. */
  function Weight(g: Group, counted: Option<string> -> bool): nat {
    if counted(g.value) then g.count else 0
  }

  /** `{ name, count }`, one facet value in a route's response. */
  datatype Entry = Entry(name: string, count: nat)

  function SumCounts(es: seq<Entry>): nat {
    if es == [] then 0 else es[0].count + SumCounts(es[1..])
  }

  /** Whether the loop keeps a row: its name is not empty. */
  predicate Kept(g: Group, nameOf: Option<string> -> string) {
    nameOf(g.value) != ""
  }

  /** The summed counts of the kept rows whose name has key `k`. */
  function KeyTotal(rows: seq<Group>, nameOf: Option<string> -> string, key: string -> string,
                    counted: Option<string> -> bool, k: string): nat
    decreases |rows|
  {
    if rows == [] then 0
    else
      var g := rows[|rows| - 1];
      KeyTotal(rows[..|rows| - 1], nameOf, key, counted, k) +
        (if Kept(g, nameOf) && key(nameOf(g.value)) == k then Weight(g, counted) else 0)
  }

  /** The summed counts of all kept rows. */
  function KeptTotal(rows: seq<Group>, nameOf: Option<string> -> string, counted: Option<string> -> bool): nat
    decreases |rows|
  {
    if rows == [] then 0
    else
      var g := rows[|rows| - 1];
      KeptTotal(rows[..|rows| - 1], nameOf, counted) + (if Kept(g, nameOf) then Weight(g, counted) else 0)
  }

  /** The labels of the first `n` rows. */
  function LabelsOf(rows: seq<Group>, nameOf: Option<string> -> string, n: int): set<string>
    requires 0 <= n <= |rows|
  {
    set m | 0 <= m < n :: nameOf(rows[m].value)
  }

  function KeysOf(es: seq<Entry>, key: string -> string): set<string> {
    set i | 0 <= i < |es| :: key(es[i].name)
  }

  /** The position of the entry with key `k`, or `|es|` when there is none. */
  function IndexOfKey(es: seq<Entry>, key: string -> string, k: string): (j: nat)
    ensures j <= |es|
    ensures j < |es| ==> key(es[j].name) == k
    ensures j == |es| ==> forall i :: 0 <= i < |es| ==> key(es[i].name) != k
  {
    if es == [] then 0
    else if key(es[0].name) == k then 0
    else 1 + IndexOfKey(es[1..], key, k)
  }

  /** `map.get(k)` on the `Map` held as its insertion-ordered entries. */
  function MapGet(es: seq<Entry>, key: string -> string, k: string): (r: Option<Entry>)
    ensures r.Some? <==> k in KeysOf(es, key)
    ensures r.Some? ==> r.value in es && key(r.value.name) == k
  {
    var j := IndexOfKey(es, key, k);
    if j < |es| then Some(es[j]) else None
  }

  /** `map.set(key(e.name), e)`: replaces the entry with that key where it
      stands, or appends `e`. */
  function MapSet(es: seq<Entry>, key: string -> string, e: Entry): (r: seq<Entry>)
    ensures KeysOf(r, key) == KeysOf(es, key) + {key(e.name)}
    ensures e in r
  {
    var j := IndexOfKey(es, key, key(e.name));
    if j < |es| then
      UpdateKeys(es, key, j, e);
      assert es[j := e][j] == e;
      es[j := e]
    else
      AppendKeys(es, key, e);
      es + [e]
  }

  lemma {:induction false} SumCountsAppend(es: seq<Entry>, e: Entry)
    ensures SumCounts(es + [e]) == SumCounts(es) + e.count
    decreases |es|
  {
    if es != [] {
      assert (es + [e])[1..] == es[1..] + [e];
      SumCountsAppend(es[1..], e);
    }
  }

  lemma {:induction false} SumCountsUpdate(es: seq<Entry>, j: int, e: Entry)
    requires 0 <= j < |es|
    ensures SumCounts(es[j := e]) + es[j].count == SumCounts(es) + e.count
    decreases |es|
  {
    if j > 0 {
      assert es[j := e][1..] == es[1..][j - 1 := e];
      SumCountsUpdate(es[1..], j - 1, e);
    }
  }

  ghost predicate DistinctKeys(es: seq<Entry>, key: string -> string) {
    forall i, j :: 0 <= i < j < |es| ==> key(es[i].name) != key(es[j].name)
  }

  /** Every entry's name is the non-empty name of one of the first `n` rows. */
  ghost predicate NamedFrom(es: seq<Entry>, rows: seq<Group>, nameOf: Option<string> -> string, n: int)
    requires 0 <= n <= |rows|
  {
    forall i :: 0 <= i < |es| ==> es[i].name != "" && es[i].name in LabelsOf(rows, nameOf, n)
  }

  /** Every entry's count is the total of the rows with its key. */
  ghost predicate Tallied(es: seq<Entry>, rows: seq<Group>, nameOf: Option<string> -> string,
                          key: string -> string, counted: Option<string> -> bool)
  {
    forall i :: 0 <= i < |es| ==> es[i].count == KeyTotal(rows, nameOf, key, counted, key(es[i].name))
  }

  /** Every kept row among the first `n` has an entry with its key. */
  ghost predicate Covered(es: seq<Entry>, rows: seq<Group>, nameOf: Option<string> -> string,
                          key: string -> string, n: int)
    requires 0 <= n <= |rows|
  {
    forall m :: 0 <= m < n && Kept(rows[m], nameOf) ==> key(nameOf(rows[m].value)) in KeysOf(es, key)
  }

  /** `es` is what the merge loop holds after the first `n` rows: keys are
      distinct, names come from those rows, every entry carries the total of
      its key, and every kept row's key has an entry. */
  ghost predicate Merged(rows: seq<Group>, nameOf: Option<string> -> string, key: string -> string,
                           counted: Option<string> -> bool, n: int, es: seq<Entry>)
  {
    && 0 <= n <= |rows|
    && DistinctKeys(es, key)
    && NamedFrom(es, rows, nameOf, n)
    && Tallied(es, rows[..n], nameOf, key, counted)
    && Covered(es, rows, nameOf, key, n)
    && SumCounts(es) == KeptTotal(rows[..n], nameOf, counted)
  }

  lemma KeyTotalStep(rows: seq<Group>, nameOf: Option<string> -> string, key: string -> string,
                     counted: Option<string> -> bool, n: int, k: string)
    requires 0 <= n < |rows|
    ensures KeyTotal(rows[..n + 1], nameOf, key, counted, k) ==
      KeyTotal(rows[..n], nameOf, key, counted, k)
        + (if Kept(rows[n], nameOf) && key(nameOf(rows[n].value)) == k then Weight(rows[n], counted) else 0)
  {
    assert rows[..n + 1][..n] == rows[..n];
  }

  lemma KeptTotalStep(rows: seq<Group>, nameOf: Option<string> -> string, counted: Option<string> -> bool, n: int)
    requires 0 <= n < |rows|
    ensures KeptTotal(rows[..n + 1], nameOf, counted) ==
      KeptTotal(rows[..n], nameOf, counted) + (if Kept(rows[n], nameOf) then Weight(rows[n], counted) else 0)
  {
    assert rows[..n + 1][..n] == rows[..n];
  }

  lemma LabelsStep(rows: seq<Group>, nameOf: Option<string> -> string, n: int)
    requires 0 <= n < |rows|
    ensures LabelsOf(rows, nameOf, n + 1) == LabelsOf(rows, nameOf, n) + {nameOf(rows[n].value)}
  {
  }

  /** A row with an empty name changes nothing. */
  lemma StepSkip(rows: seq<Group>, nameOf: Option<string> -> string, key: string -> string,
                 counted: Option<string> -> bool, n: int, es: seq<Entry>)
    requires Merged(rows, nameOf, key, counted, n, es) && n < |rows| && !Kept(rows[n], nameOf)
    ensures Merged(rows, nameOf, key, counted, n + 1, es)
  {
    LabelsStep(rows, nameOf, n);
    KeptTotalStep(rows, nameOf, counted, n);
    forall i | 0 <= i < |es|
      ensures es[i].count == KeyTotal(rows[..n + 1], nameOf, key, counted, key(es[i].name))
    {
      KeyTotalStep(rows, nameOf, key, counted, n, key(es[i].name));
    }
  }

  lemma UpdateKeys(es: seq<Entry>, key: string -> string, j: int, e: Entry)
    requires 0 <= j < |es| && key(e.name) == key(es[j].name)
    ensures KeysOf(es[j := e], key) == KeysOf(es, key)
  {
    var es' := es[j := e];
    forall x | x in KeysOf(es, key) ensures x in KeysOf(es', key) {
      var i :| 0 <= i < |es| && key(es[i].name) == x;
      assert key(es'[i].name) == x;
    }
  }

  lemma AppendKeys(es: seq<Entry>, key: string -> string, e: Entry)
    ensures KeysOf(es + [e], key) == KeysOf(es, key) + {key(e.name)}
  {
    var es' := es + [e];
    forall x | x in KeysOf(es, key) ensures x in KeysOf(es', key) {
      var i :| 0 <= i < |es| && key(es[i].name) == x;
      assert key(es'[i].name) == x;
    }
    assert key(es'[|es|].name) == key(e.name);
  }

  /** A row whose key has an entry adds its counted to that entry and renames it. */
  lemma StepUpdate(rows: seq<Group>, nameOf: Option<string> -> string, key: string -> string,
                   counted: Option<string> -> bool, n: int, es: seq<Entry>, j: int)
    requires Merged(rows, nameOf, key, counted, n, es) && n < |rows| && Kept(rows[n], nameOf)
    requires 0 <= j < |es| && key(es[j].name) == key(nameOf(rows[n].value))
    ensures Merged(rows, nameOf, key, counted, n + 1,
                     es[j := Entry(nameOf(rows[n].value), es[j].count + Weight(rows[n], counted))])
  {
    var name := nameOf(rows[n].value);
    var e := Entry(name, es[j].count + Weight(rows[n], counted));
    var es' := es[j := e];
    assert forall i :: 0 <= i < |es'| ==> key(es'[i].name) == key(es[i].name);
    assert DistinctKeys(es', key);
    assert NamedFrom(es', rows, nameOf, n + 1) by {
      LabelsStep(rows, nameOf, n);
    }
    assert Tallied(es', rows[..n + 1], nameOf, key, counted) by {
      forall i | 0 <= i < |es'|
        ensures es'[i].count == KeyTotal(rows[..n + 1], nameOf, key, counted, key(es'[i].name))
      {
        KeyTotalStep(rows, nameOf, key, counted, n, key(es'[i].name));
      }
    }
    assert Covered(es', rows, nameOf, key, n + 1) by {
      UpdateKeys(es, key, j, e);
    }
    assert SumCounts(es') == KeptTotal(rows[..n + 1], nameOf, counted) by {
      KeptTotalStep(rows, nameOf, counted, n);
      SumCountsUpdate(es, j, e);
    }
  }

  /** A row with a new key appends an entry. */
  lemma StepAppend(rows: seq<Group>, nameOf: Option<string> -> string, key: string -> string,
                   counted: Option<string> -> bool, n: int, es: seq<Entry>)
    requires Merged(rows, nameOf, key, counted, n, es) && n < |rows| && Kept(rows[n], nameOf)
    requires forall i :: 0 <= i < |es| ==> key(es[i].name) != key(nameOf(rows[n].value))
    ensures Merged(rows, nameOf, key, counted, n + 1, es + [Entry(nameOf(rows[n].value), Weight(rows[n], counted))])
  {
    var name := nameOf(rows[n].value);
    var e := Entry(name, Weight(rows[n], counted));
    var es' := es + [e];
    LabelsStep(rows, nameOf, n);
    KeptTotalStep(rows, nameOf, counted, n);
    SumCountsAppend(es, e);
    AppendKeys(es, key, e);
    KeyTotalStep(rows, nameOf, key, counted, n, key(name));
    assert key(name) !in KeysOf(es, key);
    TotalAbsent(rows, nameOf, key, counted, n, KeysOf(es, key), key(name));
    forall i | 0 <= i < |es|
      ensures es'[i].count == KeyTotal(rows[..n + 1], nameOf, key, counted, key(es'[i].name))
    {
      KeyTotalStep(rows, nameOf, key, counted, n, key(es[i].name));
    }
  }

  /** When every kept row among the first `n` has its key in `ks`, a key
      outside `ks` totals 0. */
  lemma {:induction false} TotalAbsent(rows: seq<Group>, nameOf: Option<string> -> string,
                                       key: string -> string, counted: Option<string> -> bool, n: int,
                                       ks: set<string>, k: string)
    requires 0 <= n <= |rows|
    requires forall m :: 0 <= m < n && Kept(rows[m], nameOf) ==> key(nameOf(rows[m].value)) in ks
    requires k !in ks
    ensures KeyTotal(rows[..n], nameOf, key, counted, k) == 0
    decreases n
  {
    if n > 0 {
      TotalAbsent(rows, nameOf, key, counted, n - 1, ks, k);
      KeyTotalStep(rows, nameOf, key, counted, n - 1, k);
    }
  }

  /** `map.get(k)?.count || 0`. */
  function PrevCount(es: seq<Entry>, key: string -> string, k: string): nat {
    match MapGet(es, key, k)
    case Some(p) => p.count
    case None => 0
  }

  /** A kept row: `map.set` with the previous count plus the row's counted. */
  lemma StepKept(rows: seq<Group>, nameOf: Option<string> -> string, key: string -> string,
                 counted: Option<string> -> bool, n: int, es: seq<Entry>, e: Entry)
    requires Merged(rows, nameOf, key, counted, n, es) && n < |rows| && Kept(rows[n], nameOf)
    requires e.name == nameOf(rows[n].value)
    requires e.count == PrevCount(es, key, key(e.name)) + Weight(rows[n], counted)
    ensures Merged(rows, nameOf, key, counted, n + 1, MapSet(es, key, e))
  {
    var j := IndexOfKey(es, key, key(e.name));
    if j < |es| {
      assert MapSet(es, key, e) == es[j := e];
      assert e == Entry(nameOf(rows[n].value), es[j].count + Weight(rows[n], counted));
      StepUpdate(rows, nameOf, key, counted, n, es, j);
    } else {
      assert MapSet(es, key, e) == es + [e];
      assert e == Entry(nameOf(rows[n].value), Weight(rows[n], counted));
      StepAppend(rows, nameOf, key, counted, n, es);
    }
  }

  /** The merge loop. Keys of the result are distinct, every name is the
      name of some row, each entry's count is the total of the rows with its
      key, every kept row's key has an entry, and no count is lost. */
  method Merge(rows: seq<Group>, nameOf: Option<string> -> string, key: string -> string,
               counted: Option<string> -> bool)
    returns (es: seq<Entry>)
    ensures Merged(rows, nameOf, key, counted, |rows|, es)
  {
    es := [];
    var n := 0;
    while n < |rows|
      invariant Merged(rows, nameOf, key, counted, n, es)
    {
      var g := rows[n];
      var name := nameOf(g.value);
      if name != "" {
        var prev := MapGet(es, key, key(name));
        var e := Entry(name, (if prev.Some? then prev.value.count else 0) + Weight(g, counted));
        StepKept(rows, nameOf, key, counted, n, es, e);
        es := MapSet(es, key, e);
      } else {
        StepSkip(rows, nameOf, key, counted, n, es);
      }
      n := n + 1;
    }
  }

  lemma {:induction false} SumCountsInsert(x: Entry, ys: seq<Entry>, le: (Entry, Entry) -> bool)
    ensures SumCounts(Insert(x, ys, le)) == x.count + SumCounts(ys)
    decreases |ys|
  {
    if ys != [] && !le(x, ys[0]) {
      SumCountsInsert(x, ys[1..], le);
    }
  }

  /** Sorting the entries keeps the total count. */
  lemma {:induction false} SumCountsSort(es: seq<Entry>, le: (Entry, Entry) -> bool)
    ensures SumCounts(Sort(es, le)) == SumCounts(es)
    decreases |es|
  {
    if es != [] {
      SumCountsSort(es[1..], le);
      SumCountsInsert(es[0], Sort(es[1..], le), le);
    }
  }

  /** Ordering by name, `a.name.localeCompare(b.name)` as ordinal order. */
  predicate ByName(a: Entry, b: Entry) {
    Text.StrLe(a.name, b.name)
  }

  lemma ByNameTotalPreorder()
    ensures TotalPreorder(ByName)
  {
    forall a: Entry, b: Entry ensures ByName(a, b) || ByName(b, a) {
      Text.StrLeTotal(a.name, b.name);
    }
    forall a: Entry, b: Entry, c: Entry | ByName(a, b) && ByName(b, c) ensures ByName(a, c) {
      Text.StrLeTransitive(a.name, b.name, c.name);
    }
  }

  /** After the whole loop, a key with no entry has no kept row: its total is 0. */
  lemma MergeAbsent(rows: seq<Group>, nameOf: Option<string> -> string, key: string -> string,
                    counted: Option<string> -> bool, es: seq<Entry>, k: string)
    requires Merged(rows, nameOf, key, counted, |rows|, es)
    requires k !in KeysOf(es, key)
    ensures KeyTotal(rows, nameOf, key, counted, k) == 0
  {
    TotalAbsent(rows, nameOf, key, counted, |rows|, KeysOf(es, key), k);
    assert rows[..|rows|] == rows;
  }

  /** Entries drawn from a merged list keep their names and counts. */
  lemma DrawnKeeps(rows: seq<Group>, nameOf: Option<string> -> string, key: string -> string,
                   counted: Option<string> -> bool, es: seq<Entry>, s: seq<Entry>)
    requires NamedFrom(es, rows, nameOf, |rows|) && Tallied(es, rows, nameOf, key, counted)
    requires forall x :: x in s ==> x in es
    ensures NamedFrom(s, rows, nameOf, |rows|) && Tallied(s, rows, nameOf, key, counted)
  {
    forall i | 0 <= i < |s|
      ensures s[i].name != "" && s[i].name in LabelsOf(rows, nameOf, |rows|)
      ensures s[i].count == KeyTotal(rows, nameOf, key, counted, key(s[i].name))
    {
      assert s[i] in es;
      var m :| 0 <= m < |es| && es[m] == s[i];
    }
  }

  lemma SortKeepsKeys(es: seq<Entry>, key: string -> string, le: (Entry, Entry) -> bool)
    ensures KeysOf(Sort(es, le), key) == KeysOf(es, key)
  {
    var s := Sort(es, le);
    SortMembers(es, le);
    forall x | x in KeysOf(es, key) ensures x in KeysOf(s, key) {
      var i :| 0 <= i < |es| && key(es[i].name) == x;
      assert es[i] in s;
      var m :| 0 <= m < |s| && s[m] == es[i];
    }
    forall x | x in KeysOf(s, key) ensures x in KeysOf(es, key) {
      var i :| 0 <= i < |s| && key(s[i].name) == x;
      assert s[i] in es;
      var m :| 0 <= m < |es| && es[m] == s[i];
    }
  }

  lemma SortKeepsDistinct(es: seq<Entry>, key: string -> string, le: (Entry, Entry) -> bool)
    requires DistinctKeys(es, key)
    ensures DistinctKeys(Sort(es, le), key)
  {
    var byKey := (e: Entry) => key(e.name);
    assert DistinctBy(es, byKey);
    SortDistinct(es, le, byKey);
  }

  /** Sorting the merged entries keeps every fact the loop established. */
  lemma SortKeepsMerge(rows: seq<Group>, nameOf: Option<string> -> string, key: string -> string,
                       counted: Option<string> -> bool, es: seq<Entry>, le: (Entry, Entry) -> bool)
    requires Merged(rows, nameOf, key, counted, |rows|, es)
    ensures Merged(rows, nameOf, key, counted, |rows|, Sort(es, le))
  {
    assert rows[..|rows|] == rows;
    SortKeepsDistinct(es, key, le);
    SumCountsSort(es, le);
    SortMembers(es, le);
    DrawnKeeps(rows, nameOf, key, counted, es, Sort(es, le));
    SortKeepsKeys(es, key, le);
  }

  /** Names drawn from title-cased rows are `titleCase` fixpoints. */
  lemma TitledNames(es: seq<Entry>, rows: seq<Group>, n: int)
    requires 0 <= n <= |rows| && NamedFrom(es, rows, TitleOf, n)
    ensures forall i :: 0 <= i < |es| ==> Text.TitleCase(es[i].name) == es[i].name
  {
    forall i | 0 <= i < |es| ensures Text.TitleCase(es[i].name) == es[i].name {
      var m :| 0 <= m < n && TitleOf(rows[m].value) == es[i].name;
      Text.TitleCaseIdempotent(rows[m].value.GetOr(""));
    }
  }

  /** Sorted by `ByName`: names ascend. */
  lemma ByNameAscending(es: seq<Entry>)
    requires Sorted(es, ByName)
    ensures forall i, j :: 0 <= i < j < |es| ==> Text.StrLe(es[i].name, es[j].name)
  {
  }

  /** The values whose rows count towards the entry with key `k`. */
  function HasKey(nameOf: Option<string> -> string, key: string -> string,
                  counted: Option<string> -> bool, k: string): Option<string> -> bool
  {
    v => nameOf(v) != "" && key(nameOf(v)) == k && counted(v)
  }

  /** The values whose rows count at all. */
  function Counts(nameOf: Option<string> -> string, counted: Option<string> -> bool): Option<string> -> bool
  {
    v => nameOf(v) != "" && counted(v)
  }

  lemma {:induction false} KeyTotalIsGroupSum(rows: seq<Group>, nameOf: Option<string> -> string,
                                              key: string -> string, counted: Option<string> -> bool, k: string)
    ensures KeyTotal(rows, nameOf, key, counted, k) == GroupSum(rows, HasKey(nameOf, key, counted, k))
    decreases |rows|
  {
    if rows != [] {
      KeyTotalIsGroupSum(rows[..|rows| - 1], nameOf, key, counted, k);
    }
  }

  lemma {:induction false} KeptTotalIsGroupSum(rows: seq<Group>, nameOf: Option<string> -> string,
                                               counted: Option<string> -> bool)
    ensures KeptTotal(rows, nameOf, counted) == GroupSum(rows, Counts(nameOf, counted))
    decreases |rows|
  {
    if rows != [] {
      KeptTotalIsGroupSum(rows[..|rows| - 1], nameOf, counted);
    }
  }

  /** A merge of a whole `groupBy` counts table rows: each entry's count is
      the number of rows whose value names it (by key) and is counted, and
      the counts add up to all such rows. */
  lemma MergedCountsRows(table: seq<Presentation>, f: Field, nameOf: Option<string> -> string,
                         key: string -> string, counted: Option<string> -> bool, es: seq<Entry>)
    requires Merged(GroupBy(table, f), nameOf, key, counted, |GroupBy(table, f)|, es)
    ensures forall i :: 0 <= i < |es| ==>
      es[i].count == RowCount(table, f, HasKey(nameOf, key, counted, key(es[i].name)))
    ensures SumCounts(es) == RowCount(table, f, Counts(nameOf, counted))
  {
    var rows := GroupBy(table, f);
    assert rows[..|rows|] == rows;
    forall i | 0 <= i < |es|
      ensures es[i].count == RowCount(table, f, HasKey(nameOf, key, counted, key(es[i].name)))
    {
      KeyTotalIsGroupSum(rows, nameOf, key, counted, key(es[i].name));
      GroupByCounts(table, f, HasKey(nameOf, key, counted, key(es[i].name)));
    }
    KeptTotalIsGroupSum(rows, nameOf, counted);
    GroupByCounts(table, f, Counts(nameOf, counted));
  }
}
