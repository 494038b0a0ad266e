/**
 * The one `Presentation` table every route reads, the Prisma `where`
 * conditions the routes build over it, and Prisma's `groupBy`.
 */
module Catalog {
  import opened Wrappers
  import opened Text

  /** A row of the `Presentation` table, with the columns the routes read.
      `null` columns are `None`. */
  datatype Presentation = Presentation(
    id: int,
    slug: string,
    name: Option<string>,
    subject: Option<string>,
    grade: Option<string>,
    topic: Option<string>,
    subTopic: Option<string>,
    content: Option<string>,
    thumbnail: Option<string>,
    thumbnailAlt: Option<string>,
    rating: Option<int>,
    reviews: Option<int>)

  /** The table: ids are unique (the primary key). */
  ghost predicate UniqueIds(table: seq<Presentation>) {
    forall i, j :: 0 <= i < j < |table| ==> table[i].id != table[j].id
  }

  /** The text columns a condition can name. */
  datatype Field = Name | Subject | Grade | Topic | SubTopic | Content

  function FieldOf(r: Presentation, f: Field): Option<string> {
    match f
    case Name => r.name
    case Subject => r.subject
    case Grade => r.grade
    case Topic => r.topic
    case SubTopic => r.subTopic
    case Content => r.content
  }

  /** A Prisma `where` object. */
  datatype Cond =
    | Always                                  // `{}`
    | NotNullOrEmpty(f: Field)                // `{ NOT: [{ f: null }, { f: "" }] }`
    | In(f: Field, xs: seq<string>)           // `{ f: { in: xs } }`
    | InInsensitive(f: Field, xs: seq<string>)      // `{ f: { in: xs, mode: "insensitive" } }`
    | ContainsInsensitive(f: Field, q: string)      // `{ f: { contains: q, mode: "insensitive" } }`
    | AnyOf(cs: seq<Cond>)                    // `{ OR: cs }`
    | AllOf(cs: seq<Cond>)                    // `{ AND: cs }`

  /** Case-insensitive membership of `v` in `xs`. */
  predicate InsensitiveIn(v: string, xs: seq<string>) {
    exists x :: x in xs && Lower(x) == Lower(v)
  }

  /** `v` contains `q`, ignoring case. */
  predicate ContainsIgnoringCase(v: string, q: string) {
    Contains(Lower(v), Lower(q))
  }

  /** What the database makes of a condition on one row; a `null` column
      satisfies no comparison. */
  predicate Holds(c: Cond, r: Presentation)
    decreases c
  {
    match c
    case Always => true
    case NotNullOrEmpty(f) => FieldOf(r, f).Some? && FieldOf(r, f).value != ""
    case In(f, xs) => FieldOf(r, f).Some? && FieldOf(r, f).value in xs
    case InInsensitive(f, xs) => FieldOf(r, f).Some? && InsensitiveIn(FieldOf(r, f).value, xs)
    case ContainsInsensitive(f, q) => FieldOf(r, f).Some? && ContainsIgnoringCase(FieldOf(r, f).value, q)
    case AnyOf(cs) => exists k :: 0 <= k < |cs| && Holds(cs[k], r)
    case AllOf(cs) => forall k :: 0 <= k < |cs| ==> Holds(cs[k], r)
  }

  /** `where.AND.push(c)`: the conjunction gains one more conjunct. */
  lemma AllOfPush(cs: seq<Cond>, c: Cond, r: Presentation)
    ensures Holds(AllOf(cs + [c]), r) <==> Holds(AllOf(cs), r) && Holds(c, r)
  {
    assert forall k :: 0 <= k < |cs| ==> (cs + [c])[k] == cs[k];
    assert (cs + [c])[|cs|] == c;
  }

  /** Reading the table either succeeds or throws. */
  datatype Store = Reachable(table: seq<Presentation>) | Failing

  /** The rows a `where` selects, in table order (`findMany` without `orderBy`). */
  function Select(table: seq<Presentation>, c: Cond): (rs: seq<Presentation>)
    ensures |rs| <= |table|
    ensures forall r :: r in rs <==> r in table && Holds(c, r)
  {
    if table == [] then []
    else (if Holds(c, table[0]) then [table[0]] else []) + Select(table[1..], c)
  }

  /** `count({ where })`: the number of rows that satisfy `c`. */
  function Count(table: seq<Presentation>, c: Cond): (n: nat)
    ensures n <= |table|
  {
    |Select(table, c)|
  }

  /** The count is zero exactly when no row satisfies `c`, and the table's
      length exactly when every row does; in between, `SelectCounts` says
      which rows it counts and how often. */
  lemma CountBounds(table: seq<Presentation>, c: Cond)
    ensures Count(table, c) == 0 <==> forall i :: 0 <= i < |table| ==> !Holds(c, table[i])
    ensures Count(table, c) == |table| <==> forall i :: 0 <= i < |table| ==> Holds(c, table[i])
  {
    SelectKeepsAll(table, c);
    var rs := Select(table, c);
    assert rs != [] ==> rs[0] in rs;
    assert forall i :: 0 <= i < |table| && Holds(c, table[i]) ==> table[i] in rs;
  }

  /** `Select` keeps every row that satisfies `c` as often as the table
      holds it, and drops every other row. */
  lemma {:induction false} SelectCounts(table: seq<Presentation>, c: Cond)
    ensures forall r :: multiset(Select(table, c))[r] == if Holds(c, r) then multiset(table)[r] else 0
  {
    if table != [] {
      SelectCounts(table[1..], c);
      var head := if Holds(c, table[0]) then [table[0]] else [];
      var rest := Select(table[1..], c);
      assert Select(table, c) == head + rest;
      assert multiset(Select(table, c)) == multiset(head) + multiset(rest);
      assert table == [table[0]] + table[1..];
      assert multiset(table) == multiset{table[0]} + multiset(table[1..]);
    }
  }

  /** `Select` keeps the whole table exactly when every row satisfies `c`. */
  lemma {:induction false} SelectKeepsAll(table: seq<Presentation>, c: Cond)
    ensures |Select(table, c)| == |table| <==> forall i :: 0 <= i < |table| ==> Holds(c, table[i])
  {
    if table != [] {
      SelectKeepsAll(table[1..], c);
      var rest := Select(table[1..], c);
      assert |rest| <= |table| - 1;
      assert forall i :: 1 <= i < |table| ==> table[i] == table[1..][i - 1];
      if !Holds(c, table[0]) {
        assert |Select(table, c)| == |rest|;
      } else {
        assert Select(table, c) == [table[0]] + rest;
      }
    }
  }

  /** The number of rows whose column `f` is `v`. */
  function CountWith(table: seq<Presentation>, f: Field, v: Option<string>): (n: nat)
    ensures n <= |table|
  {
    if table == [] then 0
    else (if FieldOf(table[0], f) == v then 1 else 0) + CountWith(table[1..], f, v)
  }

  lemma {:induction false} CountWithPositive(table: seq<Presentation>, f: Field, k: int)
    requires 0 <= k < |table|
    ensures CountWith(table, f, FieldOf(table[k], f)) > 0
    decreases |table|
  {
    if k > 0 {
      CountWithPositive(table[1..], f, k - 1);
    }
  }

  /** The distinct values of column `f`, in order of first occurrence. */
  function DistinctValues(table: seq<Presentation>, f: Field): (vs: seq<Option<string>>)
    ensures |vs| <= |table|
    ensures forall i, j :: 0 <= i < j < |vs| ==> vs[i] != vs[j]
    ensures forall v :: v in vs <==> exists k :: 0 <= k < |table| && FieldOf(table[k], f) == v
    decreases |table|
  {
    if table == [] then []
    else
      var rest := table[..|table| - 1];
      var vs := DistinctValues(rest, f);
      var v := FieldOf(table[|table| - 1], f);
      assert forall k :: 0 <= k < |rest| ==> rest[k] == table[k];
      if v in vs then vs else vs + [v]
  }

  /** One group of a `groupBy`: the column value (`null` included) and
      `_count._all`. */
  datatype Group = Group(value: Option<string>, count: nat)

  /** `groupBy({ by: [f], _count: { _all: true } })`: one group per distinct
      value of the column, with the number of rows holding it. */
  function GroupBy(table: seq<Presentation>, f: Field): (gs: seq<Group>)
    ensures |gs| <= |table|
    ensures forall i, j :: 0 <= i < j < |gs| ==> gs[i].value != gs[j].value
    ensures forall i :: 0 <= i < |gs| ==>
      gs[i].count == CountWith(table, f, gs[i].value) && gs[i].count > 0
    ensures forall k :: 0 <= k < |table| ==>
      exists i :: 0 <= i < |gs| && gs[i].value == FieldOf(table[k], f)
  {
    var vs := DistinctValues(table, f);
    var gs := seq(|vs|, i requires 0 <= i < |vs| => Group(vs[i], CountWith(table, f, vs[i])));
    forall i | 0 <= i < |gs| ensures gs[i].count > 0 {
      assert vs[i] in vs;
      var k :| 0 <= k < |table| && FieldOf(table[k], f) == vs[i];
      CountWithPositive(table, f, k);
    }
    forall k | 0 <= k < |table| ensures exists i :: 0 <= i < |gs| && gs[i].value == FieldOf(table[k], f) {
      var v := FieldOf(table[k], f);
      assert v in vs;
      var i :| 0 <= i < |vs| && vs[i] == v;
      assert gs[i].value == v;
    }
    gs
  }

  /** The summed counts of the groups whose value satisfies `p`. */
  function GroupSum(gs: seq<Group>, p: Option<string> -> bool): nat
    decreases |gs|
  {
    if gs == [] then 0
    else GroupSum(gs[..|gs| - 1], p) + (if p(gs[|gs| - 1].value) then gs[|gs| - 1].count else 0)
  }

  /** The number of rows whose column `f` satisfies `p`. */
  function RowCount(table: seq<Presentation>, f: Field, p: Option<string> -> bool): nat {
    if table == [] then 0
    else (if p(FieldOf(table[0], f)) then 1 else 0) + RowCount(table[1..], f, p)
  }

  /** The summed row counts of the values in `vs` that satisfy `p`. */
  function ValueSum(vs: seq<Option<string>>, table: seq<Presentation>, f: Field,
                    p: Option<string> -> bool): nat
    decreases |vs|
  {
    if vs == [] then 0
    else
      var v := vs[|vs| - 1];
      ValueSum(vs[..|vs| - 1], table, f, p) + (if p(v) then CountWith(table, f, v) else 0)
  }

  ghost predicate DistinctSeq<T>(vs: seq<T>) {
    forall i, j :: 0 <= i < j < |vs| ==> vs[i] != vs[j]
  }

  /** Membership in a distinct sequence splits into its initial part and
      its last element, which the initial part does not hold. */
  lemma LastSplit<T>(vs: seq<T>, x: T)
    requires vs != [] && DistinctSeq(vs)
    ensures x in vs <==> x in vs[..|vs| - 1] || x == vs[|vs| - 1]
    ensures vs[|vs| - 1] !in vs[..|vs| - 1]
  {
    assert vs == vs[..|vs| - 1] + [vs[|vs| - 1]];
  }

  /** Dropping the first row of the table takes its value's share off the sum. */
  lemma {:induction false} ValueSumFirstRow(vs: seq<Option<string>>, table: seq<Presentation>, f: Field,
                                            p: Option<string> -> bool)
    requires table != [] && DistinctSeq(vs)
    ensures ValueSum(vs, table, f, p) ==
      ValueSum(vs, table[1..], f, p) + (if p(FieldOf(table[0], f)) && FieldOf(table[0], f) in vs then 1 else 0)
    decreases |vs|
  {
    if vs != [] {
      var init := vs[..|vs| - 1];
      var last := vs[|vs| - 1];
      var x := FieldOf(table[0], f);
      assert DistinctSeq(init);
      ValueSumFirstRow(init, table, f, p);
      LastSplit(vs, x);
      assert CountWith(table, f, last) == (if x == last then 1 else 0) + CountWith(table[1..], f, last);
    }
  }

  /** Summing the row counts over distinct values that cover the table counts
      the rows whose value satisfies `p`. */
  lemma {:induction false} ValueSumCovers(vs: seq<Option<string>>, table: seq<Presentation>, f: Field,
                                          p: Option<string> -> bool)
    requires DistinctSeq(vs)
    requires forall k :: 0 <= k < |table| ==> FieldOf(table[k], f) in vs
    ensures ValueSum(vs, table, f, p) == RowCount(table, f, p)
    decreases |table|
  {
    if table == [] {
      ValueSumEmpty(vs, table, f, p);
    } else {
      ValueSumFirstRow(vs, table, f, p);
      assert FieldOf(table[0], f) in vs;
      ValueSumCovers(vs, table[1..], f, p);
    }
  }

  lemma {:induction false} ValueSumEmpty(vs: seq<Option<string>>, table: seq<Presentation>, f: Field,
                                         p: Option<string> -> bool)
    requires table == []
    ensures ValueSum(vs, table, f, p) == 0
    decreases |vs|
  {
    if vs != [] {
      ValueSumEmpty(vs[..|vs| - 1], table, f, p);
    }
  }

  lemma {:induction false} GroupSumPrefix(table: seq<Presentation>, f: Field, p: Option<string> -> bool, n: int)
    requires 0 <= n <= |GroupBy(table, f)|
    ensures GroupSum(GroupBy(table, f)[..n], p) == ValueSum(DistinctValues(table, f)[..n], table, f, p)
    decreases n
  {
    var gs := GroupBy(table, f);
    var vs := DistinctValues(table, f);
    if n > 0 {
      GroupSumPrefix(table, f, p, n - 1);
      assert gs[..n][..n - 1] == gs[..n - 1];
      assert vs[..n][..n - 1] == vs[..n - 1];
    }
  }

  /** `groupBy` loses no row: the counts of the groups whose value satisfies
      `p` add up to the number of rows whose value satisfies `p`. */
  lemma GroupByCounts(table: seq<Presentation>, f: Field, p: Option<string> -> bool)
    ensures GroupSum(GroupBy(table, f), p) == RowCount(table, f, p)
  {
    var gs := GroupBy(table, f);
    var vs := DistinctValues(table, f);
    GroupSumPrefix(table, f, p, |gs|);
    assert gs[..|gs|] == gs;
    assert vs[..|vs|] == vs;
    forall k | 0 <= k < |table| ensures FieldOf(table[k], f) in vs {
    }
    ValueSumCovers(vs, table, f, p);
  }
}
