/**
 * `GET /api/meta/topics`: the topics of the rows that match the subject and
 * grade lists and the text `q`, title-cased, with their row counts.
 */
module Topics {
  import opened Wrappers
  import opened Text
  import opened Catalog
  import opened Facets
  import opened QueryParams
  import opened Listing

  /** Builds `where.AND`: the topic is neither null nor empty, then one
      condition per non-empty list, then the text condition for a non-empty
      `q`. The rows it selects are exactly the listed ones. */
  method Where(subjects: seq<string>, grades: seq<string>, q: string) returns (where: seq<Cond>)
    ensures where == Conds(Topic, subjects, grades, [], q)
    ensures forall r :: Holds(AllOf(where), r) <==> Listed(r, Topic, subjects, grades, [], q)
  {
    where := [NotNullOrEmpty(Topic)];
    if |subjects| > 0 {
      where := where + [InInsensitive(Subject, subjects)];
    }
    if |grades| > 0 {
      where := where + [InInsensitive(Grade, grades)];
    }
    if q != "" {
      where := where + [ContainsInsensitive(Topic, q)];
    }
    assert where == Conds(Topic, subjects, grades, [], q);
    forall r ensures Holds(AllOf(where), r) <==> Listed(r, Topic, subjects, grades, [], q) {
      CondsMeans(Topic, subjects, grades, [], q, r);
    }
  }

  /** What the list for a query promises: `Answered` for the query's subject
      and grade lists, its trimmed lower-cased `q` and its capped `limit`.
      `number` is JavaScript's `Number` on the `limit` text. */
  ghost predicate Answers(table: seq<Presentation>, sp: Params, number: string -> Num, rows: seq<Entry>) {
    Answered(table, Topic, ReadList(sp, "subjects"), ReadList(sp, "grades"), [],
             Lower(Trim(GetFirst(sp, "q").GetOr(""))), Limit(GetFirst(sp, "limit"), number), rows)
  }

  /** The groups of the rows the query lists, in value order, shaped and cut
      at the query's `limit`. */
  function ListFor(table: seq<Presentation>, sp: Params, number: string -> Num): seq<Entry> {
    Answer(table, AllOf(Conds(Topic, ReadList(sp, "subjects"), ReadList(sp, "grades"), [],
                              Lower(Trim(GetFirst(sp, "q").GetOr(""))))),
           Topic, Limit(GetFirst(sp, "limit"), number))
  }

  /** The list a reachable table answers with: `ListFor` the query, so
      `AnswerInValueOrder` gives its order and exact length and
      `AnswerCovers` the values it keeps. */
  method List(table: seq<Presentation>, sp: Params, number: string -> Num) returns (rows: seq<Entry>)
    ensures rows == ListFor(table, sp, number)
    ensures Answers(table, sp, number, rows)
  {
    var q := Lower(Trim(GetFirst(sp, "q").GetOr("")));
    var limit := Limit(GetFirst(sp, "limit"), number);
    var subjects := ReadList(sp, "subjects");
    var grades := ReadList(sp, "grades");
    var where := Where(subjects, grades, q);
    rows := Answer(table, AllOf(where), Topic, limit);
    assert rows == ListFor(table, sp, number);
    ListForAnswers(table, sp, number);
  }

  /** The list a query asks for keeps every promise of `Answers`. */
  lemma ListForAnswers(table: seq<Presentation>, sp: Params, number: string -> Num)
    ensures Answers(table, sp, number, ListFor(table, sp, number))
  {
    CondsAnswered(table, Topic, ReadList(sp, "subjects"), ReadList(sp, "grades"), [],
                  Lower(Trim(GetFirst(sp, "q").GetOr(""))), Limit(GetFirst(sp, "limit"), number));
  }

  /** The route's answer: status 500 and an error object when the table
      fails, otherwise status 200 and the list the query asks for. */
  method Get(store: Store, sp: Params, number: string -> Num) returns (resp: Response)
    ensures store.Failing? ==> resp == Response(500, Error("Failed to load topics"))
    ensures store.Reachable? ==>
      && resp.status == 200 && resp.body.Rows?
      && resp.body.rows == ListFor(store.table, sp, number)
      && Answers(store.table, sp, number, resp.body.rows)
  {
    match store {
      case Failing =>
        resp := Response(500, Error("Failed to load topics"));
      case Reachable(table) =>
        var rows := List(table, sp, number);
        resp := Response(200, Rows(rows));
    }
  }
}
