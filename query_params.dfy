/**
 * Reading a request's query string, as the topic and sub-topic routes do:
 * `readList` for the list filters, the capped `limit`, and the final
 * `Array.prototype.slice(0, limit)`.
 */
module QueryParams {
  import opened Wrappers
  import opened Text

  /** A `URLSearchParams`: its `key=value` pairs in order. */
  type Params = seq<(string, string)>

  /** `sp.getAll(key)`: every value of `key`, in order. */
  function GetAll(sp: Params, key: string): (vs: seq<string>)
    ensures |vs| <= |sp|
  {
    if sp == [] then []
    else (if sp[0].0 == key then [sp[0].1] else []) + GetAll(sp[1..], key)
  }

  /** `sp.get(key)`: the first value of `key`, or `null`. */
  function GetFirst(sp: Params, key: string): (r: Option<string>)
    ensures r.Some? <==> GetAll(sp, key) != []
    ensures r.Some? ==> r.value == GetAll(sp, key)[0]
  {
    if sp == [] then None
    else if sp[0].0 == key then Some(sp[0].1)
    else GetFirst(sp[1..], key)
  }

  /** `values.flatMap(v => String(v).split(","))`. */
  function SplitAll(vs: seq<string>): (parts: seq<string>)
    ensures forall k :: 0 <= k < |parts| ==> ',' !in parts[k]
  {
    if vs == [] then [] else Split(vs[0], ',') + SplitAll(vs[1..])
  }

  /** `readList(sp, key)`: the comma-separated items of every value of `key`,
      trimmed and without empty ones; the single-value branch only runs when
      `getAll` finds nothing. */
  function ReadList(sp: Params, key: string): (r: seq<string>)
    ensures forall k :: 0 <= k < |r| ==> CleanItem(r[k])
  {
    var repeated := GetAll(sp, key);
    var csv := Trim(GetFirst(sp, key).GetOr(""));
    CleanPartsItems(SplitAll(repeated), ',');
    CsvItemsClean(csv);
    if |repeated| > 0 then CleanParts(SplitAll(repeated))
    else if csv != "" then CsvItems(csv)
    else []
  }

  /** An absent key reads as the empty list. */
  lemma ReadListAbsent(sp: Params, key: string)
    requires GetAll(sp, key) == []
    ensures ReadList(sp, key) == []
  {
  }

  /** With `URLSearchParams`, `get` is the first of `getAll`, so the list is
      always read from the repeated values: their items in occurrence order. */
  lemma ReadListFromRepeated(sp: Params, key: string)
    ensures ReadList(sp, key) == CleanParts(SplitAll(GetAll(sp, key)))
  {
  }

  /** The parameters `key=x` for each item of `xs`, in order. */
  function Repeated(key: string, xs: seq<string>): (sp: Params)
    ensures |sp| == |xs|
    ensures forall k :: 0 <= k < |xs| ==> sp[k] == (key, xs[k])
  {
    if xs == [] then [] else [(key, xs[0])] + Repeated(key, xs[1..])
  }

  lemma {:induction false} GetAllRepeated(key: string, xs: seq<string>)
    ensures GetAll(Repeated(key, xs), key) == xs
    decreases |xs|
  {
    if xs != [] {
      GetAllRepeated(key, xs[1..]);
    }
  }

  lemma {:induction false} SplitAllPlain(xs: seq<string>)
    requires forall k :: 0 <= k < |xs| ==> ',' !in xs[k]
    ensures SplitAll(xs) == xs
    decreases |xs|
  {
    if xs != [] {
      SplitJoin([xs[0]], ',');
      SplitAllPlain(xs[1..]);
      assert xs == [xs[0]] + xs[1..];
    }
  }

  /** Round trip: well-formed items sent as repeated parameters read back unchanged. */
  lemma ReadListOfRepeated(key: string, xs: seq<string>)
    requires forall k :: 0 <= k < |xs| ==> CleanItem(xs[k])
    ensures ReadList(Repeated(key, xs), key) == xs
  {
    GetAllRepeated(key, xs);
    SplitAllPlain(xs);
    CleanPartsOfClean(xs);
  }

  /** Round trip: well-formed items sent as one comma-joined value read back
      unchanged. */
  lemma ReadListOfJoined(key: string, xs: seq<string>)
    requires xs != []
    requires forall k :: 0 <= k < |xs| ==> CleanItem(xs[k])
    ensures ReadList([(key, Join(xs, ','))], key) == xs
  {
    var j := Join(xs, ',');
    var sp := [(key, j)];
    ReadListFromRepeated(sp, key);
    assert GetAll(sp, key) == [j] by {
      assert GetAll(sp[1..], key) == [];
    }
    assert SplitAll([j]) == Split(j, ',') by {
      assert SplitAll([j]) == Split(j, ',') + SplitAll([]);
    }
    CsvItemsOfJoin(xs);
    assert CsvItems(j) == CleanParts(Split(j, ','));
  }

  /** The result of JavaScript's `Number(s)`, truncated toward zero as
      `slice` reads it: a finite value or NaN/Infinity. */
  datatype Num = Finite(n: int) | NotFinite

  const DefaultLimit := 500
  const MaxLimit := 1000

  /** `Math.min(Number.isFinite(Number(raw || 500)) ? … : 500, 1000)`; the
      parse itself is the parameter `number`. */
  function Limit(raw: Option<string>, number: string -> Num): (limit: int)
    ensures limit <= MaxLimit
    ensures raw.None? || raw == Some("") ==> limit == DefaultLimit
    ensures raw.Some? && raw.value != "" && number(raw.value).NotFinite? ==> limit == DefaultLimit
    ensures raw.Some? && raw.value != "" && number(raw.value).Finite? && number(raw.value).n <= MaxLimit ==>
      limit == number(raw.value).n
    ensures raw.Some? && raw.value != "" && number(raw.value).Finite? && number(raw.value).n > MaxLimit ==>
      limit == MaxLimit
  {
    if raw.None? || raw.value == "" then DefaultLimit
    else match number(raw.value)
      case NotFinite => DefaultLimit
      case Finite(n) => if n < MaxLimit then n else MaxLimit
  }

  /** `xs.slice(0, end)`: a negative end counts from the back. */
  function SliceTo<T>(xs: seq<T>, end: int): (r: seq<T>)
    ensures |r| <= |xs| && r == xs[..|r|]
    ensures end >= 0 ==> |r| == if end < |xs| then end else |xs|
    ensures end < 0 ==> |r| == if |xs| + end > 0 then |xs| + end else 0
  {
    if end >= 0 then (if end < |xs| then xs[..end] else xs)
    else if |xs| + end > 0 then xs[..|xs| + end] else []
  }
}
