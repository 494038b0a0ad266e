/**
 * `scripts/import-csv.js`: each CSV line becomes one upsert of a
 * presentation keyed by its id, with the facet columns normalised; the lines
 * are upserted one after the other and the first one the database refuses
 * ends the import. Reading the file, the CSV parser and `slugify` are
 * parameters.
 */
module ImportCsv {
  import opened Wrappers
  import opened Text
  import opened QueryParams

  /** A parsed CSV line, by column; a column the file lacks is `None`. */
  datatype CsvRow = CsvRow(
    id: Option<string>, name: Option<string>, subject: Option<string>, grade: Option<string>,
    topic: Option<string>, subTopic: Option<string>,
    thumbnailAltText: Option<string>, thumbnail: Option<string>, content: Option<string>,
    viewLink: Option<string>, rating: Option<string>, reviews: Option<string>,
    pptUrl: Option<string>, pdfUrl: Option<string>, slidesUrl: Option<string>,
    metaDescription: Option<string>, metaTitles: Option<string>, summary: Option<string>)

  /** The columns an upsert writes (its `update` object). */
  datatype Fields = Fields(
    slug: string, name: string, grade: string, subject: string,
    topic: Option<string>, subTopic: Option<string>,
    thumbnailAltText: Option<string>, thumbnail: Option<string>, content: Option<string>,
    viewLink: string, rating: Option<Num>, reviews: Option<Num>,
    pptUrl: Option<string>, pdfUrl: Option<string>, slidesUrl: Option<string>,
    metaDescription: Option<string>, metaTitles: Option<string>, summary: Option<string>)

  /** The `create` object: the id, then the same columns. */
  datatype Created = Created(
    id: Num, slug: string, name: string, grade: string, subject: string,
    topic: Option<string>, subTopic: Option<string>,
    thumbnailAltText: Option<string>, thumbnail: Option<string>, content: Option<string>,
    viewLink: string, rating: Option<Num>, reviews: Option<Num>,
    pptUrl: Option<string>, pdfUrl: Option<string>, slidesUrl: Option<string>,
    metaDescription: Option<string>, metaTitles: Option<string>, summary: Option<string>)

  /** `prisma.presentation.upsert({ where: { id }, update, create })`. */
  datatype Upsert = Upsert(key: Num, update: Fields, create: Created)

  /** `x || null`: a missing or empty cell is `null`, any other kept. */
  function OrNull(x: Option<string>): (r: Option<string>)
    ensures r.None? <==> x.None? || x == Some("")
    ensures r.Some? ==> r == x
  {
    if x.None? || x.value == "" then None else x
  }

  /** `String(x || "").trim() || null`: trimmed, and blank is `null`. */
  function TrimmedOrNull(x: Option<string>): (r: Option<string>)
    ensures r.None? <==> Blank(x.GetOr(""))
    ensures r.Some? ==> r.value == Trim(x.value) && r.value != "" && Trimmed(r.value)
  {
    var t := Trim(x.GetOr(""));
    if t == "" then None else Some(t)
  }

  /** `x ? Number(x) : null`, the parse being `number`. */
  function NumberOrNull(x: Option<string>, number: string -> Num): (r: Option<Num>)
    ensures r.None? <==> x.None? || x == Some("")
    ensures r.Some? ==> r.value == number(x.value)
  {
    if x.None? || x.value == "" then None else Some(number(x.value))
  }

  /** `${id}`: the decimal text, or `NaN`. */
  function NumText(n: Num): string {
    match n
    case Finite(v) => IntToString(v)
    case NotFinite => "NaN"
  }

  /** `slugify(name || "presentation")-id`. */
  function Slug(name: string, id: Num, slugify: string -> string): string {
    slugify(if name == "" then "presentation" else name) + "-" + NumText(id)
  }

  /** `Number(r.id)`: `undefined` is NaN. */
  function IdOf(row: CsvRow, number: string -> Num): Num {
    if row.id.None? then NotFinite else number(row.id.value)
  }

  /** The `update` object built for a line. */
  function UpdateOf(row: CsvRow, number: string -> Num, slugify: string -> string): Fields {
    var id := IdOf(row, number);
    var name := Trim(row.name.GetOr(""));
    Fields(
      Slug(name, id, slugify), name, TitleCase(row.grade.GetOr("")), TitleCase(row.subject.GetOr("")),
      TrimmedOrNull(row.topic), TrimmedOrNull(row.subTopic),
      OrNull(row.thumbnailAltText), OrNull(row.thumbnail), OrNull(row.content),
      row.viewLink.GetOr(""), NumberOrNull(row.rating, number), NumberOrNull(row.reviews, number),
      OrNull(row.pptUrl), OrNull(row.pdfUrl), OrNull(row.slidesUrl),
      OrNull(row.metaDescription), OrNull(row.metaTitles), OrNull(row.summary))
  }

  /** The `create` object built for a line, written out as the script does. */
  function CreateOf(row: CsvRow, number: string -> Num, slugify: string -> string): Created {
    var id := IdOf(row, number);
    var name := Trim(row.name.GetOr(""));
    Created(
      id, Slug(name, id, slugify), name, TitleCase(row.grade.GetOr("")), TitleCase(row.subject.GetOr("")),
      TrimmedOrNull(row.topic), TrimmedOrNull(row.subTopic),
      OrNull(row.thumbnailAltText), OrNull(row.thumbnail), OrNull(row.content),
      row.viewLink.GetOr(""), NumberOrNull(row.rating, number), NumberOrNull(row.reviews, number),
      OrNull(row.pptUrl), OrNull(row.pdfUrl), OrNull(row.slidesUrl),
      OrNull(row.metaDescription), OrNull(row.metaTitles), OrNull(row.summary))
  }

  function UpsertOf(row: CsvRow, number: string -> Num, slugify: string -> string): Upsert {
    Upsert(IdOf(row, number), UpdateOf(row, number, slugify), CreateOf(row, number, slugify))
  }

  /** The columns a `create` object writes besides the id. */
  function CreatedFields(c: Created): Fields {
    Fields(c.slug, c.name, c.grade, c.subject, c.topic, c.subTopic, c.thumbnailAltText, c.thumbnail,
           c.content, c.viewLink, c.rating, c.reviews, c.pptUrl, c.pdfUrl, c.slidesUrl,
           c.metaDescription, c.metaTitles, c.summary)
  }

  /** The two halves of an upsert agree: `create` is `update` with the id
      of `where` added. */
  lemma CreateIsUpdateWithId(row: CsvRow, number: string -> Num, slugify: string -> string)
    ensures var u := UpsertOf(row, number, slugify);
      u.create.id == u.key && CreatedFields(u.create) == u.update
  {
  }

  /** What a line stores: the name trimmed; subject and grade title-cased,
      so that title-casing them again when they are read changes nothing;
      topic and sub-topic trimmed with blank as `null`; the view link never
      `null`; and the slug ending in `-id`. */
  lemma UpdateFacts(row: CsvRow, number: string -> Num, slugify: string -> string)
    ensures var f := UpdateOf(row, number, slugify);
      && Trimmed(f.name)
      && TitleCase(f.subject) == f.subject && TitleCase(f.grade) == f.grade
      && (f.topic.None? <==> Blank(row.topic.GetOr("")))
      && (f.topic.Some? ==> f.topic.value == Trim(row.topic.value))
      && (f.subTopic.None? <==> Blank(row.subTopic.GetOr("")))
      && (f.viewLink == "" <==> row.viewLink.None? || row.viewLink == Some(""))
      && (f.thumbnail.None? <==> row.thumbnail.None? || row.thumbnail == Some(""))
      && IsSuffix("-" + NumText(IdOf(row, number)), f.slug)
  {
    var f := UpdateOf(row, number, slugify);
    var name := Trim(row.name.GetOr(""));
    var id := IdOf(row, number);
    assert f.name == name && f.slug == Slug(name, id, slugify);
    assert f.subject == TitleCase(row.subject.GetOr("")) && f.grade == TitleCase(row.grade.GetOr(""));
    assert f.topic == TrimmedOrNull(row.topic) && f.subTopic == TrimmedOrNull(row.subTopic);
    assert f.viewLink == row.viewLink.GetOr("") && f.thumbnail == OrNull(row.thumbnail);
    TitleCaseIdempotent(row.subject.GetOr(""));
    TitleCaseIdempotent(row.grade.GetOr(""));
    SlugSuffix(name, id, slugify);
  }

  lemma SlugSuffix(name: string, id: Num, slugify: string -> string)
    ensures IsSuffix("-" + NumText(id), Slug(name, id, slugify))
  {
    var head := slugify(if name == "" then "presentation" else name);
    var n := NumText(id);
    assert head + "-" + n == head + ("-" + n);
    SuffixOfConcat(head, "-" + n);
  }

  lemma SuffixOfConcat(head: string, tail: string)
    ensures IsSuffix(tail, head + tail)
  {
    assert (head + tail)[|head|..] == tail;
  }

  /** `s` ends with `p`. */
  predicate IsSuffix(p: string, s: string) {
    |p| <= |s| && s[|s| - |p|..] == p
  }

  /** Two lines with the same name and different finite ids get different
      slugs. */
  lemma SlugsDiffer(name: string, a: int, b: int, slugify: string -> string)
    requires a != b
    ensures Slug(name, Finite(a), slugify) != Slug(name, Finite(b), slugify)
  {
    var head := slugify(if name == "" then "presentation" else name) + "-";
    var sa, sb := Slug(name, Finite(a), slugify), Slug(name, Finite(b), slugify);
    assert sa == head + IntToString(a) && sb == head + IntToString(b);
    if sa == sb {
      assert IntToString(a) == sa[|head|..] == sb[|head|..] == IntToString(b);
      IntToStringInjective(a, b);
    }
  }

  // ---------------------------------------------------------------------
  // The import loop

  /** The table as the import sees it: each stored id's columns. */
  type Db = map<int, Fields>

  /** One upsert: the `update` columns when the id is stored, else the
      `create` object's; the database refuses a non-finite id and the table
      stays as it was. */
  function Upserted(db: Db, u: Upsert): Db {
    match u.key
    case NotFinite => db
    case Finite(id) => if id in db then db[id := u.update] else db[id := CreatedFields(u.create)]
  }

  /** Every line's id is finite. */
  predicate AllFinite(rows: seq<CsvRow>, number: string -> Num) {
    forall k :: 0 <= k < |rows| ==> IdOf(rows[k], number).Finite?
  }

  /** The upsert the script builds for each line. */
  function Build(number: string -> Num, slugify: string -> string): CsvRow -> Upsert {
    row => UpsertOf(row, number, slugify)
  }

  /** The upserts of the lines, in order. */
  function Upserts(rows: seq<CsvRow>, build: CsvRow -> Upsert): (us: seq<Upsert>)
    ensures |us| == |rows|
  {
    if rows == [] then []
    else Upserts(rows[..|rows| - 1], build) + [build(rows[|rows| - 1])]
  }

  /** An upsert the database accepts and whose two halves agree. */
  predicate Storable(u: Upsert) {
    u.key.Finite? && CreatedFields(u.create) == u.update
  }

  predicate AllStorable(us: seq<Upsert>) {
    us == [] || (AllStorable(us[..|us| - 1]) && Storable(us[|us| - 1]))
  }

  /** Lines with finite ids give storable upserts. */
  lemma {:induction false} UpsertsStorable(rows: seq<CsvRow>, number: string -> Num, slugify: string -> string)
    requires AllFinite(rows, number)
    ensures AllStorable(Upserts(rows, Build(number, slugify)))
    decreases |rows|
  {
    if rows != [] {
      var init := rows[..|rows| - 1];
      assert AllFinite(init, number) by {
        forall k | 0 <= k < |init| ensures IdOf(init[k], number).Finite? {
          assert init[k] == rows[k];
        }
      }
      UpsertsStorable(init, number, slugify);
      CreateIsUpdateWithId(rows[|rows| - 1], number, slugify);
      var us := Upserts(rows, Build(number, slugify));
      assert us[..|us| - 1] == Upserts(init, Build(number, slugify));
      assert us[|us| - 1] == UpsertOf(rows[|rows| - 1], number, slugify);
    }
  }

  /** The table after the upserts, in order. */
  function ImportAll(db: Db, us: seq<Upsert>): Db {
    if us == [] then db
    else Upserted(ImportAll(db, us[..|us| - 1]), us[|us| - 1])
  }

  /** A storable upsert stores its `update` columns under its id, whether
      the id was stored before or not. */
  lemma UpsertedStores(db: Db, u: Upsert)
    requires Storable(u)
    ensures Upserted(db, u) == db[u.key.n := u.update]
  {
  }

  /** The import only adds or replaces the upserts' ids: it is the old table
      overridden by the import into an empty one. */
  lemma {:induction false} ImportAllOverrides(db: Db, us: seq<Upsert>)
    requires AllStorable(us)
    ensures ImportAll(db, us) == db + ImportAll(map[], us)
    decreases |us|
  {
    if us != [] {
      var u := us[|us| - 1];
      ImportAllOverrides(db, us[..|us| - 1]);
      var m := ImportAll(map[], us[..|us| - 1]);
      UpsertedStores(db + m, u);
      UpsertedStores(m, u);
      assert (db + m)[u.key.n := u.update] == db + m[u.key.n := u.update];
    }
  }

  /** Importing the same file twice leaves the table as importing it once. */
  lemma ImportTwice(db: Db, rows: seq<CsvRow>, number: string -> Num, slugify: string -> string)
    requires AllFinite(rows, number)
    ensures var us := Upserts(rows, Build(number, slugify));
      ImportAll(ImportAll(db, us), us) == ImportAll(db, us)
  {
    var us := Upserts(rows, Build(number, slugify));
    UpsertsStorable(rows, number, slugify);
    var m := ImportAll(map[], us);
    ImportAllOverrides(db, us);
    ImportAllOverrides(db + m, us);
    assert (db + m) + m == db + m;
  }

  /** One more line: one more upsert. */
  lemma ImportStep(db0: Db, rows: seq<CsvRow>, i: int, build: CsvRow -> Upsert)
    requires 0 <= i < |rows|
    ensures ImportAll(db0, Upserts(rows[..i + 1], build)) == Upserted(ImportAll(db0, Upserts(rows[..i], build)), build(rows[i]))
  {
    assert rows[..i + 1][..i] == rows[..i];
    var us := Upserts(rows[..i + 1], build);
    assert us[..i] == Upserts(rows[..i], build);
  }

  /** `main`'s loop: upsert the lines in order; the database refuses a
      non-finite id, which ends the import there. The result is the table,
      the number of lines imported, and whether it failed. */
  method Import(db0: Db, rows: seq<CsvRow>, number: string -> Num, slugify: string -> string)
    returns (db: Db, imported: nat, failed: bool)
    ensures imported <= |rows| && AllFinite(rows[..imported], number)
    ensures db == ImportAll(db0, Upserts(rows[..imported], Build(number, slugify)))
    ensures failed <==> imported < |rows|
    ensures failed ==> IdOf(rows[imported], number).NotFinite?
    ensures !failed <==> AllFinite(rows, number)
  {
    db := db0;
    imported := 0;
    failed := false;
    var build := Build(number, slugify);
    while imported < |rows|
      invariant imported <= |rows| && AllFinite(rows[..imported], number)
      invariant db == ImportAll(db0, Upserts(rows[..imported], build))
    {
      var id := IdOf(rows[imported], number);
      if id.NotFinite? {
        failed := true;
        return;
      }
      ImportStep(db0, rows, imported, build);
      AllFiniteStep(rows, imported, number);
      db := Upserted(db, build(rows[imported]));
      imported := imported + 1;
    }
    assert rows[..imported] == rows;
  }

  lemma AllFiniteStep(rows: seq<CsvRow>, i: int, number: string -> Num)
    requires 0 <= i < |rows| && AllFinite(rows[..i], number) && IdOf(rows[i], number).Finite?
    ensures AllFinite(rows[..i + 1], number)
  {
    assert forall k :: 0 <= k < i ==> rows[..i + 1][k] == rows[..i][k];
  }
}
