/**
 * The explorer's filter popup (`FilterPopup`): subject and grade check
 * lists hydrated from the facet counts and the caller's defaults, topic and
 * sub-topic selects, the check toggle, and the payload handed back on
 * apply.
 */
module FilterPopup {
  import opened Wrappers
  import opened Text
  import opened Facets
  import opened QueryParams

  /** `normalize`: `String(s || "").trim()`. */
  function Normalize(s: Option<string>): (r: string)
    ensures Trimmed(r)
  {
    Trim(s.GetOr(""))
  }

  /** A facet entry as fetched: `{ name, count }`, either possibly missing. */
  datatype RawFacet = RawFacet(name: Option<string>, count: Option<int>)

  /** A check-list line. */
  datatype FacetItem = FacetItem(id: int, name: string, count: int, checked: bool)

  /** How a fetch of a list ended: an array, some other JSON value, or an
      error. */
  datatype Load<T> = Loaded(value: T) | NotArray | Threw

  /** The selection handed to `onApply`: the lists for the search route and
      the single legacy `topic` and `subtopic`; a list of defaults may lack
      the legacy keys. */
  datatype Filters = Filters(
    subjects: seq<string>, grades: seq<string>, topics: seq<string>, subTopics: seq<string>,
    topic: Option<string>, subtopic: Option<string>)

  /** The name is one of the defaults, both trimmed. */
  predicate InDefaults(name: Option<string>, defaults: seq<string>) {
    exists d :: d in defaults && Trim(d) == Normalize(name)
  }

  /** Hydration: ids 1..n in response order, the name as given (or ""), a
      missing count as 0, and checked exactly when the trimmed name is among
      the trimmed defaults. */
  function Hydrate(raw: seq<RawFacet>, defaults: seq<string>): (items: seq<FacetItem>)
    ensures |items| == |raw|
    ensures forall i :: 0 <= i < |raw| ==>
      && items[i].id == i + 1 && items[i].name == raw[i].name.GetOr("")
      && items[i].count == raw[i].count.GetOr(0)
      && (items[i].checked <==> InDefaults(raw[i].name, defaults))
  {
    seq(|raw|, i requires 0 <= i < |raw| =>
      FacetItem(i + 1, raw[i].name.GetOr(""), raw[i].count.GetOr(0), InDefaults(raw[i].name, defaults)))
  }

  /** The legacy default for a select: the single value when it is not
      empty, else the first of the list, else "". */
  function SelectDefault(single: Option<string>, list: seq<string>): (t: string)
    ensures single.Some? && single.value != "" ==> t == single.value
    ensures (single.None? || single.value == "") && list != [] ==> t == list[0]
    ensures (single.None? || single.value == "") && list == [] ==> t == ""
  {
    if single.Some? && single.value != "" then single.value
    else if list != [] then list[0]
    else ""
  }

  /** `toggleChecked`: flips `checked` on the line with the id. */
  function Toggle(items: seq<FacetItem>, id: int): (r: seq<FacetItem>)
    ensures |r| == |items|
    ensures forall i :: 0 <= i < |items| ==>
      r[i] == if items[i].id == id then items[i].(checked := !items[i].checked) else items[i]
  {
    seq(|items|, i requires 0 <= i < |items| =>
      if items[i].id == id then items[i].(checked := !items[i].checked) else items[i])
  }

  /** Toggling the same line twice restores the list. */
  lemma ToggleTwice(items: seq<FacetItem>, id: int)
    ensures Toggle(Toggle(items, id), id) == items
  {
    var once := Toggle(items, id);
    var twice := Toggle(once, id);
    forall i | 0 <= i < |items| ensures twice[i] == items[i] {
      assert once[i].id == items[i].id;
    }
  }

  /** `.filter(s => s.checked).map(s => s.name)`: the names of the checked
      lines, in list order. */
  function CheckedNames(items: seq<FacetItem>): (names: seq<string>)
    ensures |names| <= |items|
    ensures forall x :: x in names <==> exists i :: 0 <= i < |items| && items[i].checked && items[i].name == x
  {
    if items == [] then []
    else
      var rest := CheckedNames(items[1..]);
      assert forall i :: 1 <= i < |items| ==> items[i] == items[1..][i - 1];
      (if items[0].checked then [items[0].name] else []) + rest
  }

  /** The positions of the checked lines, in list order. */
  function CheckedAt(items: seq<FacetItem>): (idx: seq<nat>)
    ensures forall k :: 0 <= k < |idx| ==> idx[k] < |items| && items[idx[k]].checked
    ensures forall k, l :: 0 <= k < l < |idx| ==> idx[k] < idx[l]
    ensures forall i :: 0 <= i < |items| && items[i].checked ==> i in idx
  {
    CheckedFrom(items, 0)
  }

  /** The positions from `i` on of the checked lines, in list order. */
  function CheckedFrom(items: seq<FacetItem>, i: nat): (idx: seq<nat>)
    requires i <= |items|
    ensures forall k :: 0 <= k < |idx| ==> i <= idx[k] < |items| && items[idx[k]].checked
    ensures forall k, l :: 0 <= k < l < |idx| ==> idx[k] < idx[l]
    ensures forall j :: i <= j < |items| && items[j].checked ==> j in idx
    decreases |items| - i
  {
    if i == |items| then []
    else
      var rest := CheckedFrom(items, i + 1);
      var idx := (if items[i].checked then [i] else []) + rest;
      assert forall k :: 0 <= k < |rest| ==> rest[k] in idx;
      idx
  }

  /** The payload lists the checked lines' names in the order of the lines:
      its k-th name is the name of the k-th checked line. */
  lemma CheckedNamesInOrder(items: seq<FacetItem>)
    ensures |CheckedNames(items)| == |CheckedAt(items)|
    ensures forall k :: 0 <= k < |CheckedAt(items)| ==> CheckedNames(items)[k] == items[CheckedAt(items)[k]].name
  {
    CheckedNamesFrom(items, 0);
    assert items[0..] == items;
  }

  lemma {:induction false} CheckedNamesFrom(items: seq<FacetItem>, i: nat)
    requires i <= |items|
    ensures |CheckedNames(items[i..])| == |CheckedFrom(items, i)|
    ensures forall k :: 0 <= k < |CheckedFrom(items, i)| ==>
      CheckedNames(items[i..])[k] == items[CheckedFrom(items, i)[k]].name
    decreases |items| - i
  {
    if i < |items| {
      CheckedNamesFrom(items, i + 1);
      assert items[i..][1..] == items[i + 1..];
      var h := if items[i].checked then 1 else 0;
      var names := CheckedNames(items[i + 1..]);
      var rest := CheckedFrom(items, i + 1);
      var all, idx := CheckedNames(items[i..]), CheckedFrom(items, i);
      assert all == (if items[i].checked then [items[i].name] else []) + names;
      assert idx == (if items[i].checked then [i] else []) + rest;
      forall k | h <= k < |idx| ensures all[k] == items[idx[k]].name {
        assert all[k] == names[k - h] && idx[k] == rest[k - h];
      }
    }
  }

  /** `items` are the lines of `raw`, one per entry, named as the entry. */
  predicate LinesOf(raw: seq<RawFacet>, items: seq<FacetItem>) {
    |items| == |raw| && forall k :: 0 <= k < |raw| ==> items[k].name == raw[k].name.GetOr("")
  }

  /** Re-opening the popup with the names it applied as defaults checks the
      same lines again, when no two names are equal once trimmed. */
  lemma ReopenKeepsChecks(raw: seq<RawFacet>, items: seq<FacetItem>)
    requires LinesOf(raw, items)
    requires forall i, j :: 0 <= i < |raw| && 0 <= j < |raw| && Normalize(raw[i].name) == Normalize(raw[j].name) ==> i == j
    ensures forall i :: 0 <= i < |raw| ==> Hydrate(raw, CheckedNames(items))[i].checked == items[i].checked
  {
    forall i | 0 <= i < |raw| ensures InDefaults(raw[i].name, CheckedNames(items)) == items[i].checked {
      ReopenKeepsCheck(raw, items, i);
    }
  }

  lemma ReopenKeepsCheck(raw: seq<RawFacet>, items: seq<FacetItem>, i: int)
    requires LinesOf(raw, items) && 0 <= i < |raw|
    requires forall k, j :: 0 <= k < |raw| && 0 <= j < |raw| && Normalize(raw[k].name) == Normalize(raw[j].name) ==> k == j
    ensures InDefaults(raw[i].name, CheckedNames(items)) == items[i].checked
  {
    var names := CheckedNames(items);
    if items[i].checked {
      assert items[i].name in names;
    }
    if InDefaults(raw[i].name, names) {
      var d :| d in names && Trim(d) == Normalize(raw[i].name);
      var j :| 0 <= j < |items| && items[j].checked && items[j].name == d;
      assert Normalize(raw[j].name) == Normalize(raw[i].name);
    }
  }

  /** `topics: selectedTopic ? [selectedTopic] : []`, and the same for
      sub-topics. */
  function AsList(selected: string): (xs: seq<string>)
    ensures |xs| <= 1
    ensures xs == [] <==> selected == ""
    ensures xs != [] ==> xs[0] == selected
  {
    if selected != "" then [selected] else []
  }

  /** Re-opening with the applied payload restores the selection. */
  lemma ReopenKeepsSelection(selected: string)
    ensures SelectDefault(Some(selected), AsList(selected)) == selected
  {
  }

  /** The topics offered when `/api/meta/topics` fails. */
  const FallbackTopics: seq<string> := ["Algebra", "Geometry", "Trigonometry", "Calculus", "Statistics", "Probability"]

  /** The sub-topics offered for a topic when `/api/meta/subtopics` fails. */
  function FallbackSubTopics(topic: string): (xs: seq<string>)
    ensures |xs| == 2
  {
    if topic == "Algebra" then ["Basic Algebra", "Advanced Algebra"]
    else if topic == "Geometry" then ["Euclidean Geometry", "Coordinate Geometry"]
    else ["General Subtopic 1", "General Subtopic 2"]
  }

  /** `arr.map(String)` as written: the meta routes answer with `{ name,
      count }` objects, and `String` of an object is "[object Object]". */
  function LabelsAsWritten(rows: seq<Entry>): (labels: seq<string>)
    ensures |labels| == |rows|
  {
    seq(|rows|, i requires 0 <= i < |rows| => "[object Object]")
  }

  /** As written, two different topics get the same label and neither name
      is offered. */
  lemma LabelsAsWrittenLoseNames()
    ensures var labels := LabelsAsWritten([Entry("Algebra", 3), Entry("Geometry", 2)]);
      labels[0] == labels[1] && "Algebra" !in labels
  {
    var labels := LabelsAsWritten([Entry("Algebra", 3), Entry("Geometry", 2)]);
    assert labels[0] == "[object Object]" && labels[1] == "[object Object]";
    assert "Algebra" != "[object Object]";
  }

  /** The labels the popup evidently means: each row's name. */
  function Labels(rows: seq<Entry>): (labels: seq<string>)
    ensures |labels| == |rows|
    ensures forall i :: 0 <= i < |rows| ==> labels[i] == rows[i].name
  {
    seq(|rows|, i requires 0 <= i < |rows| => rows[i].name)
  }

  /** Different names keep different labels, and each name is offered. */
  lemma LabelsKeepNames(rows: seq<Entry>)
    ensures forall i, j :: 0 <= i < |rows| && 0 <= j < |rows| && rows[i].name != rows[j].name ==>
      Labels(rows)[i] != Labels(rows)[j]
    ensures forall e :: e in rows ==> e.name in Labels(rows)
  {
    forall e | e in rows ensures e.name in Labels(rows) {
      var i :| 0 <= i < |rows| && rows[i] == e;
      assert Labels(rows)[i] == e.name;
    }
  }

  /** The sub-topic query as written: `?topic=…`. */
  function SubTopicsQueryAsWritten(topic: string): Params {
    [("topic", topic)]
  }

  /** The sub-topic route reads `topics`, so the query as written filters on
      no topic at all. */
  lemma SubTopicsQueryAsWrittenIgnored(topic: string)
    ensures ReadList(SubTopicsQueryAsWritten(topic), "topics") == []
  {
    ReadListAbsent(SubTopicsQueryAsWritten(topic), "topics");
  }

  /** The evidently intended query: `?topics=…`. */
  function SubTopicsQuery(topic: string): Params {
    [("topics", topic)]
  }

  /** The intended query filters on the selected topic. */
  lemma SubTopicsQueryFilters(topic: string)
    requires CleanItem(topic)
    ensures ReadList(SubTopicsQuery(topic), "topics") == [topic]
  {
    assert Repeated("topics", [topic]) == SubTopicsQuery(topic);
    ReadListOfRepeated("topics", [topic]);
  }

  /** The popup's state. */
  class Popup {
    var subjects: seq<FacetItem>
    var grades: seq<FacetItem>
    var topics: seq<string>
    var subTopics: seq<string>
    var selectedTopic: string
    var selectedSubTopic: string

    constructor ()
      ensures subjects == [] && grades == [] && topics == [] && subTopics == []
      ensures selectedTopic == "" && selectedSubTopic == ""
    {
      subjects := [];
      grades := [];
      topics := [];
      subTopics := [];
      selectedTopic := "";
      selectedSubTopic := "";
    }

    /** Opening: the selects take their legacy defaults at once; the check
        lists are hydrated from the fetched facets and the defaults, and are
        kept as they were when the fetch fails. */
    method Open(def: Filters, facets: Option<(seq<RawFacet>, seq<RawFacet>)>)
      modifies this
      ensures selectedTopic == SelectDefault(def.topic, def.topics)
      ensures selectedSubTopic == SelectDefault(def.subtopic, def.subTopics)
      ensures facets.Some? ==>
        subjects == Hydrate(facets.value.0, def.subjects) && grades == Hydrate(facets.value.1, def.grades)
      ensures facets.None? ==> subjects == old(subjects) && grades == old(grades)
      ensures topics == old(topics) && subTopics == old(subTopics)
    {
      if facets.Some? {
        subjects := Hydrate(facets.value.0, def.subjects);
        grades := Hydrate(facets.value.1, def.grades);
      }
      selectedTopic := SelectDefault(def.topic, def.topics);
      selectedSubTopic := SelectDefault(def.subtopic, def.subTopics);
    }

    /** The topics fetch ends: the rows' names, unchanged on a non-array,
        the fallback list on an error. */
    method TopicsLoaded(result: Load<seq<Entry>>)
      modifies this
      ensures result.Loaded? ==> topics == Labels(result.value)
      ensures result.NotArray? ==> topics == old(topics)
      ensures result.Threw? ==> topics == FallbackTopics
      ensures subjects == old(subjects) && grades == old(grades) && subTopics == old(subTopics)
      ensures selectedTopic == old(selectedTopic) && selectedSubTopic == old(selectedSubTopic)
    {
      match result {
        case Loaded(rows) => topics := Labels(rows);
        case NotArray =>
        case Threw => topics := FallbackTopics;
      }
    }

    /** The effect on the selected topic: no topic, no sub-topics; otherwise
        the fetched names, or the fallback for the topic on an error. */
    method SubTopicsLoaded(result: Load<seq<Entry>>)
      modifies this
      ensures selectedTopic == "" ==> subTopics == []
      ensures selectedTopic != "" && result.Loaded? ==> subTopics == Labels(result.value)
      ensures selectedTopic != "" && result.NotArray? ==> subTopics == old(subTopics)
      ensures selectedTopic != "" && result.Threw? ==> subTopics == FallbackSubTopics(selectedTopic)
      ensures subjects == old(subjects) && grades == old(grades) && topics == old(topics)
      ensures selectedTopic == old(selectedTopic) && selectedSubTopic == old(selectedSubTopic)
    {
      if selectedTopic == "" {
        subTopics := [];
        return;
      }
      match result {
        case Loaded(rows) => subTopics := Labels(rows);
        case NotArray =>
        case Threw => subTopics := FallbackSubTopics(selectedTopic);
      }
    }

    /** Choosing a topic clears the chosen sub-topic. */
    method ChooseTopic(t: string)
      modifies this
      ensures selectedTopic == t && selectedSubTopic == ""
      ensures subjects == old(subjects) && grades == old(grades)
      ensures topics == old(topics) && subTopics == old(subTopics)
    {
      selectedTopic := t;
      selectedSubTopic := "";
    }

    method ChooseSubTopic(t: string)
      modifies this
      ensures selectedSubTopic == t
      ensures selectedTopic == old(selectedTopic)
      ensures subjects == old(subjects) && grades == old(grades)
      ensures topics == old(topics) && subTopics == old(subTopics)
    {
      selectedSubTopic := t;
    }

    /** `toggleChecked(id, type)`: "subject" toggles in the subjects, any
        other type in the grades. */
    method ToggleChecked(id: int, isSubject: bool)
      modifies this
      ensures isSubject ==> subjects == Toggle(old(subjects), id) && grades == old(grades)
      ensures !isSubject ==> grades == Toggle(old(grades), id) && subjects == old(subjects)
      ensures topics == old(topics) && subTopics == old(subTopics)
      ensures selectedTopic == old(selectedTopic) && selectedSubTopic == old(selectedSubTopic)
    {
      if isSubject {
        subjects := Toggle(subjects, id);
      } else {
        grades := Toggle(grades, id);
      }
    }

    /** `handleApply`'s payload: the checked names in list order, each
        select as a list of at most one, and the legacy singles. */
    function Apply(): (f: Filters)
      reads this
      ensures forall x :: x in f.subjects <==> exists i :: 0 <= i < |subjects| && subjects[i].checked && subjects[i].name == x
      ensures forall x :: x in f.grades <==> exists i :: 0 <= i < |grades| && grades[i].checked && grades[i].name == x
      ensures |f.subjects| == |CheckedAt(subjects)| && |f.grades| == |CheckedAt(grades)|
      ensures forall k :: 0 <= k < |f.subjects| ==> f.subjects[k] == subjects[CheckedAt(subjects)[k]].name
      ensures forall k :: 0 <= k < |f.grades| ==> f.grades[k] == grades[CheckedAt(grades)[k]].name
      ensures f.topics == AsList(selectedTopic) && f.subTopics == AsList(selectedSubTopic)
      ensures f.topic == Some(selectedTopic) && f.subtopic == Some(selectedSubTopic)
    {
      CheckedNamesInOrder(subjects);
      CheckedNamesInOrder(grades);
      Filters(CheckedNames(subjects), CheckedNames(grades), AsList(selectedTopic), AsList(selectedSubTopic),
              Some(selectedTopic), Some(selectedSubTopic))
    }
  }
}
