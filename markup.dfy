/**
 * The regular expressions that read an image address out of stored HTML,
 * written out as scans: a quoted `src` attribute (`src=["']([^"']+)["']`,
 * or with `\s*` around the `=`), the whole `<img …>` tag pattern, and the
 * absolute-address test `^(https?:)?\/\/`. All of them ignore case (the
 * `i` flag) in their literal letters.
 */
module Markup {
  import opened Wrappers
  import opened Text

  predicate IsQuote(c: char) {
    c == '"' || c == '\''
  }

  /** The end of the run of non-quote characters from `j` (`[^"']*`). */
  function RunEnd(s: string, j: nat): (e: nat)
    requires j <= |s|
    ensures j <= e <= |s|
    ensures forall k :: j <= k < e ==> !IsQuote(s[k])
    ensures e < |s| ==> IsQuote(s[e])
    decreases |s| - j
  {
    if j == |s| || IsQuote(s[j]) then j else RunEnd(s, j + 1)
  }

  /** `["']([^"']+)["']` matches at `j`: a quote, at least one other
      character, then a quote. */
  predicate QuotedAt(s: string, j: nat) {
    j < |s| && IsQuote(s[j]) && j + 1 < RunEnd(s, j + 1) < |s|
  }

  /** The captured group of a quoted value. */
  function QuotedValue(s: string, j: nat): (v: string)
    requires QuotedAt(s, j)
    ensures v != [] && forall k :: 0 <= k < |v| ==> !IsQuote(v[k])
  {
    s[j + 1..RunEnd(s, j + 1)]
  }

  /** `\s*` from `j`: the first index at or after `j` that is not whitespace. */
  function SkipSpaces(s: string, j: nat): (e: nat)
    requires j <= |s|
    ensures j <= e <= |s|
    ensures forall k :: j <= k < e ==> IsSpace(s[k])
    ensures e < |s| ==> !IsSpace(s[e])
    decreases |s| - j
  {
    if j == |s| || !IsSpace(s[j]) then j else SkipSpaces(s, j + 1)
  }

  /** The opening quote of a `src` attribute written at `p`:
      `src=["']…["']`, or `src\s*=\s*["']…["']` when `spaced`; the letters
      in any case. */
  function SrcQuote(s: string, p: nat, spaced: bool): (j: Option<nat>)
    ensures j.Some? ==> p + 4 <= j.value && QuotedAt(s, j.value)
  {
    if p + 3 > |s| || Lower(s[p..p + 3]) != "src" then None
    else
      var eq := if spaced then SkipSpaces(s, p + 3) else p + 3;
      if eq >= |s| || s[eq] != '=' then None
      else
        var q := if spaced then SkipSpaces(s, eq + 1) else eq + 1;
        if QuotedAt(s, q) then Some(q) else None
  }

  predicate SrcAt(s: string, p: nat, spaced: bool) {
    SrcQuote(s, p, spaced).Some?
  }

  /** The captured address of the attribute at `p`. */
  function SrcValue(s: string, p: nat, spaced: bool): (v: string)
    requires SrcAt(s, p, spaced)
    ensures v != [] && forall k :: 0 <= k < |v| ==> !IsQuote(v[k])
  {
    QuotedValue(s, SrcQuote(s, p, spaced).value)
  }

  /** `s.match(/src=…/i)?.[1]` searched from `from`: the address of the
      leftmost attribute, or nothing when there is none. */
  function FirstSrc(s: string, from: nat, spaced: bool): (r: Option<string>)
    ensures r.None? <==> forall p: nat :: from <= p ==> !SrcAt(s, p, spaced)
    ensures r.Some? ==> exists p: nat ::
      && from <= p && SrcAt(s, p, spaced) && r.value == SrcValue(s, p, spaced)
      && forall p': nat :: from <= p' < p ==> !SrcAt(s, p', spaced)
    decreases |s| - from
  {
    if from >= |s| then None
    else if SrcAt(s, from, spaced) then Some(SrcValue(s, from, spaced))
    else FirstSrc(s, from + 1, spaced)
  }

  /** The first index at or after `j` holding `>`, or `|s|`. */
  function NextGt(s: string, j: nat): (e: nat)
    requires j <= |s|
    ensures j <= e <= |s|
    ensures forall k :: j <= k < e ==> s[k] != '>'
    ensures e < |s| ==> s[e] == '>'
    decreases |s| - j
  {
    if j == |s| || s[j] == '>' then j else NextGt(s, j + 1)
  }

  /** `<img` (any case) starts at `i`. */
  predicate ImgOpenAt(s: string, i: nat) {
    i + 4 <= |s| && Lower(s[i..i + 4]) == "<img"
  }

  /** `src\s*=\s*["']([^"']+)["'][^>]*>` matches at `p`: the attribute, then
      a `>` somewhere after its closing quote. */
  predicate TagSrcAt(s: string, p: nat) {
    SrcAt(s, p, true) && ClosedAfter(s, SrcQuote(s, p, true).value)
  }

  /** `[^>]*>` after the quoted value opened at `q`: a `>` follows it. */
  predicate ClosedAfter(s: string, q: nat)
    requires QuotedAt(s, q)
  {
    NextGt(s, RunEnd(s, q + 1) + 1) < |s|
  }

  /** Backtracking of the greedy `[^>]*` in `<img[^>]*src…`: the last
      position below `hi`, and not below `lo`, where the rest of the tag
      matches. */
  function LastTagAt(s: string, lo: nat, hi: nat): (k: Option<nat>)
    ensures k.Some? ==> lo <= k.value < hi && TagSrcAt(s, k.value)
    ensures k.Some? ==> forall p: nat :: k.value < p < hi ==> !TagSrcAt(s, p)
    ensures k.None? ==> forall p: nat :: lo <= p < hi ==> !TagSrcAt(s, p)
  {
    var ok := (p: nat) => TagSrcAt(s, p);
    assert forall p: nat :: ok(p) == TagSrcAt(s, p);
    LastWhere(ok, lo, hi)
  }

  /** The scan from `hi` down to `lo` for the last position where `ok` holds. */
  function LastWhere(ok: nat -> bool, lo: nat, hi: nat): (k: Option<nat>)
    ensures k.Some? ==> lo <= k.value < hi && ok(k.value)
    ensures k.Some? ==> forall p: nat :: k.value < p < hi ==> !ok(p)
    ensures k.None? ==> forall p: nat :: lo <= p < hi ==> !ok(p)
    decreases hi
  {
    if hi <= lo then None
    else if ok(hi - 1) then Some(hi - 1)
    else LastWhere(ok, lo, hi - 1)
  }

  /** The address the whole tag pattern captures for a tag opened at `i`:
      the attribute may sit anywhere before the tag's first `>`. */
  function TagSrcFrom(s: string, i: nat): (r: Option<string>)
    ensures r.Some? ==> r.value != []
  {
    if !ImgOpenAt(s, i) then None
    else match LastTagAt(s, i + 4, NextGt(s, i + 4) + 1)
      case None => None
      case Some(p) => Some(SrcValue(s, p, true))
  }

  /** `s.match(/<img[^>]*src\s*=\s*["']([^"']+)["'][^>]*>/i)?.[1]` searched
      from `from`: the capture of the leftmost tag that matches. */
  function FirstTagSrc(s: string, from: nat): (r: Option<string>)
    ensures r.None? <==> forall i: nat :: from <= i ==> TagSrcFrom(s, i).None?
    ensures r.Some? ==> exists i: nat ::
      && from <= i && r == TagSrcFrom(s, i)
      && forall i': nat :: from <= i' < i ==> TagSrcFrom(s, i').None?
    decreases |s| - from
  {
    if from >= |s| then None
    else if TagSrcFrom(s, from).Some? then TagSrcFrom(s, from)
    else FirstTagSrc(s, from + 1)
  }

  /** `/^(https?:)?\/\//i.test(s)`: an absolute or protocol-relative address. */
  predicate IsAbsoluteUrl(s: string) {
    var l := Lower(s);
    IsPrefix("//", l) || IsPrefix("http://", l) || IsPrefix("https://", l)
  }

  /** `s.startsWith("data:image/")`. */
  predicate IsDataImage(s: string) {
    IsPrefix("data:image/", s)
  }

  /** No attribute starts inside `<img `. */
  lemma NoSrcInOpening(s: string, spaced: bool)
    requires |s| >= 5 && s[..5] == "<img "
    ensures forall p: nat :: p < 5 ==> !SrcAt(s, p, spaced)
  {
    forall p: nat | p < 5 ensures !SrcAt(s, p, spaced) {
      assert s[p] == s[..5][p];
      if p + 3 <= |s| {
        assert Lower(s[p..p + 3])[0] == LowerChar(s[p]);
      }
    }
  }

  /** `src="u"` written at 5 is an attribute whose address is `u`. */
  lemma SrcAfterOpening(s: string, u: string, rest: string, spaced: bool)
    requires u != [] && forall k :: 0 <= k < |u| ==> !IsQuote(u[k])
    requires s == "<img src=\"" + u + "\"" + rest
    ensures SrcAt(s, 5, spaced) && SrcValue(s, 5, spaced) == u
  {
    assert s[5..8] == "src";
    assert Lower(s[5..8]) == "src";
    assert s[8] == '=' && s[9] == '"';
    assert SkipSpaces(s, 8) == 8 && SkipSpaces(s, 9) == 9;
    assert s[10..10 + |u|] == u;
    RunEndOver(s, 10, u);
    assert QuotedAt(s, 9);
  }

  /** `<img src="u"…`, trimmed, read by either attribute pattern: the
      first attribute is the one at 5, and its address is `u`. */
  lemma ImgTagFirstSrc(u: string, rest: string, spaced: bool)
    requires u != [] && forall k :: 0 <= k < |u| ==> !IsQuote(u[k])
    requires rest == [] || !IsSpace(rest[|rest| - 1])
    ensures var s := "<img src=\"" + u + "\"" + rest;
      Trim(s) == s && IsPrefix("<img", s) && FirstSrc(s, 0, spaced) == Some(u)
  {
    var s := "<img src=\"" + u + "\"" + rest;
    assert Trimmed(s);
    TrimOfTrimmed(s);
    assert s[..4] == "<img";
    NoSrcInOpening(s, spaced);
    SrcAfterOpening(s, u, rest, spaced);
    FirstSrcAt(s, 0, 5, spaced);
  }

  /** The run of non-quotes from `j` ends where `u` does when `u` is written
      there and a quote follows. */
  lemma {:induction false} RunEndOver(s: string, j: nat, u: string)
    requires j + |u| < |s| && s[j..j + |u|] == u && IsQuote(s[j + |u|])
    requires forall k :: 0 <= k < |u| ==> !IsQuote(u[k])
    ensures RunEnd(s, j) == j + |u|
    decreases |u|
  {
    if u != [] {
      assert s[j] == u[0];
      assert s[j + 1..j + 1 + |u[1..]|] == u[1..];
      RunEndOver(s, j + 1, u[1..]);
    }
  }

  /** The search finds the first attribute. */
  lemma {:induction false} FirstSrcAt(s: string, from: nat, p: nat, spaced: bool)
    requires from <= p && SrcAt(s, p, spaced)
    requires forall p': nat :: from <= p' < p ==> !SrcAt(s, p', spaced)
    ensures FirstSrc(s, from, spaced) == Some(SrcValue(s, p, spaced))
    decreases p - from
  {
    assert p < |s| by {
      assert SrcQuote(s, p, spaced).Some?;
    }
    if from < p {
      assert !SrcAt(s, from, spaced);
      assert FirstSrc(s, from, spaced) == FirstSrc(s, from + 1, spaced);
      FirstSrcAt(s, from + 1, p, spaced);
    }
  }
}
