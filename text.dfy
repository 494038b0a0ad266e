/**
 * The string operations the routes and components share, on ASCII text:
 * JavaScript's `toLowerCase`, `trim`, the regular-expression classes `\s`
 * and `\w`, `split`/`join`, `startsWith`/`includes`, and the `titleCase`
 * helper that every facet route repeats.
 */
module Text {

  /** `\s` of a JavaScript regular expression, restricted to ASCII. */
  predicate IsSpace(c: char) {
    c == ' ' || c == '\t' || c == '\n' || c == '\r' || c as int == 11 || c as int == 12
  }

  /** `\w`: ASCII letters, digits and the underscore. */
  predicate IsWordChar(c: char) {
    'a' <= c <= 'z' || 'A' <= c <= 'Z' || '0' <= c <= '9' || c == '_'
  }

  predicate IsUpperLetter(c: char) { 'A' <= c <= 'Z' }

  predicate IsLowerLetter(c: char) { 'a' <= c <= 'z' }

  function LowerChar(c: char): char {
    if IsUpperLetter(c) then (c as int + 32) as char else c
  }

  function UpperChar(c: char): char {
    if IsLowerLetter(c) then (c as int - 32) as char else c
  }

  /** `s.toLowerCase()`. */
  function Lower(s: string): (r: string)
    ensures |r| == |s|
    ensures forall i :: 0 <= i < |s| ==> r[i] == LowerChar(s[i])
  {
    seq(|s|, i requires 0 <= i < |s| => LowerChar(s[i]))
  }

  predicate NoUpper(s: string) {
    forall i :: 0 <= i < |s| ==> !IsUpperLetter(s[i])
  }

  /** True when every character is whitespace (the empty string included). */
  predicate Blank(s: string) {
    forall i :: 0 <= i < |s| ==> IsSpace(s[i])
  }

  /** No whitespace at either end. */
  predicate Trimmed(s: string) {
    s == [] || (!IsSpace(s[0]) && !IsSpace(s[|s| - 1]))
  }

  function TrimStart(s: string): (r: string)
    ensures |r| <= |s| && r == s[|s| - |r|..]
    ensures r != [] ==> !IsSpace(r[0])
    ensures forall i :: 0 <= i < |s| - |r| ==> IsSpace(s[i])
  {
    if s != [] && IsSpace(s[0]) then TrimStart(s[1..]) else s
  }

  lemma TrimStartShorter(s: string)
    requires s != [] && IsSpace(s[0])
    ensures |TrimStart(s)| < |s|
  {
    assert TrimStart(s) == TrimStart(s[1..]);
  }

  function TrimEnd(s: string): (r: string)
    ensures |r| <= |s| && r == s[..|r|]
    ensures r != [] ==> !IsSpace(r[|r| - 1])
    ensures forall i :: |r| <= i < |s| ==> IsSpace(s[i])
  {
    if s != [] && IsSpace(s[|s| - 1]) then TrimEnd(s[..|s| - 1]) else s
  }

  lemma {:induction false} TrimEndKeepsHead(t: string)
    requires t != [] && !IsSpace(t[0])
    ensures TrimEnd(t) != [] && TrimEnd(t)[0] == t[0]
    decreases |t|
  {
    if IsSpace(t[|t| - 1]) {
      TrimEndKeepsHead(t[..|t| - 1]);
    }
  }

  lemma TrimBlank(s: string)
    ensures Trimmed(TrimEnd(TrimStart(s)))
    ensures TrimEnd(TrimStart(s)) == [] <==> Blank(s)
  {
    var t := TrimStart(s);
    if t != [] {
      TrimEndKeepsHead(t);
      assert s[|s| - |t|] == t[0];
    }
  }

  /** `s.trim()`: drops the whitespace at both ends and nothing else. */
  function Trim(s: string): (r: string)
    ensures Trimmed(r)
    ensures r == [] <==> Blank(s)
  {
    TrimBlank(s);
    TrimEnd(TrimStart(s))
  }

  /** `r` is `s` from position `a` on, with only whitespace before and after it. */
  predicate SpacedInfix(r: string, s: string, a: int) {
    0 <= a && a + |r| <= |s| && r == s[a..a + |r|] && Blank(s[..a]) && Blank(s[a + |r|..])
  }

  /** `Trim(s)` is `s` itself once the whitespace at its two ends is cut off. */
  lemma TrimIsInfix(s: string)
    ensures exists a :: SpacedInfix(Trim(s), s, a)
  {
    var t := TrimStart(s);
    BlankEnds(s, t, TrimEnd(t));
    assert SpacedInfix(Trim(s), s, |s| - |t|);
  }

  /** Cutting whitespace off the front and then off the back leaves a slice
      with only whitespace around it. */
  lemma BlankEnds(s: string, t: string, r: string)
    requires |t| <= |s| && t == s[|s| - |t|..] && forall i :: 0 <= i < |s| - |t| ==> IsSpace(s[i])
    requires |r| <= |t| && r == t[..|r|] && forall i :: |r| <= i < |t| ==> IsSpace(t[i])
    ensures SpacedInfix(r, s, |s| - |t|)
  {
    var a := |s| - |t|;
    var tail := s[a + |r|..];
    assert forall i :: 0 <= i < |tail| ==> tail[i] == t[|r| + i];
  }

  lemma TrimKeepsOut(s: string, c: char)
    requires c !in s
    ensures c !in Trim(s)
  {
    var t := TrimStart(s);
    assert t == s[|s| - |t|..];
    var r := TrimEnd(t);
    assert r == t[..|r|];
  }

  lemma TrimOfTrimmed(s: string)
    requires Trimmed(s)
    ensures Trim(s) == s
  {
  }

  /** `.replace(/\s+/g, " ")`: every maximal whitespace run becomes one space. */
  function Collapse(s: string): (r: string)
    ensures (r == []) == (s == [])
    decreases |s|
  {
    if s == [] then []
    else if IsSpace(s[0]) then
      TrimStartShorter(s);
      [' '] + Collapse(TrimStart(s))
    else [s[0]] + Collapse(s[1..])
  }

  /** Whitespace occurs only as single spaces. */
  predicate Collapsed(s: string) {
    forall i :: 0 <= i < |s| && IsSpace(s[i]) ==> s[i] == ' ' && (i + 1 < |s| ==> !IsSpace(s[i + 1]))
  }

  lemma CollapsedCons(x: char, c: string)
    requires Collapsed(c)
    requires IsSpace(x) ==> x == ' ' && (c == [] || !IsSpace(c[0]))
    ensures Collapsed([x] + c)
  {
    var r := [x] + c;
    forall i | 0 <= i < |r| && IsSpace(r[i])
      ensures r[i] == ' ' && (i + 1 < |r| ==> !IsSpace(r[i + 1]))
    {
      if i > 0 {
        assert r[i] == c[i - 1];
        if i + 1 < |r| {
          assert r[i + 1] == c[i];
        }
      }
    }
  }

  lemma CollapseStartsWith(s: string)
    requires s != [] && !IsSpace(s[0])
    ensures Collapse(s)[0] == s[0]
  {
  }

  lemma {:induction false} CollapseIsCollapsed(s: string)
    ensures Collapsed(Collapse(s))
    decreases |s|
  {
    if s == [] {
    } else if IsSpace(s[0]) {
      var t := TrimStart(s);
      TrimStartShorter(s);
      CollapseIsCollapsed(t);
      if t != [] {
        CollapseStartsWith(t);
      }
      CollapsedCons(' ', Collapse(t));
    } else {
      CollapseIsCollapsed(s[1..]);
      CollapsedCons(s[0], Collapse(s[1..]));
    }
  }

  lemma CollapsedTail(s: string)
    requires Collapsed(s) && s != []
    ensures Collapsed(s[1..])
  {
    forall i | 0 <= i < |s[1..]| && IsSpace(s[1..][i])
      ensures s[1..][i] == ' ' && (i + 1 < |s[1..]| ==> !IsSpace(s[1..][i + 1]))
    {
      assert s[1..][i] == s[i + 1];
    }
  }

  lemma {:induction false} CollapseOfCollapsed(s: string)
    requires Collapsed(s)
    ensures Collapse(s) == s
    decreases |s|
  {
    if s != [] {
      CollapsedTail(s);
      CollapseOfCollapsed(s[1..]);
      if IsSpace(s[0]) {
        assert TrimStart(s[1..]) == s[1..];
        assert TrimStart(s) == s[1..];
      }
    }
  }

  lemma {:induction false} CollapseEndsWith(s: string)
    requires s != [] && !IsSpace(s[|s| - 1])
    ensures Collapse(s) != [] && Collapse(s)[|Collapse(s)| - 1] == s[|s| - 1]
    decreases |s|
  {
    if IsSpace(s[0]) {
      var t := TrimStart(s);
      TrimStartShorter(s);
      assert t != [] && t[|t| - 1] == s[|s| - 1];
      CollapseEndsWith(t);
    } else if |s| > 1 {
      CollapseEndsWith(s[1..]);
    }
  }

  lemma CollapseKeepsTrimmed(s: string)
    requires Trimmed(s)
    ensures Trimmed(Collapse(s))
  {
    if s != [] {
      CollapseStartsWith(s);
      CollapseEndsWith(s);
    }
  }

  lemma NoUpperCons(c: char, t: string)
    requires !IsUpperLetter(c) && NoUpper(t)
    ensures NoUpper([c] + t)
  {
    forall i | 0 < i < |[c] + t| ensures !IsUpperLetter(([c] + t)[i]) {
      assert ([c] + t)[i] == t[i - 1];
    }
  }

  lemma NoUpperSuffix(s: string, k: int)
    requires NoUpper(s) && 0 <= k <= |s|
    ensures NoUpper(s[k..])
  {
    forall i | 0 <= i < |s[k..]| ensures !IsUpperLetter(s[k..][i]) {
      assert s[k..][i] == s[k + i];
    }
  }

  lemma {:induction false} CollapseKeepsNoUpper(s: string)
    requires NoUpper(s)
    ensures NoUpper(Collapse(s))
    decreases |s|
  {
    if s == [] {
    } else if IsSpace(s[0]) {
      var t := TrimStart(s);
      TrimStartShorter(s);
      NoUpperSuffix(s, |s| - |t|);
      CollapseKeepsNoUpper(t);
      assert Collapse(s) == [' '] + Collapse(t);
      NoUpperCons(' ', Collapse(t));
    } else {
      NoUpperSuffix(s, 1);
      CollapseKeepsNoUpper(s[1..]);
      assert Collapse(s) == [s[0]] + Collapse(s[1..]);
      NoUpperCons(s[0], Collapse(s[1..]));
    }
  }

  lemma CharCases(c: char)
    ensures IsWordChar(LowerChar(c)) == IsWordChar(c) && IsSpace(LowerChar(c)) == IsSpace(c)
    ensures IsWordChar(UpperChar(c)) == IsWordChar(c) && IsSpace(UpperChar(c)) == IsSpace(c)
    ensures !IsUpperLetter(LowerChar(c)) && !IsLowerLetter(UpperChar(c))
    ensures !IsLowerLetter(c) ==> UpperChar(LowerChar(c)) == c
    ensures !IsUpperLetter(c) ==> LowerChar(UpperChar(c)) == c
  {
  }

  lemma LowerKeepsShape(s: string)
    ensures Trimmed(s) ==> Trimmed(Lower(s))
    ensures Collapsed(s) ==> Collapsed(Lower(s))
    ensures NoUpper(Lower(s))
  {
    forall i | 0 <= i < |s| ensures IsSpace(Lower(s)[i]) == IsSpace(s[i]) && !IsUpperLetter(Lower(s)[i]) {
      CharCases(s[i]);
    }
  }

  /** A word starts at `i` of `s` when `\b\w` can match there. */
  predicate WordStart(s: string, i: int)
    requires 0 <= i < |s|
  {
    i == 0 || !IsWordChar(s[i - 1])
  }

  /** `.replace(/\b\w/g, c => c.toUpperCase())`, scanning left to right;
      `afterWord` says whether the character before `s` is a word character. */
  function CapitalizeFrom(s: string, afterWord: bool): (r: string)
    ensures |r| == |s|
  {
    if s == [] then []
    else [if afterWord then s[0] else UpperChar(s[0])] + CapitalizeFrom(s[1..], IsWordChar(s[0]))
  }

  function Capitalize(s: string): (r: string)
    ensures |r| == |s|
  {
    CapitalizeFrom(s, false)
  }

  lemma {:induction false} CapitalizeFromAt(s: string, afterWord: bool, i: int)
    requires 0 <= i < |s|
    ensures CapitalizeFrom(s, afterWord)[i] ==
      if (i == 0 && !afterWord) || (i > 0 && !IsWordChar(s[i - 1])) then UpperChar(s[i]) else s[i]
    decreases i
  {
    if i > 0 {
      CapitalizeFromAt(s[1..], IsWordChar(s[0]), i - 1);
    }
  }

  lemma CapitalizeAt(s: string, i: int)
    requires 0 <= i < |s|
    ensures Capitalize(s)[i] == if WordStart(s, i) then UpperChar(s[i]) else s[i]
  {
    CapitalizeFromAt(s, false, i);
  }

  /** Every word start is not a lower-case letter, every other position is
      not an upper-case letter. */
  predicate TitleShaped(s: string) {
    forall i :: 0 <= i < |s| ==>
      if WordStart(s, i) then !IsLowerLetter(s[i]) else !IsUpperLetter(s[i])
  }

  /** The `titleCase` helper: trim, lower-case, collapse whitespace runs to one
      space, then upper-case the first character of every word. */
  function TitleCase(s: string): string {
    Capitalize(Collapse(Lower(Trim(s))))
  }

  /** The lower-cased, trimmed and collapsed text that `TitleCase` capitalises. */
  function Folded(s: string): (r: string)
    ensures Trimmed(r) && Collapsed(r) && NoUpper(r)
    ensures r == [] <==> Blank(s)
  {
    var t := Lower(Trim(s));
    LowerKeepsShape(Trim(s));
    CollapseKeepsTrimmed(t);
    CollapseIsCollapsed(t);
    CollapseKeepsNoUpper(t);
    Collapse(t)
  }

  /** What capitalising does to one character of lower-case text. */
  lemma CapitalizeChar(x: string, i: int)
    requires 0 <= i < |x| && !IsUpperLetter(x[i])
    ensures var r := Capitalize(x);
      && IsSpace(r[i]) == IsSpace(x[i]) && IsWordChar(r[i]) == IsWordChar(x[i])
      && LowerChar(r[i]) == x[i]
      && (if WordStart(x, i) then !IsLowerLetter(r[i]) else !IsUpperLetter(r[i]))
  {
    CapitalizeAt(x, i);
    CharCases(x[i]);
  }

  lemma CapitalizeTitleShaped(x: string)
    requires NoUpper(x)
    ensures TitleShaped(Capitalize(x))
  {
    var r := Capitalize(x);
    forall i | 0 <= i < |r|
      ensures if WordStart(r, i) then !IsLowerLetter(r[i]) else !IsUpperLetter(r[i])
    {
      CapitalizeChar(x, i);
      if i > 0 {
        CapitalizeChar(x, i - 1);
        assert WordStart(r, i) == WordStart(x, i);
      }
    }
  }

  lemma CapitalizeLower(x: string)
    requires NoUpper(x)
    ensures Lower(Capitalize(x)) == x
  {
    var r := Capitalize(x);
    forall i | 0 <= i < |x| ensures Lower(r)[i] == x[i] {
      CapitalizeChar(x, i);
    }
  }

  lemma CapitalizeSpaces(x: string)
    requires Trimmed(x) && Collapsed(x) && NoUpper(x)
    ensures Trimmed(Capitalize(x)) && Collapsed(Capitalize(x))
  {
    var r := Capitalize(x);
    forall i | 0 <= i < |r| ensures IsSpace(r[i]) == IsSpace(x[i]) && (IsSpace(r[i]) ==> r[i] == x[i]) {
      CapitalizeChar(x, i);
      CapitalizeAt(x, i);
      CharCases(x[i]);
    }
  }

  lemma CapitalizeShape(x: string)
    requires Trimmed(x) && Collapsed(x) && NoUpper(x)
    ensures var r := Capitalize(x);
      Trimmed(r) && Collapsed(r) && TitleShaped(r) && Lower(r) == x
  {
    CapitalizeSpaces(x);
    CapitalizeTitleShaped(x);
    CapitalizeLower(x);
  }

  /** `titleCase` output has no surrounding whitespace, single spaces only, and
      the title-case letter pattern; it is empty exactly for blank input. */
  lemma TitleCaseShape(s: string)
    ensures var r := TitleCase(s);
      Trimmed(r) && Collapsed(r) && TitleShaped(r) && (r == [] <==> Blank(s))
  {
    CapitalizeShape(Folded(s));
  }

  lemma LowerOfTitleCase(s: string)
    ensures Lower(TitleCase(s)) == Folded(s)
  {
    CapitalizeShape(Folded(s));
  }

  lemma CapitalizeLowerAt(r: string, i: int)
    requires TitleShaped(r) && 0 <= i < |r|
    ensures Capitalize(Lower(r))[i] == r[i]
  {
    var l := Lower(r);
    CapitalizeAt(l, i);
    CharCases(r[i]);
    if i > 0 {
      CharCases(r[i - 1]);
    }
    assert WordStart(l, i) == WordStart(r, i);
  }

  /** A string with the title-case shape is a fixpoint of `titleCase`. */
  lemma TitleCaseFixpoint(r: string)
    requires Trimmed(r) && Collapsed(r) && TitleShaped(r)
    ensures TitleCase(r) == r
  {
    TrimOfTrimmed(r);
    var l := Lower(r);
    LowerKeepsShape(r);
    CollapseOfCollapsed(l);
    assert Collapse(Lower(Trim(r))) == l;
    CapitalizeOfLower(r);
  }

  lemma CapitalizeOfLower(r: string)
    requires TitleShaped(r)
    ensures Capitalize(Lower(r)) == r
  {
    forall i | 0 <= i < |r|
      ensures Capitalize(Lower(r))[i] == r[i]
    {
      CapitalizeLowerAt(r, i);
    }
  }

  /** `titleCase` is idempotent. */
  lemma TitleCaseIdempotent(s: string)
    ensures TitleCase(TitleCase(s)) == TitleCase(s)
  {
    TitleCaseShape(s);
    TitleCaseFixpoint(TitleCase(s));
  }

  /** Two title-cased strings that agree ignoring case are equal: keying by the
      lower-cased title-case name groups exactly the equal names. */
  lemma TitleCaseCaseless(a: string, b: string)
    requires Lower(TitleCase(a)) == Lower(TitleCase(b))
    ensures TitleCase(a) == TitleCase(b)
  {
    LowerOfTitleCase(a);
    LowerOfTitleCase(b);
  }

  /** `s.startsWith(p)`. */
  predicate IsPrefix(p: string, s: string) {
    |p| <= |s| && s[..|p|] == p
  }

  /** `p` occurs in `s` at offset `i`. */
  predicate OccursAt(s: string, p: string, i: int) {
    0 <= i <= |s| - |p| && s[i..i + |p|] == p
  }

  /** `s.includes(p)`. */
  predicate Contains(s: string, p: string) {
    exists i :: 0 <= i <= |s| - |p| && OccursAt(s, p, i)
  }

  lemma PrefixContained(p: string, s: string)
    requires IsPrefix(p, s)
    ensures Contains(s, p)
  {
    assert OccursAt(s, p, 0);
  }

  lemma ContainsTransitive(s: string, m: string, p: string)
    requires Contains(s, m) && Contains(m, p)
    ensures Contains(s, p)
  {
    var i :| 0 <= i <= |s| - |m| && OccursAt(s, m, i);
    var j :| 0 <= j <= |m| - |p| && OccursAt(m, p, j);
    forall k | 0 <= k < |p| ensures s[i + j + k] == p[k] {
      assert m[j + k] == p[k];
      assert s[i + (j + k)] == m[j + k];
    }
    assert s[i + j..i + j + |p|] == p;
    assert OccursAt(s, p, i + j);
  }

  /** `s.split(sep)`: always at least one part, and no part holds `sep`. */
  function Split(s: string, sep: char): (parts: seq<string>)
    ensures |parts| >= 1
    ensures forall k :: 0 <= k < |parts| ==> sep !in parts[k]
  {
    if s == [] then [[]]
    else
      var rest := Split(s[1..], sep);
      if s[0] == sep then [[]] + rest else [[s[0]] + rest[0]] + rest[1..]
  }

  /** `parts.join(sep)`. */
  function Join(parts: seq<string>, sep: char): string {
    if parts == [] then []
    else if |parts| == 1 then parts[0]
    else parts[0] + [sep] + Join(parts[1..], sep)
  }

  lemma {:induction false} SplitAfterPlain(p: string, t: string, sep: char)
    requires sep !in p
    ensures Split(p + t, sep) == [p + Split(t, sep)[0]] + Split(t, sep)[1..]
    decreases |p|
  {
    var rest := Split(t, sep);
    if p == [] {
      assert p + t == t;
      assert p + rest[0] == rest[0];
      assert [rest[0]] + rest[1..] == rest;
    } else {
      assert (p + t)[1..] == p[1..] + t;
      SplitAfterPlain(p[1..], t, sep);
      assert [p[0]] + (p[1..] + rest[0]) == p + rest[0];
    }
  }

  /** Splitting a join gives the parts back when no part contains the separator. */
  lemma {:induction false} SplitJoin(parts: seq<string>, sep: char)
    requires |parts| >= 1
    requires forall k :: 0 <= k < |parts| ==> sep !in parts[k]
    ensures Split(Join(parts, sep), sep) == parts
    decreases |parts|
  {
    if |parts| == 1 {
      SplitAfterPlain(parts[0], [], sep);
      assert parts[0] + [] == parts[0];
    } else {
      var rest := Join(parts[1..], sep);
      SplitJoin(parts[1..], sep);
      assert parts[0] + [sep] + rest == parts[0] + ([sep] + rest);
      SplitAfterPlain(parts[0], [sep] + rest, sep);
      assert ([sep] + rest)[1..] == rest;
      assert parts[0] + [] == parts[0];
    }
  }

  /** Each part occurs in the join. */
  lemma {:induction false} JoinContainsPart(parts: seq<string>, sep: char, k: int)
    requires 0 <= k < |parts|
    ensures Contains(Join(parts, sep), parts[k])
    decreases |parts|
  {
    var j := Join(parts, sep);
    if |parts| == 1 {
      assert OccursAt(j, parts[0], 0);
    } else if k == 0 {
      assert OccursAt(j, parts[0], 0);
    } else {
      var rest := Join(parts[1..], sep);
      JoinContainsPart(parts[1..], sep, k - 1);
      var off := |parts[0]| + 1;
      assert j == (parts[0] + [sep]) + rest;
      assert j[off..] == rest;
      assert OccursAt(j, rest, off);
      ContainsTransitive(j, rest, parts[k]);
    }
  }

  /** `.map(s => s.trim()).filter(Boolean)`. */
  function CleanParts(parts: seq<string>): (r: seq<string>)
    ensures |r| <= |parts|
    ensures forall k :: 0 <= k < |r| ==> r[k] != [] && Trimmed(r[k])
  {
    if parts == [] then []
    else
      var t := Trim(parts[0]);
      (if t == [] then [] else [t]) + CleanParts(parts[1..])
  }

  /** `String(s).split(",").map(s => s.trim()).filter(Boolean)`. */
  function CsvItems(s: string): (r: seq<string>)
  {
    CleanParts(Split(s, ','))
  }

  /** A well-formed item: non-empty, trimmed, without a comma. */
  predicate CleanItem(x: string) {
    x != [] && Trimmed(x) && ',' !in x
  }

  lemma {:induction false} CleanPartsItems(parts: seq<string>, sep: char)
    requires forall k :: 0 <= k < |parts| ==> sep !in parts[k]
    ensures forall k :: 0 <= k < |CleanParts(parts)| ==> sep !in CleanParts(parts)[k]
    decreases |parts|
  {
    if parts != [] {
      assert forall k :: 0 <= k < |parts[1..]| ==> parts[1..][k] == parts[k + 1];
      CleanPartsItems(parts[1..], sep);
      var t := Trim(parts[0]);
      var rest := CleanParts(parts[1..]);
      if t == [] {
        assert CleanParts(parts) == rest;
      } else {
        TrimKeepsOut(parts[0], sep);
        var r := [t] + rest;
        assert CleanParts(parts) == r;
        forall k | 0 <= k < |r| ensures sep !in r[k] {
          if k > 0 {
            assert r[k] == rest[k - 1];
          }
        }
      }
    }
  }

  /** Every CSV item is non-empty, trimmed and comma-free. */
  lemma CsvItemsClean(s: string)
    ensures forall k :: 0 <= k < |CsvItems(s)| ==> CleanItem(CsvItems(s)[k])
  {
    CleanPartsItems(Split(s, ','), ',');
  }

  lemma {:induction false} CleanPartsOfClean(parts: seq<string>)
    requires forall k :: 0 <= k < |parts| ==> parts[k] != [] && Trimmed(parts[k])
    ensures CleanParts(parts) == parts
    decreases |parts|
  {
    if parts != [] {
      TrimOfTrimmed(parts[0]);
      CleanPartsOfClean(parts[1..]);
    }
  }

  /** Round trip: splitting the comma-join of well-formed items gives them back. */
  lemma CsvItemsOfJoin(xs: seq<string>)
    requires forall k :: 0 <= k < |xs| ==> CleanItem(xs[k])
    ensures CsvItems(Join(xs, ',')) == xs
  {
    if xs != [] {
      SplitJoin(xs, ',');
      CleanPartsOfClean(xs);
    }
  }

  /** The longest prefix of `s` without whitespace. */
  function TakeWord(s: string): (w: string)
    ensures |w| <= |s| && w == s[..|w|]
    ensures forall i :: 0 <= i < |w| ==> !IsSpace(w[i])
    ensures |w| < |s| ==> IsSpace(s[|w|])
  {
    if s == [] || IsSpace(s[0]) then [] else [s[0]] + TakeWord(s[1..])
  }

  /** A non-empty run without whitespace. */
  predicate IsWord(w: string) {
    w != [] && forall i :: 0 <= i < |w| ==> !IsSpace(w[i])
  }

  /** `s.trim().split(/\s+/).filter(Boolean)`: the maximal whitespace-free runs. */
  function Words(s: string): seq<string>
    decreases |s|
  {
    var t := TrimStart(s);
    if t == [] then []
    else
      var w := TakeWord(t);
      assert |w| >= 1 && |t| <= |s|;
      [w] + Words(t[|w|..])
  }

  /** Every word is non-empty and free of whitespace. */
  lemma {:induction false} WordsAreWords(s: string)
    ensures forall k :: 0 <= k < |Words(s)| ==> IsWord(Words(s)[k])
    decreases |s|
  {
    var t := TrimStart(s);
    if t != [] {
      var w := TakeWord(t);
      assert IsWord(w) && |t| <= |s|;
      WordsAreWords(t[|w|..]);
      var ws := Words(s);
      var rest := Words(t[|w|..]);
      assert ws == [w] + rest;
      forall k | 0 <= k < |ws| ensures IsWord(ws[k]) {
        if k > 0 {
          assert ws[k] == rest[k - 1];
        }
      }
    }
  }

  /** Ordinal (code-point) order on strings, standing for `localeCompare`. */
  predicate StrLe(a: string, b: string)
    decreases |a|
  {
    a == [] || (b != [] && (a[0] < b[0] || (a[0] == b[0] && StrLe(a[1..], b[1..]))))
  }

  lemma {:induction false} StrLeTotal(a: string, b: string)
    ensures StrLe(a, b) || StrLe(b, a)
    decreases |a|
  {
    if a != [] && b != [] && a[0] == b[0] {
      StrLeTotal(a[1..], b[1..]);
    }
  }

  lemma {:induction false} StrLeTransitive(a: string, b: string, c: string)
    requires StrLe(a, b) && StrLe(b, c)
    ensures StrLe(a, c)
    decreases |a|
  {
    if a != [] && b != [] && c != [] && a[0] == b[0] && b[0] == c[0] {
      StrLeTransitive(a[1..], b[1..], c[1..]);
    }
  }

  lemma {:induction false} StrLeAntisymmetric(a: string, b: string)
    requires StrLe(a, b) && StrLe(b, a)
    ensures a == b
    decreases |a|
  {
    if a != [] && b != [] {
      StrLeAntisymmetric(a[1..], b[1..]);
      assert a == [a[0]] + a[1..];
      assert b == [b[0]] + b[1..];
    }
  }

  function DigitChar(d: nat): char
    requires d < 10
  {
    "0123456789"[d]
  }

  /** Decimal text of a natural number, as a template literal prints it. */
  function NatToString(n: nat): (r: string)
    ensures r != []
    ensures forall i :: 0 <= i < |r| ==> '0' <= r[i] <= '9'
  {
    if n < 10 then [DigitChar(n)] else NatToString(n / 10) + [DigitChar(n % 10)]
  }

  /** Decimal text of an integer, with a leading `-` when negative. */
  function IntToString(i: int): string {
    if i < 0 then "-" + NatToString(-i) else NatToString(i)
  }

  lemma DigitCharInjective(a: nat, b: nat)
    requires a < 10 && b < 10 && DigitChar(a) == DigitChar(b)
    ensures a == b
  {
  }

  /** One digit exactly for the numbers below ten. */
  lemma NatToStringShort(n: nat)
    ensures |NatToString(n)| == 1 <==> n < 10
  {
    if n >= 10 {
      assert NatToString(n / 10) != [];
    }
  }

  /** Different numbers print differently. */
  lemma {:induction false} NatToStringInjective(a: nat, b: nat)
    requires NatToString(a) == NatToString(b)
    ensures a == b
    decreases a
  {
    var ra, rb := NatToString(a), NatToString(b);
    NatToStringShort(a);
    NatToStringShort(b);
    if a < 10 {
      DigitCharInjective(a, b);
    } else {
      assert ra == NatToString(a / 10) + [DigitChar(a % 10)];
      assert rb == NatToString(b / 10) + [DigitChar(b % 10)];
      assert ra[|ra| - 1] == DigitChar(a % 10) && rb[|rb| - 1] == DigitChar(b % 10);
      DigitCharInjective(a % 10, b % 10);
      assert NatToString(a / 10) == ra[..|ra| - 1] == rb[..|rb| - 1] == NatToString(b / 10);
      NatToStringInjective(a / 10, b / 10);
    }
  }

  /** The text starts with `-` exactly for negative numbers. */
  lemma IntToStringSign(i: int)
    ensures IntToString(i) != [] && (IntToString(i)[0] == '-' <==> i < 0)
  {
  }

  /** Different integers print differently. */
  lemma IntToStringInjective(a: int, b: int)
    requires IntToString(a) == IntToString(b)
    ensures a == b
  {
    IntToStringSign(a);
    IntToStringSign(b);
    if a < 0 {
      assert NatToString(-a) == IntToString(a)[1..] == IntToString(b)[1..] == NatToString(-b);
      NatToStringInjective(-a, -b);
    } else {
      NatToStringInjective(a, b);
    }
  }
}
