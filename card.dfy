/**
 * `PresentationCard`: the thumbnail address a card shows, found through a
 * chain of fallbacks and made absolute against the page's origin, and the
 * `imgOk` state that hides the image once it fails to load.
 */
module Card {
  import opened Wrappers
  import opened Text
  import opened Markup

  /** A property of the card's `p` as JavaScript sees it: missing or `null`,
      a string, or some other value. */
  datatype Prop = Absent | Str(s: string) | Other

  /** The properties of `p` the thumbnail is looked up in. */
  datatype CardData = CardData(
    slug: string,
    thumbnail: Prop,
    content: Prop,
    thumbnailUrl: Prop,
    thumbnailPath: Prop)

  /** `extractImgSrc`: "" for anything but a non-empty string; an absolute or
      `data:image/` address trimmed; the leftmost quoted `src` of a string
      opening with `<img` (spaces allowed around `=`); otherwise the trimmed
      string itself. */
  function ExtractImgSrc(x: Prop): (r: string)
    ensures !x.Str? ==> r == ""
    ensures x.Str? ==> (r == "" <==> Blank(x.s))
    ensures x.Str? && (IsAbsoluteUrl(Trim(x.s)) || IsDataImage(Trim(x.s))) ==> r == Trim(x.s)
    ensures x.Str? && IsPrefix("<img", Trim(x.s)) && FirstSrc(Trim(x.s), 0, true).Some? ==>
      r == FirstSrc(Trim(x.s), 0, true).value
    ensures x.Str? && !IsPrefix("<img", Trim(x.s)) ==> r == Trim(x.s)
    ensures x.Str? && FirstSrc(Trim(x.s), 0, true).None? ==> r == Trim(x.s)
  {
    match x
    case Str(v) =>
      if v == "" then ""
      else
        var s := Trim(v);
        NotImgAndAbsolute(s);
        if IsAbsoluteUrl(s) || IsDataImage(s) then s
        else if IsPrefix("<img", s) && FirstSrc(s, 0, true).Some? then FirstSrc(s, 0, true).value
        else s
    case _ => ""
  }

  /** A string opening with `<img` is neither absolute nor `data:image/`. */
  lemma NotImgAndAbsolute(s: string)
    ensures IsPrefix("<img", s) ==> !IsAbsoluteUrl(s) && !IsDataImage(s)
  {
    if IsPrefix("<img", s) {
      assert s[0] == '<';
      assert Lower(s)[0] == '<';
    }
  }

  /** Round trip: the address written in `<img src="u"…` comes back. */
  lemma ImgSrcOfTag(u: string, rest: string)
    requires u != [] && forall k :: 0 <= k < |u| ==> !IsQuote(u[k])
    requires rest == [] || !IsSpace(rest[|rest| - 1])
    ensures ExtractImgSrc(Str("<img src=\"" + u + "\"" + rest)) == u
  {
    ImgTagFirstSrc(u, rest, true);
  }

  /** Round trip: an absolute address is its own thumbnail. */
  lemma ImgSrcOfAbsolute(u: string)
    requires Trimmed(u) && u != [] && (IsAbsoluteUrl(u) || IsDataImage(u))
    ensures ExtractImgSrc(Str(u)) == u
  {
    TrimOfTrimmed(u);
  }

  /** `/${urlish}` unless it already starts with `/`. */
  function Rooted(u: string): (r: string)
    ensures IsPrefix("/", r)
    ensures r == u || r == "/" + u
  {
    if IsPrefix("/", u) then u else "/" + u
  }

  /** `absolutize`: "" stays ""; absolute and `data:image/` addresses, and
      every address when there is no origin, stay as they are; otherwise
      the rooted path resolved against the origin, or the address itself
      when resolution throws. `resolve` is `new URL(path, base).toString()`,
      `None` where it throws. */
  function Absolutize(u: string, origin: string, resolve: (string, string) -> Option<string>): (r: string)
    ensures u == "" ==> r == ""
    ensures IsAbsoluteUrl(u) || IsDataImage(u) || origin == "" ==> r == u
    ensures u != "" && !IsAbsoluteUrl(u) && !IsDataImage(u) && origin != "" ==>
      r == resolve(Rooted(u), origin).GetOr(u)
  {
    if u == "" then ""
    else if IsAbsoluteUrl(u) || IsDataImage(u) then u
    else if origin == "" then u
    else match resolve(Rooted(u), origin)
      case None => u
      case Some(url) => url
  }

  /** `new URL(…).toString()` never yields "". */
  ghost predicate ResolvesNonEmpty(resolve: (string, string) -> Option<string>) {
    forall path, base :: resolve(path, base).Some? ==> resolve(path, base).value != ""
  }

  /** `new URL(…).toString()` yields an absolute address. */
  ghost predicate ResolvesAbsolute(resolve: (string, string) -> Option<string>) {
    forall path, base :: resolve(path, base).Some? ==> IsAbsoluteUrl(resolve(path, base).value)
  }

  /** Only "" becomes "". */
  lemma AbsolutizeEmpty(u: string, origin: string, resolve: (string, string) -> Option<string>)
    requires ResolvesNonEmpty(resolve)
    ensures Absolutize(u, origin, resolve) == "" <==> u == ""
  {
  }

  /** Absolutizing twice is absolutizing once. */
  lemma AbsolutizeIdempotent(u: string, origin: string, resolve: (string, string) -> Option<string>)
    requires ResolvesAbsolute(resolve)
    ensures Absolutize(Absolutize(u, origin, resolve), origin, resolve) == Absolutize(u, origin, resolve)
  {
  }

  /** The captured `src` of the first `<img …>` tag in the content, or "". */
  function ContentImgSrc(content: Prop): (r: string)
    ensures r != "" <==> content.Str? && FirstTagSrc(content.s, 0).Some?
    ensures r != "" ==> r == FirstTagSrc(content.s, 0).value
  {
    match content
    case Str(c) => FirstTagSrc(c, 0).GetOr("")
    case _ => ""
  }

  /** The first non-empty string of `cs`, or "". */
  function FirstNonEmpty(cs: seq<string>): (r: string)
    ensures r == "" <==> forall i :: 0 <= i < |cs| ==> cs[i] == ""
    ensures r != "" ==> exists i :: 0 <= i < |cs| && cs[i] == r && forall j :: 0 <= j < i ==> cs[j] == ""
  {
    if cs == [] then ""
    else if cs[0] != "" then cs[0]
    else
      var r := FirstNonEmpty(cs[1..]);
      assert r != "" ==> exists i :: 1 <= i < |cs| && cs[i] == r && forall j :: 0 <= j < i ==> cs[j] == "" by {
        if r != "" {
          var i :| 0 <= i < |cs[1..]| && cs[1..][i] == r && forall j :: 0 <= j < i ==> cs[1..][j] == "";
          assert cs[i + 1] == r;
          assert forall j :: 1 <= j < i + 1 ==> cs[j] == cs[1..][j - 1];
        }
      }
      r
  }

  /** The fallback chain, in order: the thumbnail, the content's first image,
      `thumbnailUrl`, `thumbnail_path`. */
  function Candidates(p: CardData): (cs: seq<string>)
    ensures |cs| == 4
  {
    [ExtractImgSrc(p.thumbnail), ContentImgSrc(p.content), ExtractImgSrc(p.thumbnailUrl), ExtractImgSrc(p.thumbnailPath)]
  }

  /** The first non-empty of four strings. */
  lemma FirstOfFour(cs: seq<string>)
    requires |cs| == 4
    ensures FirstNonEmpty(cs) ==
      if cs[0] != "" then cs[0] else if cs[1] != "" then cs[1] else if cs[2] != "" then cs[2] else cs[3]
  {
    assert cs[1..][1..][1..][1..] == [];
  }

  /** What `thumbUrl` promises: the first candidate that is not empty, made
      absolute. */
  function ThumbUrlOf(p: CardData, origin: string, resolve: (string, string) -> Option<string>): string {
    Absolutize(FirstNonEmpty(Candidates(p)), origin, resolve)
  }

  /** `thumbUrl`: `src` starts as the thumbnail's address and each later
      source is tried only while it is still empty. */
  method ThumbUrl(p: CardData, origin: string, resolve: (string, string) -> Option<string>) returns (url: string)
    ensures url == ThumbUrlOf(p, origin, resolve)
  {
    ghost var cs := Candidates(p);
    FirstOfFour(cs);
    var src := ExtractImgSrc(p.thumbnail);
    if src == "" && p.content.Str? {
      var m := FirstTagSrc(p.content.s, 0);
      if m.Some? && m.value != "" {
        src := m.value;
      }
    }
    assert src == if cs[0] != "" then cs[0] else cs[1];
    if src == "" && p.thumbnailUrl.Str? {
      src := ExtractImgSrc(p.thumbnailUrl);
    }
    assert src == if cs[0] != "" then cs[0] else if cs[1] != "" then cs[1] else cs[2];
    if src == "" && p.thumbnailPath.Str? {
      src := ExtractImgSrc(p.thumbnailPath);
    }
    assert src == FirstNonEmpty(cs);
    url := Absolutize(src, origin, resolve);
  }

  /** A usable thumbnail wins over every later source. */
  lemma ThumbnailFirst(p: CardData, origin: string, resolve: (string, string) -> Option<string>)
    requires p.thumbnail.Str? && !Blank(p.thumbnail.s)
    ensures ThumbUrlOf(p, origin, resolve) == Absolutize(ExtractImgSrc(p.thumbnail), origin, resolve)
  {
  }

  /** There is no address exactly when no source gives one. */
  lemma NoThumbUrl(p: CardData, origin: string, resolve: (string, string) -> Option<string>)
    requires ResolvesNonEmpty(resolve)
    ensures ThumbUrlOf(p, origin, resolve) == "" <==>
      && (!p.thumbnail.Str? || Blank(p.thumbnail.s))
      && (!p.content.Str? || FirstTagSrc(p.content.s, 0).None?)
      && (!p.thumbnailUrl.Str? || Blank(p.thumbnailUrl.s))
      && (!p.thumbnailPath.Str? || Blank(p.thumbnailPath.s))
  {
    var cs := Candidates(p);
    AbsolutizeEmpty(FirstNonEmpty(cs), origin, resolve);
    assert cs[0] == ExtractImgSrc(p.thumbnail) && cs[1] == ContentImgSrc(p.content);
    assert cs[2] == ExtractImgSrc(p.thumbnailUrl) && cs[3] == ExtractImgSrc(p.thumbnailPath);
  }

  /** A card: whether `p` was an object, its thumbnail address, and `imgOk`. */
  class CardState {
    const valid: bool
    const thumbUrl: string
    var imgOk: bool

    /** The first render: `imgOk` starts true; a `p` that is not an object
        renders the placeholder and no image. */
    constructor (p: Option<CardData>, origin: string, resolve: (string, string) -> Option<string>)
      ensures valid == p.Some? && imgOk
      ensures p.Some? ==> thumbUrl == ThumbUrlOf(p.value, origin, resolve)
      ensures p.None? ==> thumbUrl == ""
    {
      var url := "";
      if p.Some? {
        url := ThumbUrl(p.value, origin, resolve);
      }
      valid := p.Some?;
      thumbUrl := url;
      imgOk := true;
    }

    /** `showImage`. */
    predicate ShowImage()
      reads this
    {
      valid && imgOk && |thumbUrl| > 0
    }

    /** `onError`: the image is hidden for the rest of the card's life. */
    method OnImgError()
      modifies this
      ensures !imgOk && !ShowImage()
    {
      imgOk := false;
    }
  }
}
