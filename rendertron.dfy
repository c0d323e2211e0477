/** The YouTube search service of `Rendertron` (src/rendertron.ts): the
    target URL built from the search term, the video id taken from the
    first result's link, and the response `/search/:ytSearchTerm` gives.
    The headless browser is a parameter: `browse(url)` is what loading
    `url` and waiting for `#video-title` produced. */
module Rendertron {
  import opened Results
  import opened Unicode
  import opened UriComponent
  import opened JsSplit

  const SearchUrlPrefix: string := "https://www.youtube.com/results?search_query="

  /** The URL `ytSearch` navigates to: the fixed results page with the
      percent-encoded term as its `search_query`. It exists exactly for
      terms without a lone surrogate, and after the results page it holds
      only unreserved characters and `%XX` triplets. */
  function SearchUrl(searchTerm: seq<CodeUnit>): (r: Result<string, URIError>)
    ensures r.Success? <==> IsWellFormedUtf16(searchTerm)
    ensures r.Success? ==>
      && SearchUrlPrefix <= r.value
      && IsEscapedComponent(r.value[|SearchUrlPrefix|..])
  {
    EncodeSucceedsIffWellFormed(searchTerm);
    match EncodeURIComponent(searchTerm)
    case Success(encoded) =>
      assert (SearchUrlPrefix + encoded)[|SearchUrlPrefix|..] == encoded;
      Success(SearchUrlPrefix + encoded)
    case Failure(e) => Failure(e)
  }

  /** Percent-decoding the query of the URL gives back the term. */
  lemma SearchUrlSound(searchTerm: seq<CodeUnit>)
    ensures SearchUrl(searchTerm).Success? ==>
      DecodeURIComponent(SearchUrl(searchTerm).value[|SearchUrlPrefix|..]) == Success(searchTerm)
  {
    if EncodeURIComponent(searchTerm).Success? {
      var encoded := EncodeURIComponent(searchTerm).value;
      assert (SearchUrlPrefix + encoded)[|SearchUrlPrefix|..] == encoded;
      DecodeEncode(searchTerm);
    }
  }

  /** A term that came from Unicode text always has a search URL. */
  lemma SearchUrlOfText(text: string)
    ensures SearchUrl(JsString(text)).Success?
  {
    JsStringWellFormed(text);
  }

  /** The element `document.querySelector("#video-title")` found, with its
      `href` attribute (`None` when `getAttribute` returns null). */
  datatype Element = Element(href: Option<string>)

  /** The three ways extraction throws. */
  datatype ExtractError =
    | ElementMissing  // no `#video-title` element
    | HrefMissing     // the element has no `href`, or an empty one
    | NoVParam        // the link has no `v=`: `undefined.split("&")` throws

  /** The function `page.evaluate` runs in the page: the second part of the
      link split at `v=`, `None` standing for `undefined`. It is there
      exactly when the link has `v=`, and it is then what follows the first
      `v=`, up to the next `v=` or the end. */
  function EvaluateTitleLink(titleElement: Option<Element>): (r: Result<Option<string>, ExtractError>)
    ensures r.Success? <==>
      titleElement.Some? && titleElement.value.href.Some? && titleElement.value.href.value != ""
    ensures r.Success? ==>
      var href := titleElement.value.href.value;
      && (r.value.Some? <==> Contains(href, "v="))
      && (r.value.Some? ==> r.value.value == Split(href[IndexOf(href, "v=").value + 2..], "v=")[0])
  {
    match titleElement
    case None => Failure(ElementMissing)
    case Some(element) =>
      match element.href
      case None => Failure(HrefMissing)
      case Some(href) =>
        if href == "" then Failure(HrefMissing)
        else
          SecondPart(href, "v=");
          Success(SplitAt(href, "v=", 1))
  }

  /** `videoIdText.split("&")[0]`: the text up to its first `&`, or all of
      it; `undefined` throws. */
  function CutAtAmpersand(videoIdText: Option<string>): (r: Result<string, ExtractError>)
    ensures r.Success? <==> videoIdText.Some?
    ensures r.Success? ==>
      var text := videoIdText.value;
      r.value <= text && '&' !in r.value && (r.value == text || text[|r.value|] == '&')
  {
    match videoIdText
    case None => Failure(NoVParam)
    case Some(text) =>
      FirstPartSingle(text, '&');
      Success(Split(text, "&")[0])
  }

  /** The video id `ytSearch` takes from the first result. Without the
      element it fails with ElementMissing, without a non-empty `href` with
      HrefMissing, without `v=` in the link with NoVParam; in every other
      case it succeeds with the id of the link. */
  function ExtractVideoId(titleElement: Option<Element>): (r: Result<string, ExtractError>)
    ensures titleElement.None? ==> r == Failure(ElementMissing)
    ensures titleElement.Some? && (titleElement.value.href.None? || titleElement.value.href.value == "")
            ==> r == Failure(HrefMissing)
    ensures titleElement.Some? && titleElement.value.href.Some? && titleElement.value.href.value != ""
            && !Contains(titleElement.value.href.value, "v=")
            ==> r == Failure(NoVParam)
    ensures r.Success? <==>
      titleElement.Some? && titleElement.value.href.Some? && Contains(titleElement.value.href.value, "v=")
    ensures r.Success? ==> IsVideoIdOf(r.value, titleElement.value.href.value)
  {
    match EvaluateTitleLink(titleElement)
    case Failure(e) => Failure(e)
    case Success(videoIdText) =>
      match CutAtAmpersand(videoIdText)
      case Failure(e) => Failure(e)
      case Success(id) =>
        SplitsGiveVideoId(titleElement.value.href.value, id);
        Success(id)
  }

  /** What the id of a link is, stated without splitting: the text after the
      first `v=`, up to (not including) the next `&`, the next `v=` or the
      end, whichever comes first. */
  predicate IsVideoIdOf(id: string, href: string) {
    && Contains(href, "v=")
    && var rest := href[IndexOf(href, "v=").value + 2..];
    && id <= rest
    && '&' !in id
    && !Contains(id, "v=")
    && (id == rest || rest[|id|] == '&' || OccursAt(rest, "v=", |id|))
  }

  /** What the two splits leave of a link with `v=` is the id of the link:
      a prefix of what follows the first `v=` that stops at the next `&` or
      `v=`, or at the end. */
  lemma SplitsGiveVideoId(href: string, id: string)
    requires Contains(href, "v=")
    requires var text := Split(href[IndexOf(href, "v=").value + 2..], "v=")[0];
      id <= text && '&' !in id && (id == text || text[|id|] == '&')
    ensures IsVideoIdOf(id, href)
  {
    var rest := href[IndexOf(href, "v=").value + 2..];
    var text := Split(rest, "v=")[0];
    FirstPart(rest, "v=");
    PrefixAvoids(id, text, "v=");
    if id != text {
      assert rest[|id|] == text[|id|];
    }
  }

  /** At most one string is the id of a link, so IsVideoIdOf pins the
      extraction down completely. */
  lemma VideoIdUnique(a: string, b: string, href: string)
    requires IsVideoIdOf(a, href) && IsVideoIdOf(b, href)
    ensures a == b
  {
    NoEarlierStop(a, href, |b|);
    NoEarlierStop(b, href, |a|);
    var rest := href[IndexOf(href, "v=").value + 2..];
    assert a == rest[..|a|] && b == rest[..|b|];
  }

  /** Inside an id the link neither has `&` nor starts a `v=`. */
  lemma NoEarlierStop(id: string, href: string, k: nat)
    requires IsVideoIdOf(id, href)
    ensures var rest := href[IndexOf(href, "v=").value + 2..];
      k < |id| ==> rest[k] != '&' && !OccursAt(rest, "v=", k)
  {
    var rest := href[IndexOf(href, "v=").value + 2..];
    assert k < |id| ==> id[k] == rest[k];
    assert k + 2 <= |id| ==> id[k..k + 2] == rest[k..k + 2];
    OccursVAt(rest, k);
    OccursVAt(rest, k + 1);
    OccursVAt(id, k);
  }

  lemma OccursVAt(s: string, k: nat)
    ensures OccursAt(s, "v=", k) <==> k + 2 <= |s| && s[k] == 'v' && s[k + 1] == '='
  {
    if k + 2 <= |s| {
      assert s[k..k + 2] == [s[k], s[k + 1]];
    }
  }

  /** A link of the form `p` + `v=` + `id` + `&` + `q`, with no `v=` in `p`
      and neither `v=` nor `&` in `id`, gives `id`. */
  lemma ExtractFromWatchQuery(p: string, id: string, q: string)
    requires !Contains(p, "v=") && !Contains(id, "v=") && '&' !in id
    ensures ExtractVideoId(Some(Element(Some(p + "v=" + id + "&" + q)))) == Success(id)
  {
    var href := p + "v=" + id + "&" + q;
    var rest := id + "&" + q;
    assert href[..|p|] == p && href[|p|..|p| + 2] == "v=" && href[|p| + 2..] == rest;
    assert IndexOf(href, "v=") == Some(|p|) by {
      forall j: nat | j < |p|
        ensures !OccursAt(href, "v=", j)
      {
        OccursVAt(href, j);
        if j + 2 <= |p| {
          OccursVAt(p, j);
          assert p[j] == href[j] && p[j + 1] == href[j + 1];
        } else {
          assert href[j + 1] == 'v';
        }
      }
      assert OccursAt(href, "v=", |p|);
    }
    assert rest[|id|] == '&';
    assert IsVideoIdOf(id, href);
    VideoIdUnique(ExtractVideoId(Some(Element(Some(href)))).value, id, href);
  }

  /** The worked instance: `/watch?v=ABC123&list=XYZ` gives `ABC123`. */
  lemma ExtractWatchLink()
    ensures ExtractVideoId(Some(Element(Some("/watch?v=ABC123&list=XYZ")))) == Success("ABC123")
  {
    assert "/watch?" + "v=" + "ABC123" + "&" + "list=XYZ" == "/watch?v=ABC123&list=XYZ";
    assert !Contains("/watch?", "v=") by { NoOccurrence("/watch?", "v="); }
    assert !Contains("ABC123", "v=") by { NoOccurrence("ABC123", "v="); }
    ExtractFromWatchQuery("/watch?", "ABC123", "list=XYZ");
  }

  /** The id may be empty: when `&` directly follows the first `v=`, the
      answer is the empty string, not an error. */
  lemma ExtractEmptyId(p: string, q: string)
    requires !Contains(p, "v=")
    ensures ExtractVideoId(Some(Element(Some(p + "v=&" + q)))) == Success("")
  {
    assert p + "v=" + "" + "&" + q == p + "v=&" + q;
    NoOccurrence("", "v=");
    ExtractFromWatchQuery(p, "", q);
  }

  /** What the browser produced for a URL: a failure anywhere in launching,
      opening a page, navigating or waiting for `#video-title`, or the
      rendered page with the element `querySelector` then found. */
  datatype PageLoad = BrowserFailure | Loaded(titleElement: Option<Element>)

  datatype SearchError =
    | InvalidSearchTerm(uriError: URIError)
    | PageNotLoaded
    | ExtractionFailed(extractError: ExtractError)

  /** `ytSearch(searchTerm)`: build the URL, load it, extract the id. It
      succeeds exactly when the search can answer. The term is invalid
      exactly when it has a lone surrogate; the page is not loaded exactly
      when the browser fails on a valid URL; an extraction error is passed
      on; a result is the id of the link the loaded page shows. */
  function YtSearch(searchTerm: seq<CodeUnit>, browse: string -> PageLoad): (r: Result<string, SearchError>)
    ensures r.Success? <==> Answerable(searchTerm, browse)
    ensures r.Failure? && r.error.InvalidSearchTerm? <==> !IsWellFormedUtf16(searchTerm)
    ensures r.Failure? && r.error.PageNotLoaded? <==>
      SearchUrl(searchTerm).Success? && browse(SearchUrl(searchTerm).value).BrowserFailure?
    ensures SearchUrl(searchTerm).Success? && browse(SearchUrl(searchTerm).value).Loaded? ==>
      var titleElement := browse(SearchUrl(searchTerm).value).titleElement;
      ExtractVideoId(titleElement).Failure? ==>
        r == Failure(ExtractionFailed(ExtractVideoId(titleElement).error))
    ensures r.Success? ==>
      && SearchUrl(searchTerm).Success?
      && var load := browse(SearchUrl(searchTerm).value);
      && load.Loaded? && load.titleElement.Some? && load.titleElement.value.href.Some?
      && IsVideoIdOf(r.value, load.titleElement.value.href.value)
  {
    match SearchUrl(searchTerm)
    case Failure(e) => Failure(InvalidSearchTerm(e))
    case Success(url) =>
      match browse(url)
      case BrowserFailure => Failure(PageNotLoaded)
      case Loaded(titleElement) =>
        match ExtractVideoId(titleElement)
        case Failure(e) => Failure(ExtractionFailed(e))
        case Success(id) => Success(id)
  }

  /** The parts of the Koa context the handler writes. */
  datatype Context = Context(headers: map<string, string>, body: Option<string>)

  /** The search can answer: the term has a URL, the page loaded, the
      element has a link and the link has `v=`. */
  predicate Answerable(ytSearchTerm: seq<CodeUnit>, browse: string -> PageLoad) {
    && SearchUrl(ytSearchTerm).Success?
    && var load := browse(SearchUrl(ytSearchTerm).value);
    && load.Loaded? && load.titleElement.Some? && load.titleElement.value.href.Some?
    && Contains(load.titleElement.value.href.value, "v=")
  }

  /** `handleYTSearchRequest`: when the search can answer, the body becomes
      the link's id and the content type `text/plain`; in every other case,
      whatever the context held before, it is left as it was and nothing is
      rethrown. */
  function HandleYtSearchRequest(ctx: Context, ytSearchTerm: seq<CodeUnit>, browse: string -> PageLoad): (answered: Context)
    ensures Answerable(ytSearchTerm, browse) ==>
      && answered.headers == ctx.headers["Content-Type" := "text/plain"]
      && answered.body.Some?
      && IsVideoIdOf(answered.body.value, browse(SearchUrl(ytSearchTerm).value).titleElement.value.href.value)
    ensures !Answerable(ytSearchTerm, browse) ==> answered == ctx
  {
    match YtSearch(ytSearchTerm, browse)
    case Success(id) => ctx.(headers := ctx.headers["Content-Type" := "text/plain"], body := Some(id))
    case Failure(_) => ctx
  }

  /** Answering the same request again leaves the context as the first
      answer left it. */
  lemma HandlerIdempotent(ctx: Context, ytSearchTerm: seq<CodeUnit>, browse: string -> PageLoad)
    ensures var once := HandleYtSearchRequest(ctx, ytSearchTerm, browse);
      HandleYtSearchRequest(once, ytSearchTerm, browse) == once
  {
    var once := HandleYtSearchRequest(ctx, ytSearchTerm, browse);
    if YtSearch(ytSearchTerm, browse).Success? {
      assert once.headers["Content-Type" := "text/plain"] == once.headers;
    }
  }

  /** The end-to-end instance: whatever the term, when the page for its URL
      has a first result linking to `/watch?v=ABC123&list=XYZ`, the answer
      is `ABC123` as plain text. */
  lemma WatchLinkScenario(ctx: Context, ytSearchTerm: seq<CodeUnit>, browse: string -> PageLoad)
    requires SearchUrl(ytSearchTerm).Success?
    requires browse(SearchUrl(ytSearchTerm).value)
          == Loaded(Some(Element(Some("/watch?v=ABC123&list=XYZ"))))
    ensures HandleYtSearchRequest(ctx, ytSearchTerm, browse)
         == Context(ctx.headers["Content-Type" := "text/plain"], Some("ABC123"))
  {
    ExtractWatchLink();
  }

  /** Searching `lofi hip hop` navigates to
      `...search_query=lofi%20hip%20hop`: the words stay, the spaces
      become `%20`. */
  lemma LofiHipHopUrl()
    ensures SearchUrl(JsString("lofi" + " " + "hip" + " " + "hop"))
         == Success(SearchUrlPrefix + ("lofi" + "%20" + "hip" + "%20" + "hop"))
  {
    EncodeText("lofi" + " " + "hip" + " " + "hop");
    LofiHipHopEscaped();
  }

  lemma LofiHipHopEscaped()
    ensures EscapeText("lofi" + " " + "hip" + " " + "hop") == "lofi" + "%20" + "hip" + "%20" + "hop"
  {
    var lofi, hip, hop, space := "lofi", "hip", "hop", " ";
    assert EscapeText(lofi) == lofi by { EscapeUnreservedText(lofi); }
    assert EscapeText(hip) == hip by { EscapeUnreservedText(hip); }
    assert EscapeText(hop) == hop by { EscapeUnreservedText(hop); }
    assert EscapeText(space) == "%20" by { assert EscapeText(space) == EscapeByte(0x20); }
    EscapeTextConcat(lofi + space + hip + space, hop);
    EscapeTextConcat(lofi + space + hip, space);
    EscapeTextConcat(lofi + space, hip);
    EscapeTextConcat(lofi, space);
  }
}
