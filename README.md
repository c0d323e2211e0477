# Rendertron YouTube search, modelled in Dafny

Rendertron is a small Koa server. Its route `/search/:ytSearchTerm` answers
with the id of the first YouTube video found for a search term. This project
models the three steps of that answer in `src/rendertron.ts`:

1. **The search URL.** `ytSearch` opens the YouTube results page with the
   term as the `search_query` parameter. The term is percent-encoded by
   `encodeURIComponent`. `SearchUrl` models this URL. `UriComponent` models
   `encodeURIComponent` and its inverse `decodeURIComponent` as section
   19.2.6 of ECMA-262 defines them: UTF-16 code units in, the `%XX` triplets
   of the UTF-8 bytes out (section 2.1 of RFC 3986), and a URIError on a
   lone surrogate. `Unicode` holds the UTF-16 and UTF-8 codecs they use.
2. **The video id.** In the page, the first `#video-title` element's `href`
   is split at `v=` and part 1 is kept. Outside the page, that text is split
   at `&` and part 0 is kept. Each missing piece is an error:
   - no element gives ElementMissing;
   - no `href`, or an empty one, gives HrefMissing;
   - no `v=` in the link makes part 1 `undefined`, and the second split then
     throws, which gives NoVParam.

   `JsSplit` models `String.prototype.split` with a string separator, as
   section 22.1.3 of ECMA-262 defines it. `ExtractVideoId` models the whole
   step. `IsVideoIdOf` states independently of splitting what the id of a
   link is.
3. **The answer.** `handleYTSearchRequest` does one of two things:
   - on success, it sets `Content-Type: text/plain` and makes the id the body;
   - on any error, it logs the error and leaves the context as it was.

   `HandleYtSearchRequest` models this as a function from context to
   context.

The headless browser is a parameter of the model. `browse(url)` returns one
of two things:
- `BrowserFailure`: launching, opening a page, navigating or waiting for
  `#video-title` threw;
- `Loaded(titleElement)`: the element that `document.querySelector` then
  found, if any.

When the search fails, the handler sends no error answer of its own. It
logs the error (src/rendertron.ts:93-95) and leaves the context alone, so
Koa's default answer stands. The model keeps the context unchanged.

## Model

| member | source | states |
|---|---|---|
| Rendertron.SearchUrl | src/rendertron.ts:58-61 | The URL exists exactly when the term has no lone surrogate. It then starts with the results page, and its query holds only unreserved characters and upper-case `%XX` triplets. |
| Rendertron.SearchUrlSound | src/rendertron.ts:58-61 | Percent-decoding the query of the URL gives back the term. |
| Rendertron.SearchUrlOfText | src/rendertron.ts:58-61 | A term made of Unicode text always gets a search URL. |
| Rendertron.LofiHipHopUrl | src/rendertron.ts:58-61 | Searching `lofi hip hop` navigates to the results page with `search_query=lofi%20hip%20hop`. |
| UriComponent.EncodeURIComponent | src/rendertron.ts:59-61 | When the encoder succeeds, its output is made only of unreserved characters and `%` followed by two upper-case hexadecimal digits. |
| UriComponent.EncodeSucceedsIffWellFormed | src/rendertron.ts:59-61 | The encoder throws URIError exactly on input with a lone surrogate, in both directions. |
| UriComponent.DecodeURIComponent | src/rendertron.ts:59-61 | What the decoder returns never holds a lone surrogate, so encoding it again always succeeds. |
| UriComponent.DecodeEncode | src/rendertron.ts:59-61 | `decodeURIComponent` undoes `encodeURIComponent`: decoding a successful encoding gives back the input. |
| UriComponent.EncodeText | src/rendertron.ts:59-61 | On the UTF-16 of Unicode text, the encoder agrees with a reference definition that works code point by code point: unreserved characters stay, and every other character becomes its UTF-8 triplets. |
| UriComponent.DecodeEscapedCodePoint | src/rendertron.ts:59-61 | Decoding the triplets of one code point's UTF-8 gives that code point's UTF-16, followed by the decoding of the rest. |
| Unicode.Utf8RoundTrip | src/rendertron.ts:59-61 | Decoding the UTF-8 of a scalar value gives the value back. |
| Unicode.Utf8DecodeOnlyCanonical | src/rendertron.ts:59-61 | The UTF-8 decoder accepts only canonical encodings: what it returns is a scalar value, and encoding that value gives exactly the bytes decoded. So overlong forms, surrogates and values above U+10FFFF are rejected. |
| Unicode.Utf16Encode | src/rendertron.ts:59-61 | A code point has one code unit (itself, not a surrogate) or a high/low surrogate pair that combines back to it. |
| Unicode.JsStringWellFormed | src/rendertron.ts:59-61 | The UTF-16 of Unicode text never holds a lone surrogate. |
| JsSplit.IndexOfFrom | src/rendertron.ts:77 | The result is the first occurrence of the separator at or after the start position: it occurs there and at no index between the start and it. There is no result exactly when no occurrence starts at or after the start. |
| JsSplit.IndexOf | src/rendertron.ts:77 | The result is the first occurrence of the separator: it occurs there and at no earlier index. There is no result exactly when the separator does not occur. |
| JsSplit.Split | src/rendertron.ts:77-80 | Joining the parts with the separator gives back the input, for every separator including the empty one. A non-empty separator gives at least one part; the empty one gives part `i` equal to the single code unit `s[i]`, for every `i`. |
| JsSplit.SplitAt | src/rendertron.ts:77-80 | Part `k` exists exactly when the split has more than `k` parts. Part 0 always exists for a non-empty separator, and no part contains a non-empty separator. |
| JsSplit.SplitPartsAvoidSeparator | src/rendertron.ts:77-80 | No part of a split by a non-empty separator contains the separator. |
| JsSplit.SecondPart | src/rendertron.ts:77 | `split(sep)[1]` is defined exactly when `sep` occurs. It is then the first part of the text after the first occurrence. |
| JsSplit.FirstPart | src/rendertron.ts:80 | `split(sep)[0]` is the whole input when `sep` does not occur, and otherwise the input up to the first occurrence of `sep`. So it is a prefix without `sep` that ends at the first occurrence or at the end. |
| JsSplit.FirstPartSingle | src/rendertron.ts:80 | `split("&")[0]` is a prefix without `&`, followed in the input by `&` or by the end. |
| Rendertron.EvaluateTitleLink | src/rendertron.ts:68-78 | The page function returns a value exactly when there is an element with a non-empty `href`. The value is defined exactly when the link has `v=`, and it is then the text after the first `v=`, up to the next `v=` or the end. |
| Rendertron.CutAtAmpersand | src/rendertron.ts:80 | `undefined` throws. Otherwise the result is a prefix of the text without `&`, and it stops at the first `&` or at the end. |
| Rendertron.ExtractVideoId | src/rendertron.ts:68-80 | No element gives ElementMissing. A missing or empty `href` gives HrefMissing. A link without `v=` gives NoVParam. Extraction succeeds exactly when there is an element whose link contains `v=`, and the id is then the video id of the link (IsVideoIdOf). |
| Rendertron.SplitsGiveVideoId | src/rendertron.ts:77-80 | What the two splits leave of a link is its video id: the text after the first `v=`, without `&` and `v=`, that stops exactly at the next `&`, the next `v=` or the end. |
| Rendertron.VideoIdUnique | src/rendertron.ts:77-80 | At most one string is the video id of a link, so the statement above determines the extracted id completely. |
| Rendertron.ExtractFromWatchQuery | src/rendertron.ts:77-80 | A link `p` + `v=` + `id` + `&` + `q` gives `id`, when `p` has no `v=` and `id` has neither `v=` nor `&`. |
| Rendertron.ExtractWatchLink | src/rendertron.ts:77-80 | `/watch?v=ABC123&list=XYZ` gives `ABC123`. |
| Rendertron.ExtractEmptyId | src/rendertron.ts:77-80 | When `&` directly follows the first `v=` (nothing before it has a `v=`), the id is the empty string, as for `?v=&a`. It is not an error. |
| Rendertron.YtSearch | src/rendertron.ts:54-85 | The search succeeds exactly when the term has a URL, the page loaded, the element has a link and the link contains `v=`; the result is then the video id of that link. It fails with InvalidSearchTerm exactly when the term has a lone surrogate, with PageNotLoaded exactly when the browser fails on a valid URL, and with the extraction's own error when the page loaded but extraction failed. |
| Rendertron.HandleYtSearchRequest | src/rendertron.ts:87-96 | For every context: when the term has a URL, the page loaded, the element has a link and the link contains `v=`, the body becomes the link's video id and `Content-Type` becomes `text/plain`, with the other headers kept. In every other case the context is unchanged and no error escapes. |
| Rendertron.HandlerIdempotent | src/rendertron.ts:87-96 | Handling the same request a second time, with the browser showing the same page for the URL, leaves the context as the first answer left it. |
| Rendertron.WatchLinkScenario | src/rendertron.ts:54-96 | For any term with a URL, if the page's first result links to `/watch?v=ABC123&list=XYZ`, then the context gets `ABC123` as a `text/plain` body. Nothing else in the modelled context (the headers and the body) changes. |

## Left out

- The Koa application, its routes and middleware are not part of this model. That covers the server start-up, the rendering routes and the configuration. The datastore cache middleware (src/rendertron.ts:41-45), when it is configured, is registered before the search route and may answer a search request itself; that path is not modelled.
- The decoding of `:ytSearchTerm` from the request path is not modelled. The handler is given the term as it arrives, as a sequence of UTF-16 code units.
- The HTTP status is not modelled. Koa answers 404 when the handler sets no body, and 200 when it sets one; the model shows only that the context is left unchanged or gets its body.
- Setting the body also makes Koa set `Content-Length`. The model does not hold that header.
- Puppeteer is reduced to the `browse` parameter. Launching, pages, navigation and `waitForSelector` with its timeout are not modelled, and neither is the page's DOM beyond the `#video-title` element and its `href`.
- YtSearch: the code launches the browser before it encodes the term. The model encodes first, so a term with a lone surrogate is reported as InvalidSearchTerm even when the browser would also have failed to launch. The handler swallows both errors, so the answer is the same.
- The browser is never closed by the code. Its lifetime, and the resources it holds across requests, are not modelled.
- `console.log` output, asynchrony and concurrent requests are not modelled.
- HandlerIdempotent: both calls are given the same `browse`, that is, the same page for the same URL. The code launches a new browser and loads the live results page on each call (src/rendertron.ts:56-65), so a second request may find a different first result.
- The context is modelled as a value that the handler returns, not as an object updated in place. Only the response headers and the body are modelled.
- Header names are compared as exact strings in the model's `headers` map. Node's header store ignores case, so `ctx.set('Content-Type', …)` replaces an existing `content-type` entry, while the model would keep both.
- The link is modelled as a Dafny `string`, a sequence of scalar values, rather than as UTF-16 code units. The separators `v=` and `&` are ASCII, so both views split a link the same way.
