/** Routing a request against one store, and the responses served from it. */
module Serving {
  import opened Wrappers
  import opened Numbers
  import opened Headers
  import opened Negotiation
  import opened PreparedStore
  import opened Text

  const MANIFEST_PATH := "/.well-known/ajar.json"
  const PROBLEM_JSON := "application/problem+json"
  const AJAR_MANIFEST_LINK := "</.well-known/ajar.json>; rel=\"ajar-manifest\""
  const MAX_CACHE_SECONDS: i64 := 3_600

  datatype Verb = Get | OtherVerb

  /** The URI library's path, and its path and query when it has one. */
  datatype Request = Request(verb: Verb, path: string, pathAndQuery: Option<string>, headers: Headers)

  datatype Body = Empty | Stored(bytes: Bytes) | Markdown(text: string) | Problem(code: string) | Upstream(content: Bytes)

  datatype Response = Response(status: nat, headers: Headers, body: Body)

  // --------------------------------------------------------------------- routing

  datatype Route =
    | ToManifest
    | ToViewIndex
    | ToViewJson(view: StoredView)
    | ToViewMarkdown(view: StoredView)
    | ToOriginNegotiated
    | ToOrigin

  predicate FromStore(route: Route) {
    route.ToManifest? || route.ToViewIndex? || route.ToViewJson? || route.ToViewMarkdown?
  }

  /** A request for the manifest. */
  predicate AsksForManifest(request: Request) {
    request.verb == Get && request.path == MANIFEST_PATH
  }

  function TargetOfRequest(request: Request): string {
    match request.pathAndQuery
    case Some(text) => text
    case None => "/"
  }

  function RouteOf(store: Option<PreparedContentStore>, request: Request, parse: FloatParser): (route: Route)
    ensures FromStore(route) ==> store.Some?
  {
    if store.None? || request.verb != Get then ToOrigin
    else if request.path == MANIFEST_PATH then ToManifest
    else if request.path == store.value.manifest.viewsIndex then ToViewIndex
    else
      match store.value.ViewForRequestTarget(TargetOfRequest(request))
      case None => ToOrigin
      case Some(view) =>
        match Negotiated(CombinedAccept(request.headers), true, parse)
        case AjarJson => ToViewJson(view)
        case Markdown => ToViewMarkdown(view)
        case Passthrough => ToOriginNegotiated
  }

  // --------------------------------------------------- responses served from a store

  /** The tag the route's representation carries, and If-None-Match is compared with. */
  function EtagFor(route: Route, store: PreparedContentStore): string
    requires FromStore(route)
  {
    match route
    case ToManifest => store.manifest.etag
    case ToViewIndex => store.viewIndex.etag
    case ToViewJson(view) => view.view.etag
    case ToViewMarkdown(view) => view.view.etag
  }

  function BodyFor(route: Route, store: PreparedContentStore): Body
    requires FromStore(route)
  {
    match route
    case ToManifest => Stored(store.manifest.bytes)
    case ToViewIndex => Stored(store.viewIndex.bytes)
    case ToViewJson(view) => Stored(view.bytes)
    case ToViewMarkdown(view) => Body.Markdown(RenderMarkdown(view.view))
  }

  function ChunkText(chunk: ViewChunk): string {
    if chunk.chunkType == "heading" then "## " + chunk.content else chunk.content
  }

  function RenderChunks(chunks: seq<ViewChunk>): string {
    if chunks == [] then ""
    else if |chunks| == 1 then ChunkText(chunks[0])
    else ChunkText(chunks[0]) + "\n\n" + RenderChunks(chunks[1..])
  }

  function RenderMarkdown(view: View): string {
    RenderChunks(view.chunks)
  }

  /** The seconds a manifest may be cached; the subtraction wraps for clocks far before 1970. */
  function CacheSeconds(expiresAt: i64, now: i64): (seconds: i64)
    ensures 0 <= seconds <= MAX_CACHE_SECONDS
  {
    var left := Wrap64(expiresAt as int - now as int);
    if left < 0 then 0 else if left > MAX_CACHE_SECONDS then MAX_CACHE_SECONDS else left
  }

  function MaxAge(seconds: i64): string
    requires seconds >= 0
  {
    "max-age=" + Decimal(seconds as nat)
  }

  function ContentType(route: Route): string
    requires FromStore(route)
  {
    match route
    case ToManifest => "application/json"
    case ToViewIndex => "application/json"
    case ToViewJson(_) => AJAR_JSON
    case ToViewMarkdown(_) => "text/markdown; charset=utf-8"
  }

  /** The full response of an unexpired store. */
  function OkResponse(route: Route, store: PreparedContentStore, now: i64): Response
    requires FromStore(route)
  {
    var typed: Headers := map["content-type" := [ContentType(route)]];
    var headers :=
      match route
      case ToManifest =>
        InsertHeader(
          InsertHeader(typed, "cache-control", MaxAge(CacheSeconds(store.manifest.expiresAtUnix, now))),
          "etag", store.manifest.etag)
      case ToViewIndex => InsertHeader(typed, "etag", store.viewIndex.etag)
      case ToViewJson(view) => ViewHeaders(typed, view.view)
      case ToViewMarkdown(view) => ViewHeaders(typed, view.view);
    Response(200, headers, BodyFor(route, store))
  }

  function ViewHeaders(typed: Headers, view: View): Headers {
    InsertHeader(InsertHeader(typed, "etag", view.etag), "ajar-content-signature", view.sig)["vary" := ["Accept"]]
  }

  const NOT_MODIFIED: Response := Response(304, map[], Empty)

  function ProblemResponse(status: nat, code: string): Response {
    Response(status, map["content-type" := [PROBLEM_JSON], "ajar-error-code" := [code]], Problem(code))
  }

  const EXPIRED: Response := ProblemResponse(404, "AJAR-VERIFY-EXPIRED")

  predicate IsExpired(store: PreparedContentStore, now: i64) {
    store.manifest.expiresAtUnix <= now
  }

  /** The client already holds what this route would send. */
  predicate NoneMatch(request: Request, route: Route, store: PreparedContentStore)
    requires FromStore(route)
  {
    NoneMatchHit(request.headers, EtagFor(route, store))
  }

  /** What a store answers on one of its routes at one clock reading. */
  function StoreResponse(route: Route, store: PreparedContentStore, request: Request, now: i64): Response
    requires FromStore(route)
  {
    if IsExpired(store, now) then EXPIRED
    else if NoneMatch(request, route, store) then NOT_MODIFIED
    else OkResponse(route, store, now)
  }

  // ---------------------------------------------------- responses from the origin

  datatype ProxyError =
    | InvalidContentLength
    | RequestBodyTooLarge
    | InvalidUpstreamUri
    | UpstreamTimeout
    | UpstreamFailed

  /** How forwarding the request ends. */
  datatype Origin = Refused(error: ProxyError) | Replied(response: Response) | Failed | TimedOut

  function ErrorResponse(error: ProxyError): Response {
    match error
    case InvalidContentLength => ProblemResponse(413, "AJAR_GATEWAY_INVALID_CONTENT_LENGTH")
    case RequestBodyTooLarge => ProblemResponse(413, "AJAR_GATEWAY_REQUEST_BODY_TOO_LARGE")
    case InvalidUpstreamUri => ProblemResponse(502, "AJAR_GATEWAY_INVALID_UPSTREAM_URI")
    case UpstreamTimeout => ProblemResponse(502, "AJAR_GATEWAY_UPSTREAM_TIMEOUT")
    case UpstreamFailed => ProblemResponse(502, "AJAR_GATEWAY_UPSTREAM_ERROR")
  }

  predicate IsHtml(h: Headers) {
    var values := GetAll(h, "content-type");
    values != [] && IsReadable(values[0]) && Lower(Trim(Split(values[0], ';')[0])) == "text/html"
  }

  /** The origin's reply without its hop-by-hop headers, advertising the manifest on pages when there is one. */
  function Proxied(reply: Response, hasStore: bool): Response {
    var headers := EndToEnd(reply.headers);
    reply.(headers := if hasStore && IsHtml(headers) then AppendHeader(headers, "link", AJAR_MANIFEST_LINK) else headers)
  }

  /** The response to forwarding a request that ends this way. */
  function OriginResponse(origin: Origin, hasStore: bool): Response {
    match origin
    case Refused(error) => ErrorResponse(error)
    case Replied(reply) => Proxied(reply, hasStore)
    case Failed => ErrorResponse(UpstreamFailed)
    case TimedOut => ErrorResponse(UpstreamTimeout)
  }

  // -------------------------------------------------------------------- freshness

  /** Whatever the clock reads, a cached manifest never outlives its expiry; nor is it cut short without cause. */
  lemma CacheWithinExpiry(expiresAt: i64, now: i64)
    requires now < expiresAt
    ensures now as int + CacheSeconds(expiresAt, now) as int <= expiresAt as int
    ensures expiresAt as int - now as int < 0x8000_0000_0000_0000 ==>
              CacheSeconds(expiresAt, now) as int ==
                if expiresAt as int - now as int > 3_600 then 3_600 else expiresAt as int - now as int
    ensures expiresAt as int - now as int >= 0x8000_0000_0000_0000 ==> CacheSeconds(expiresAt, now) == 0
  {
    var gap := expiresAt as int - now as int;
    if gap < 0x8000_0000_0000_0000 {
      assert gap % TWO_TO_THE_64 == gap;
    } else {
      assert 0 <= gap < TWO_TO_THE_64;
      assert gap % TWO_TO_THE_64 == gap;
    }
  }

  // -------------------------------------------------------------------- markdown

  /** The markdown of a view: its chunks in order with an empty line between them, headings marked. */
  lemma {:induction false} MarkdownOfParts(a: seq<ViewChunk>, b: seq<ViewChunk>)
    ensures RenderChunks([]) == ""
    ensures a != [] && b != [] ==> RenderChunks(a + b) == RenderChunks(a) + "\n\n" + RenderChunks(b)
  {
    if a != [] && b != [] {
      assert (a + b)[1..] == a[1..] + b;
      if |a| == 1 {
        assert a[1..] + b == b;
      } else {
        MarkdownOfParts(a[1..], b);
        var head, rest, tail := ChunkText(a[0]), RenderChunks(a[1..]), RenderChunks(b);
        assert head + "\n\n" + (rest + "\n\n" + tail) == head + "\n\n" + rest + "\n\n" + tail;
      }
    }
  }

  lemma MarkdownOfChunk(view: View, chunk: ViewChunk)
    requires view.chunks == [chunk]
    ensures RenderMarkdown(view) == if chunk.chunkType == "heading" then "## " + chunk.content else chunk.content
  {}

  /** Both together, for a view cut at any chunk. */
  lemma MarkdownSplits(view: View, n: nat)
    requires 0 < n < |view.chunks|
    ensures RenderMarkdown(view) ==
              RenderMarkdown(view.(chunks := view.chunks[..n])) + "\n\n" + RenderMarkdown(view.(chunks := view.chunks[n..]))
  {
    MarkdownOfParts(view.chunks[..n], view.chunks[n..]);
    assert view.chunks[..n] + view.chunks[n..] == view.chunks;
  }
}
