/** Answers traced back to what they were made from: one directory as one load read it, or one reply of the origin. */
module GatewayContent {
  import opened Wrappers
  import opened Numbers
  import opened Headers
  import opened Negotiation
  import opened PreparedStore
  import opened Serving
  import opened Gateway
  import opened GatewaySafety
  import opened StoreTheorems
  import opened Text
  import opened EntityTag
  import opened AcceptGrammar
  import opened Revalidation

  // ------------------------------------------------------------------- one route

  /** The text a view has to be published at for this request: the path and query, or a slash when there is none. */
  predicate Targets(request: Request, target: string) {
    request.pathAndQuery == Some(target) || (request.pathAndQuery == None && target == "/")
  }

  /** Position n of the directory's view files is one whose URL maps to what the request targets. */
  ghost predicate IsTargeted(disk: Disk, n: nat, request: Request) {
    && disk.listing.Some? && n < |ViewNames(disk.listing.value)| && ViewAt(disk, n).Some?
    && TargetAt(disk, n).Success? && Targets(request, TargetAt(disk, n).value)
  }

  ghost predicate HasView(disk: Disk, request: Request) {
    exists n: nat :: IsTargeted(disk, n, request)
  }

  /** What a request has to be for its route, read off the files of the directory the store was loaded from. */
  ghost predicate RightlyRouted(route: Route, request: Request, disk: Disk, parse: FloatParser) {
    && disk.manifest.Contents? && disk.manifest.file.json.Typed?
    && var indexPath := disk.manifest.file.json.value.viewsIndex;
       var chosen := Preferred(AcceptItems(GetAll(request.headers, "accept")), parse);
       var ownPath := request.path == "/.well-known/ajar.json" || request.path == indexPath;
       match route
       case ToManifest => request.verb == Get && request.path == "/.well-known/ajar.json"
       case ToViewIndex =>
         request.verb == Get && request.path != "/.well-known/ajar.json" && request.path == indexPath
       case ToViewJson(_) => request.verb == Get && !ownPath && HasView(disk, request) && chosen == AjarJson
       case ToViewMarkdown(_) =>
         request.verb == Get && !ownPath && HasView(disk, request) && chosen == Representation.Markdown
       case ToOriginNegotiated =>
         request.verb == Get && !ownPath && HasView(disk, request) && chosen == Passthrough
       case ToOrigin => request.verb == Get ==> !ownPath && !HasView(disk, request)
  }

  /** The view a route serves is the content of the one file whose URL maps to what the request targets. */
  ghost predicate ServesFile(disk: Disk, n: nat, view: StoredView, request: Request) {
    IsTargeted(disk, n, request) && view == StoredView(ViewAt(disk, n).value.bytes, ViewAt(disk, n).value.json.value)
  }

  lemma TargetExactly(request: Request, target: string)
    ensures Targets(request, target) <==> target == TargetOfRequest(request)
  {}

  /** A view file for the request is one that loads under the request's target. */
  lemma HasViewExactly(disk: Disk, request: Request)
    requires disk.listing.Some?
    ensures HasView(disk, request) <==> Comes(TargetOfRequest(request), LoadedViews(disk))
  {
    var loaded, target := LoadedViews(disk), TargetOfRequest(request);
    if n: nat :| IsTargeted(disk, n, request) {
      LoadedAt(disk, n);
      TargetExactly(request, TargetAt(disk, n).value);
      assert loaded[n].Success? && loaded[n].value.0 == target;
    }
    if Comes(target, loaded) {
      var n :| 0 <= n < |loaded| && loaded[n].Success? && loaded[n].value.0 == target;
      LoadedAt(disk, n);
      TargetExactly(request, target);
      assert IsTargeted(disk, n, request);
    }
  }

  lemma RouteIsRight(disk: Disk, now: i64, store: PreparedContentStore, request: Request, parse: FloatParser)
    requires Load(disk, now) == Success(store)
    ensures RightlyRouted(RouteOf(Some(store), request, parse), request, disk, parse)
  {
    LinesDoNotMatter(request.headers, parse);
    LoadKeepsManifest(disk, now);
    LoadsExactly(disk, now);
    HasViewExactly(disk, request);
    LookupIsScan(disk, now, TargetOfRequest(request));
    RouteFromStore(store, request, disk, parse);
  }

  lemma RouteFromStore(store: PreparedContentStore, request: Request, disk: Disk, parse: FloatParser)
    requires disk.manifest.Contents? && disk.manifest.file.json.Typed?
    requires store.manifest.viewsIndex == disk.manifest.file.json.value.viewsIndex
    requires store.ViewForRequestTarget(TargetOfRequest(request)).Some? <==> HasView(disk, request)
    requires Negotiated(CombinedAccept(request.headers), true, parse)
             == Preferred(AcceptItems(GetAll(request.headers, "accept")), parse)
    ensures RightlyRouted(RouteOf(Some(store), request, parse), request, disk, parse)
  {}

  lemma RoutedView(store: PreparedContentStore, request: Request, parse: FloatParser)
    requires var route := RouteOf(Some(store), request, parse); route.ToViewJson? || route.ToViewMarkdown?
    ensures store.ViewForRequestTarget(TargetOfRequest(request)) == Some(RouteOf(Some(store), request, parse).view)
  {}

  lemma RouteServesFile(disk: Disk, now: i64, store: PreparedContentStore, request: Request, parse: FloatParser)
    returns (n: nat)
    requires Load(disk, now) == Success(store)
    requires var route := RouteOf(Some(store), request, parse); route.ToViewJson? || route.ToViewMarkdown?
    ensures ServesFile(disk, n, RouteOf(Some(store), request, parse).view, request)
  {
    RoutedView(store, request, parse);
    n := LookupIsFile(disk, now, TargetOfRequest(request));
    TargetExactly(request, TargetOfRequest(request));
  }

  /** The same URL at an origin of its own by either scheme, or as path and query alone. */
  predicate PublishedAt(url: string, authority: string, tail: string) {
    && '/' !in authority && tail != "" && tail[0] == '/'
    && url in {"http://" + authority + tail, "https://" + authority + tail, tail}
  }

  /**
   A published view is served. A GET whose path and query are those of the view's URL, or,
   having none, of a view published at a slash, is routed to that very view in the
   representation its Accept lines prefer, unless its path is the manifest's or the index's.
   */
  lemma PublishedViewIsServed(disk: Disk, now: i64, n: nat, authority: string, tail: string, request: Request,
                              parse: FloatParser)
    requires Load(disk, now).Success? && disk.listing.Some? && n < |ViewNames(disk.listing.value)| && ViewAt(disk, n).Some?
    requires PublishedAt(ViewAt(disk, n).value.json.value.url, authority, tail)
    requires request.verb == Get && request.path != "/.well-known/ajar.json"
    requires disk.manifest.Contents? && disk.manifest.file.json.Typed?
             && request.path != disk.manifest.file.json.value.viewsIndex
    requires request.pathAndQuery == Some(tail) || (request.pathAndQuery == None && tail == "/")
    ensures var view := StoredView(ViewAt(disk, n).value.bytes, ViewAt(disk, n).value.json.value);
            RouteOf(Some(Load(disk, now).value), request, parse) ==
              match Preferred(AcceptItems(GetAll(request.headers, "accept")), parse)
              case AjarJson => ToViewJson(view)
              case Markdown => ToViewMarkdown(view)
              case Passthrough => ToOriginNegotiated
  {
    PublishedViewIsFound(disk, now, n, authority, tail);
    LoadKeepsManifest(disk, now);
    LinesDoNotMatter(request.headers, parse);
    RouteToView(Load(disk, now).value, request, tail, parse);
  }

  lemma RouteToView(store: PreparedContentStore, request: Request, tail: string, parse: FloatParser)
    requires request.verb == Get && request.path != "/.well-known/ajar.json" && request.path != store.manifest.viewsIndex
    requires request.pathAndQuery == Some(tail) || (request.pathAndQuery == None && tail == "/")
    requires store.ViewForRequestTarget(tail).Some?
    ensures RouteOf(Some(store), request, parse) ==
              match Negotiated(CombinedAccept(request.headers), true, parse)
              case AjarJson => ToViewJson(store.ViewForRequestTarget(tail).value)
              case Markdown => ToViewMarkdown(store.ViewForRequestTarget(tail).value)
              case Passthrough => ToOriginNegotiated
  {}

  /** The index is served at the path that the manifest file names, and the manifest at its well-known path. */
  lemma IndexIsServed(disk: Disk, now: i64, request: Request, parse: FloatParser)
    requires Load(disk, now).Success? && request.verb == Get
    ensures disk.manifest.Contents? && disk.manifest.file.json.Typed?
    ensures request.path == "/.well-known/ajar.json" ==>
              RouteOf(Some(Load(disk, now).value), request, parse) == ToManifest
    ensures request.path == disk.manifest.file.json.value.viewsIndex && request.path != "/.well-known/ajar.json" ==>
              RouteOf(Some(Load(disk, now).value), request, parse) == ToViewIndex
  {
    LoadKeepsManifest(disk, now);
  }

  // ------------------------------------------------------------ answers of a run

  /**
   Every view answered in full is one file of the directory its generation was loaded from:
   the file whose URL maps to the request's target. Body, tag and signature are all that
   file's, in the representation the Accept lines prefer.
   */
  lemma ViewAnswersAreOneFile(g: Gateway, actions: seq<Action>, i: nat, parse: FloatParser) returns (n: nat)
    requires Started(g) && ValidInv(g)
    requires i < |Run(g, actions, parse).history.answers|
    requires var r := Run(g, actions, parse).history.answers[i];
             && r.source.FromTheStore? && r.response.status == 200
             && (r.source.route.ToViewJson? || r.source.route.ToViewMarkdown?)
    ensures var h := Run(g, actions, parse).history;
            var r := h.answers[i];
            && r.generation < |h.generations|
            && var from := h.generations[r.generation];
               && RightlyRouted(r.source.route, r.request, from.disk, parse)
               && ServesFile(from.disk, n, r.source.route.view, r.request)
               && SaysView(r.response, r.source.route.view, r.source.route.ToViewJson?)
  {
    AnswersAreWholeAndFresh(g, actions, i, parse);
    var h := Run(g, actions, parse).history;
    var r := h.answers[i];
    var from := h.generations[r.generation];
    ServedStoresWereLoaded(g, actions, r.generation, parse);
    RouteIsRight(from.disk, from.now, from.store, r.request, parse);
    n := RouteServesFile(from.disk, from.now, from.store, r.request, parse);
    OkSaysView(r.source.route, from.store, r.source.now);
  }

  /** A full answer made from this view: its bytes or its text, its tag and signature, varying with Accept. */
  ghost predicate SaysView(response: Response, view: StoredView, json: bool) {
    && response.status == 200
    && response.body == (if json then Stored(view.bytes) else Body.Markdown(RenderMarkdown(view.view)))
    && GetAll(response.headers, "content-type") == [if json then AJAR_JSON else "text/markdown; charset=utf-8"]
    && GetAll(response.headers, "etag") == (if IsInsertable(view.view.etag) then [view.view.etag] else [])
    && GetAll(response.headers, "ajar-content-signature")
       == (if IsInsertable(view.view.sig) then [view.view.sig] else [])
    && GetAll(response.headers, "vary") == ["Accept"]
  }

  lemma OkSaysView(route: Route, store: PreparedContentStore, now: i64)
    requires route.ToViewJson? || route.ToViewMarkdown?
    ensures SaysView(OkResponse(route, store, now), route.view, route.ToViewJson?)
  {}

  /**
   The manifest and the view index are answered with the bytes their load read from that same
   directory, as JSON, with the tag of those bytes; the index on the path that the manifest
   file of that directory names.
   */
  lemma ArtifactAnswersAreTheirFiles(g: Gateway, actions: seq<Action>, i: nat, parse: FloatParser)
    requires Started(g) && ValidInv(g)
    requires i < |Run(g, actions, parse).history.answers|
    requires var r := Run(g, actions, parse).history.answers[i];
             && r.source.FromTheStore? && r.response.status == 200
             && (r.source.route.ToManifest? || r.source.route.ToViewIndex?)
    ensures var h := Run(g, actions, parse).history;
            var r := h.answers[i];
            && r.generation < |h.generations|
            && var from := h.generations[r.generation];
               && RightlyRouted(r.source.route, r.request, from.disk, parse)
               && from.disk.manifest.Contents? && from.disk.viewIndex.Contents?
               && SaysArtifact(r.response, r.source.route.ToManifest?,
                               if r.source.route.ToManifest? then from.disk.manifest.file.bytes
                               else from.disk.viewIndex.file.bytes)
  {
    AnswersAreWholeAndFresh(g, actions, i, parse);
    var h := Run(g, actions, parse).history;
    var r := h.answers[i];
    var from := h.generations[r.generation];
    ServedStoresWereLoaded(g, actions, r.generation, parse);
    RouteIsRight(from.disk, from.now, from.store, r.request, parse);
    LoadKeepsBytes(from.disk, from.now);
    LoadedIsWellTagged(from.disk, from.now);
    OkSaysArtifact(r.source.route, from.store, r.source.now);
  }

  /** A full answer made from these bytes: as JSON, with the tag of the bytes under the artifact's own name. */
  ghost predicate SaysArtifact(response: Response, manifest: bool, bytes: Bytes) {
    && response.status == 200 && response.body == Stored(bytes)
    && GetAll(response.headers, "content-type") == ["application/json"]
    && GetAll(response.headers, "etag") == [EtagOf(ArtifactName(manifest), bytes, None)]
  }

  /** The ASCII of `manifest` and of `view-index`. */
  function ArtifactName(manifest: bool): Bytes {
    if manifest then ['m' as int, 'a' as int, 'n' as int, 'i' as int, 'f' as int, 'e' as int, 's' as int, 't' as int]
    else ['v' as int, 'i' as int, 'e' as int, 'w' as int, '-' as int,
          'i' as int, 'n' as int, 'd' as int, 'e' as int, 'x' as int]
  }

  lemma OkSaysArtifact(route: Route, store: PreparedContentStore, now: i64)
    requires route.ToManifest? || route.ToViewIndex?
    requires WellTagged(store)
    ensures SaysArtifact(OkResponse(route, store, now), route.ToManifest?,
                         if route.ToManifest? then store.manifest.bytes else store.viewIndex.bytes)
  {
    TagIsInsertable(TheManifest, store.manifest.bytes);
    TagIsInsertable(TheViewIndex, store.viewIndex.bytes);
    OkArtifact(route, store, now);
    assert ArtifactName(true) == MANIFEST_PREFIX && ArtifactName(false) == VIEW_INDEX_PREFIX;
  }

  lemma OkArtifact(route: Route, store: PreparedContentStore, now: i64)
    requires route.ToManifest? || route.ToViewIndex?
    requires IsInsertable(store.manifest.etag) && IsInsertable(store.viewIndex.etag)
    ensures var response := OkResponse(route, store, now);
            && response.status == 200 && GetAll(response.headers, "content-type") == ["application/json"]
            && response.body == Stored(if route.ToManifest? then store.manifest.bytes else store.viewIndex.bytes)
            && GetAll(response.headers, "etag") == [if route.ToManifest? then store.manifest.etag else store.viewIndex.etag]
  {}

  lemma LoadKeepsBytes(disk: Disk, now: i64)
    requires Load(disk, now).Success?
    ensures disk.manifest.Contents? && Load(disk, now).value.manifest.bytes == disk.manifest.file.bytes
    ensures disk.viewIndex.Contents? && Load(disk, now).value.viewIndex.bytes == disk.viewIndex.file.bytes
  {}

  /**
   In every run: a GET for a view published in its generation's directory is answered that
   view, in the representation its Accept lines prefer, or, by a store past its expiry, the
   expired problem; only when they prefer neither does the origin answer.
   */
  lemma PublishedViewIsAnswered(g: Gateway, actions: seq<Action>, i: nat, n: nat, authority: string, tail: string,
                                parse: FloatParser)
    requires Started(g) && ValidInv(g)
    requires i < |Run(g, actions, parse).history.answers|
    requires var h := Run(g, actions, parse).history;
             var r := h.answers[i];
             && h.generations != [] && r.generation < |h.generations|
             && var disk := h.generations[r.generation].disk;
                && disk.listing.Some? && n < |ViewNames(disk.listing.value)| && ViewAt(disk, n).Some?
                && PublishedAt(ViewAt(disk, n).value.json.value.url, authority, tail)
                && disk.manifest.Contents? && disk.manifest.file.json.Typed?
                && r.request.verb == Get && r.request.path != "/.well-known/ajar.json"
                && r.request.path != disk.manifest.file.json.value.viewsIndex
                && (r.request.pathAndQuery == Some(tail) || (r.request.pathAndQuery == None && tail == "/"))
    ensures var h := Run(g, actions, parse).history;
            var r := h.answers[i];
            var file := ViewAt(h.generations[r.generation].disk, n).value;
            var view := StoredView(file.bytes, file.json.value);
            match r.source
            case FromTheStore(route, _) =>
              (match Preferred(AcceptItems(GetAll(r.request.headers, "accept")), parse)
               case AjarJson => route == ToViewJson(view)
               case Markdown => route == ToViewMarkdown(view)
               case Passthrough => false)
            case ExpiredStore(_) => Preferred(AcceptItems(GetAll(r.request.headers, "accept")), parse) != Passthrough
            case FromTheOrigin(_, _) => Preferred(AcceptItems(GetAll(r.request.headers, "accept")), parse) == Passthrough
  {
    var h := Run(g, actions, parse).history;
    var r := h.answers[i];
    var from := h.generations[r.generation];
    RouteBehind(g, actions, i, parse);
    PublishedViewIsServed(from.disk, from.now, n, authority, tail, r.request, parse);
  }

  /** And a GET for the path that its generation's manifest file names, other than the manifest's own, gets the index. */
  lemma IndexIsAnswered(g: Gateway, actions: seq<Action>, i: nat, parse: FloatParser)
    requires Started(g) && ValidInv(g)
    requires i < |Run(g, actions, parse).history.answers|
    requires var h := Run(g, actions, parse).history;
             var r := h.answers[i];
             && h.generations != [] && r.generation < |h.generations| && r.request.verb == Get
             && var disk := h.generations[r.generation].disk;
                disk.manifest.Contents? && disk.manifest.file.json.Typed?
    ensures var h := Run(g, actions, parse).history;
            var r := h.answers[i];
            var indexPath := h.generations[r.generation].disk.manifest.file.json.value.viewsIndex;
            && (r.request.path == "/.well-known/ajar.json" || r.request.path == indexPath ==>
                  r.source.FromTheStore? || r.source.ExpiredStore?)
            && (r.request.path == "/.well-known/ajar.json" && r.source.FromTheStore? ==> r.source.route == ToManifest)
            && (r.request.path == indexPath && r.request.path != "/.well-known/ajar.json" && r.source.FromTheStore? ==>
                  r.source.route == ToViewIndex)
  {
    var h := Run(g, actions, parse).history;
    var r := h.answers[i];
    var from := h.generations[r.generation];
    RouteBehind(g, actions, i, parse);
    IndexIsServed(from.disk, from.now, r.request, parse);
  }

  /** The route behind an answer of a generation that was loaded. */
  lemma RouteBehind(g: Gateway, actions: seq<Action>, i: nat, parse: FloatParser)
    requires Started(g) && ValidInv(g)
    requires i < |Run(g, actions, parse).history.answers|
    requires var h := Run(g, actions, parse).history; h.answers[i].generation < |h.generations|
    ensures var h := Run(g, actions, parse).history;
            var r := h.answers[i];
            var from := h.generations[r.generation];
            var route := RouteOf(Some(from.store), r.request, parse);
            && Load(from.disk, from.now) == Success(from.store)
            && (r.source.FromTheStore? ==> r.source.route == route && FromStore(route))
            && (r.source.ExpiredStore? ==> FromStore(route))
            && (r.source.FromTheOrigin? ==> !FromStore(route))
  {
    var h := Run(g, actions, parse).history;
    ServedStoresWereLoaded(g, actions, h.answers[i].generation, parse);
    StartedInv(g, parse);
    InvRun(g, actions, parse);
    RouteRecorded(h.answers[i], h.generations, parse);
  }

  lemma RouteRecorded(r: Answer, generations: seq<Generation>, parse: FloatParser)
    requires RecordOk(r, generations, parse) && r.generation < |generations|
    ensures var route := RouteOf(Some(generations[r.generation].store), r.request, parse);
            && (r.source.FromTheStore? ==> r.source.route == route && FromStore(route))
            && (r.source.ExpiredStore? ==> FromStore(route))
            && (r.source.FromTheOrigin? ==> !FromStore(route))
  {}

  /** A request reaches the origin only when its generation has nothing for it, or it prefers neither representation. */
  lemma OriginAnswersHadNoContent(g: Gateway, actions: seq<Action>, i: nat, parse: FloatParser)
    requires Started(g) && ValidInv(g)
    requires i < |Run(g, actions, parse).history.answers|
    requires Run(g, actions, parse).history.answers[i].source.FromTheOrigin?
    ensures var h := Run(g, actions, parse).history;
            var r := h.answers[i];
            h.generations != [] ==>
              && r.generation < |h.generations|
              && var from := h.generations[r.generation];
                 || RightlyRouted(ToOrigin, r.request, from.disk, parse)
                 || RightlyRouted(ToOriginNegotiated, r.request, from.disk, parse)
  {
    OriginOnlyWithoutContent(g, actions, i, parse);
    var h := Run(g, actions, parse).history;
    var r := h.answers[i];
    if h.generations != [] {
      var from := h.generations[r.generation];
      ServedStoresWereLoaded(g, actions, r.generation, parse);
      NothingToServe(from, r.request, parse);
    }
  }

  lemma NothingToServe(from: Generation, request: Request, parse: FloatParser)
    requires Valid(from) && !FromStore(RouteOf(Some(from.store), request, parse))
    ensures RightlyRouted(ToOrigin, request, from.disk, parse)
            || RightlyRouted(ToOriginNegotiated, request, from.disk, parse)
  {
    RouteIsRight(from.disk, from.now, from.store, request, parse);
    var route := RouteOf(Some(from.store), request, parse);
    assert route == ToOrigin || route == ToOriginNegotiated;
  }

  /**
   What the client gets of an origin's reply: status and body untouched, every end-to-end
   header with all its values, no other header, and on a page, when there is a store, one
   more link naming the manifest.
   */
  lemma OriginAnswersAreEndToEnd(g: Gateway, actions: seq<Action>, i: nat, parse: FloatParser)
    requires Started(g)
    requires i < |Run(g, actions, parse).history.answers|
    requires var r := Run(g, actions, parse).history.answers[i];
             r.source.FromTheOrigin? && r.source.outcome.Replied?
    ensures var h := Run(g, actions, parse).history;
            var r := h.answers[i];
            PassedOn(r.response, r.source.outcome.response, h.generations != [])
  {
    OriginOnlyWithoutContent(g, actions, i, parse);
    var h := Run(g, actions, parse).history;
    ProxiedPassesOn(h.answers[i].source.outcome.response, h.generations != []);
  }

  ghost predicate PassedOn(response: Response, reply: Response, hasStore: bool) {
    var linked := hasStore && !PerConnection(reply.headers, "content-type") && IsHtml(reply.headers);
    && response.status == reply.status && response.body == reply.body
    && forall name :: PassedHeader(response.headers, reply.headers, linked, name)
  }

  ghost predicate PassedHeader(sent: Headers, received: Headers, linked: bool, name: string) {
    GetAll(sent, name) ==
      (if PerConnection(received, name) then [] else GetAll(received, name))
      + (if linked && name == "link" then ["</.well-known/ajar.json>; rel=\"ajar-manifest\""] else [])
  }

  lemma KeptHtml(h: Headers)
    ensures IsHtml(EndToEnd(h)) <==> !PerConnection(h, "content-type") && IsHtml(h)
  {
    HopByHopExactly(h, "content-type");
  }

  lemma ProxiedHeader(received: Headers, linked: bool, name: string)
    ensures PassedHeader(if linked then AppendHeader(EndToEnd(received), "link", AJAR_MANIFEST_LINK)
                         else EndToEnd(received), received, linked, name)
  {
    HopByHopExactly(received, name);
  }

  lemma ProxiedPassesOn(reply: Response, hasStore: bool)
    ensures PassedOn(Proxied(reply, hasStore), reply, hasStore)
  {
    KeptHtml(reply.headers);
    var linked := hasStore && IsHtml(EndToEnd(reply.headers));
    forall name ensures PassedHeader(Proxied(reply, hasStore).headers, reply.headers, linked, name) {
      ProxiedHeader(reply.headers, linked, name);
    }
  }

  /** A problem of this status and code, and nothing else. */
  predicate IsProblem(response: Response, status: nat, code: string) {
    && response.status == status && response.body == Problem(code)
    && response.headers == map["content-type" := ["application/problem+json"], "ajar-error-code" := [code]]
  }

  /** When the origin gives no reply, the client gets the problem that says why. */
  lemma OriginFailuresAreProblems(g: Gateway, actions: seq<Action>, i: nat, parse: FloatParser)
    requires Started(g)
    requires i < |Run(g, actions, parse).history.answers|
    requires var r := Run(g, actions, parse).history.answers[i];
             r.source.FromTheOrigin? && !r.source.outcome.Replied?
    ensures var r := Run(g, actions, parse).history.answers[i];
            match r.source.outcome
            case Failed => IsProblem(r.response, 502, "AJAR_GATEWAY_UPSTREAM_ERROR")
            case TimedOut => IsProblem(r.response, 502, "AJAR_GATEWAY_UPSTREAM_TIMEOUT")
            case Refused(error) => IsRefusal(r.response, error)
  {
    OriginOnlyWithoutContent(g, actions, i, parse);
  }

  /** A request that is not sent on: too long, of no clear length, or of no valid address at the origin. */
  predicate IsRefusal(response: Response, error: ProxyError) {
    match error
    case InvalidContentLength => IsProblem(response, 413, "AJAR_GATEWAY_INVALID_CONTENT_LENGTH")
    case RequestBodyTooLarge => IsProblem(response, 413, "AJAR_GATEWAY_REQUEST_BODY_TOO_LARGE")
    case InvalidUpstreamUri => IsProblem(response, 502, "AJAR_GATEWAY_INVALID_UPSTREAM_URI")
    case UpstreamTimeout => IsProblem(response, 502, "AJAR_GATEWAY_UPSTREAM_TIMEOUT")
    case UpstreamFailed => IsProblem(response, 502, "AJAR_GATEWAY_UPSTREAM_ERROR")
  }

  // ------------------------------------------------------------------- what is a page

  /**
   A reply is a page exactly when its first content type, written with any blanks around the
   type, any case, and any readable parameters after a semicolon, is text/html.
   */
  lemma PageExactly(h: Headers, before: string, mediaType: string, after: string, parameters: string)
    requires AllOf(before, IsBlank) && AllOf(after, IsBlank)
    requires mediaType != "" && AllOf(mediaType, IsMediaTypeChar) && AllOf(parameters, IsReadableChar)
    requires GetAll(h, "content-type") != []
    requires GetAll(h, "content-type")[0] in {before + mediaType + after, before + mediaType + after + [';'] + parameters}
    ensures IsHtml(h) <==> Lower(mediaType) == "text/html"
  {
    var head := before + mediaType + after;
    PageHead(before, mediaType, after);
    SplitWithout(head, ';');
    SplitConcat(head, ';', parameters);
    AllOfWeaken(head, IsPieceChar, IsReadableChar);
    AllOfConcat([';'], parameters, IsReadableChar);
    AllOfConcat(head, [';'] + parameters, IsReadableChar);
    assert head + [';'] + parameters == head + ([';'] + parameters);
  }

  lemma PageHead(before: string, mediaType: string, after: string)
    requires AllOf(before, IsBlank) && AllOf(after, IsBlank)
    requires mediaType != "" && AllOf(mediaType, IsMediaTypeChar)
    ensures IsPiece(before + mediaType + after) && Trim(before + mediaType + after) == mediaType
    ensures ';' !in before + mediaType + after
  {
    TokenTight(mediaType);
    AllOfWeaken(mediaType, IsMediaTypeChar, IsPieceChar);
    PaddedPiece(before, mediaType, after);
    assert forall c :: c in before + mediaType + after ==> IsPieceChar(c);
  }

  /** No content type, or a first one that does not read as text, is no page. */
  lemma NoPage(h: Headers)
    requires GetAll(h, "content-type") == [] || !IsReadable(GetAll(h, "content-type")[0])
    ensures !IsHtml(h)
  {}
}
