/**
 The gateway's objects and handlers. One call of a handler here runs alone; what other
 requests and reloads may do between its steps is the subject of the Gateway modules,
 whose steps these methods are proved to perform. The clock reading, the directory as
 read, and the origin's answer are parameters.
 */
module ProxyState {
  import opened Wrappers
  import opened Numbers
  import opened Headers
  import opened Negotiation
  import opened PreparedStore
  import opened Serving
  import opened Gateway
  import opened GatewaySequential

  class Metrics {
    var requestsTotal: nat
    var upstreamErrorsTotal: nat
    var viewsServedTotal: nat
    var manifestServedTotal: nat
    var negotiationPassthroughTotal: nat
    var storeReloadsTotal: nat
    var storeReloadFailuresTotal: nat

    constructor ()
      ensures Value() == NO_COUNTS
    {
      requestsTotal, upstreamErrorsTotal, viewsServedTotal, manifestServedTotal := 0, 0, 0, 0;
      negotiationPassthroughTotal, storeReloadsTotal, storeReloadFailuresTotal := 0, 0, 0;
    }

    function Value(): Counters
      reads this
    {
      Counters(requestsTotal, upstreamErrorsTotal, viewsServedTotal, manifestServedTotal,
               negotiationPassthroughTotal, storeReloadsTotal, storeReloadFailuresTotal)
    }

    method IncrementRequestsTotal()
      modifies this
      ensures Value() == old(Value()).Bump(RequestsTotal)
    {
      requestsTotal := requestsTotal + 1;
    }

    method IncrementUpstreamErrorsTotal()
      modifies this
      ensures Value() == old(Value()).Bump(UpstreamErrorsTotal)
    {
      upstreamErrorsTotal := upstreamErrorsTotal + 1;
    }

    method IncrementViewsServedTotal()
      modifies this
      ensures Value() == old(Value()).Bump(ViewsServedTotal)
    {
      viewsServedTotal := viewsServedTotal + 1;
    }

    method IncrementManifestServedTotal()
      modifies this
      ensures Value() == old(Value()).Bump(ManifestServedTotal)
    {
      manifestServedTotal := manifestServedTotal + 1;
    }

    method IncrementNegotiationPassthroughTotal()
      modifies this
      ensures Value() == old(Value()).Bump(NegotiationPassthroughTotal)
    {
      negotiationPassthroughTotal := negotiationPassthroughTotal + 1;
    }

    method IncrementStoreReloadsTotal()
      modifies this
      ensures Value() == old(Value()).Bump(StoreReloadsTotal)
    {
      storeReloadsTotal := storeReloadsTotal + 1;
    }

    method IncrementStoreReloadFailuresTotal()
      modifies this
      ensures Value() == old(Value()).Bump(StoreReloadFailuresTotal)
    {
      storeReloadFailuresTotal := storeReloadFailuresTotal + 1;
    }
  }

  class ProxyState {
    var store: Option<PreparedContentStore>
    var manifestExpiryLogged: bool
    var log: seq<LogLine>
    const metrics: Metrics
    const parse: FloatParser

    constructor (store: Option<PreparedContentStore>, parse: FloatParser)
      ensures fresh(metrics) && this.parse == parse
      ensures Value() == Shared(store, false, NO_COUNTS, [])
    {
      this.store := store;
      this.parse := parse;
      manifestExpiryLogged := false;
      log := [];
      metrics := new Metrics();
    }

    function Value(): Shared
      reads this, metrics
    {
      Shared(store, manifestExpiryLogged, metrics.Value(), log)
    }

    method LogManifestExpiredOnce()
      modifies this`manifestExpiryLogged, this`log
      ensures Value() == old(Value()).LogExpiredOnce()
    {
      if !manifestExpiryLogged {
        manifestExpiryLogged := true;
        log := log + [ManifestExpiredLine];
      }
    }

    method ExpiredManifestProblem(current: PreparedContentStore, now: i64) returns (r: Option<Response>)
      modifies this`manifestExpiryLogged, this`log
      ensures r == if IsExpired(current, now) then Some(EXPIRED) else None
      ensures Value() == if IsExpired(current, now) then old(Value()).LogExpiredOnce() else old(Value())
    {
      if current.manifest.expiresAtUnix > now {
        return None;
      }
      LogManifestExpiredOnce();
      return Some(EXPIRED);
    }

    method ServeManifest(current: PreparedContentStore, request: Request, now: i64) returns (response: Response)
      modifies this`manifestExpiryLogged, this`log, metrics
      ensures (Value(), response) == Serve(old(Value()), ToManifest, current, request, now)
    {
      if current.manifest.expiresAtUnix <= now {
        LogManifestExpiredOnce();
        return EXPIRED;
      }
      var hit := IfNoneMatchMatches(request.headers, current.manifest.etag);
      if hit {
        return NOT_MODIFIED;
      }
      response := OkResponse(ToManifest, current, now);
      metrics.IncrementManifestServedTotal();
    }

    method ServeViewIndex(current: PreparedContentStore, request: Request, now: i64) returns (response: Response)
      modifies this`manifestExpiryLogged, this`log, metrics
      ensures (Value(), response) == Serve(old(Value()), ToViewIndex, current, request, now)
    {
      response := ServeView(ToViewIndex, current, request, now);
    }

    method ServeViewJson(current: PreparedContentStore, view: StoredView, request: Request, now: i64)
      returns (response: Response)
      modifies this`manifestExpiryLogged, this`log, metrics
      ensures (Value(), response) == Serve(old(Value()), ToViewJson(view), current, request, now)
    {
      response := ServeView(ToViewJson(view), current, request, now);
    }

    method ServeViewMarkdown(current: PreparedContentStore, view: StoredView, request: Request, now: i64)
      returns (response: Response)
      modifies this`manifestExpiryLogged, this`log, metrics
      ensures (Value(), response) == Serve(old(Value()), ToViewMarkdown(view), current, request, now)
    {
      response := ServeView(ToViewMarkdown(view), current, request, now);
    }

    /** The shape the three view handlers share: expiry, then If-None-Match, then the counter. */
    method ServeView(route: Route, current: PreparedContentStore, request: Request, now: i64)
      returns (response: Response)
      requires FromStore(route) && !route.ToManifest?
      modifies this`manifestExpiryLogged, this`log, metrics
      ensures (Value(), response) == Serve(old(Value()), route, current, request, now)
    {
      var problem := ExpiredManifestProblem(current, now);
      if problem.Some? {
        return problem.value;
      }
      var hit := IfNoneMatchMatches(request.headers, EtagFor(route, current));
      if hit {
        return NOT_MODIFIED;
      }
      response := OkResponse(route, current, now);
      metrics.IncrementViewsServedTotal();
    }

    method ForwardToOrigin(hasStore: bool, origin: Origin) returns (response: Response)
      modifies metrics
      ensures (Value(), response) == Forward(old(Value()), hasStore, origin)
    {
      match origin
      case Refused(error) =>
        return ErrorResponse(error);
      case Failed =>
        metrics.IncrementUpstreamErrorsTotal();
        return ErrorResponse(UpstreamFailed);
      case TimedOut =>
        metrics.IncrementUpstreamErrorsTotal();
        return ErrorResponse(UpstreamTimeout);
      case Replied(reply) =>
        var parts := new HeaderMap(reply.headers);
        StripHopByHopHeaders(parts);
        if hasStore && IsHtml(parts.entries) {
          parts.Append("link", AJAR_MANIFEST_LINK);
        }
        return reply.(headers := parts.entries);
    }

    /** A whole request: exactly the machine's own steps, run without interruption. */
    method ProxyRequest(request: Request, now: i64, origin: Origin) returns (response: Response)
      modifies this`manifestExpiryLogged, this`log, metrics
      ensures (Value(), response) ==
              Uninterrupted(old(Value()).Bump(RequestsTotal), NewRequest(request), now, origin, parse)
    {
      metrics.IncrementRequestsTotal();
      WholeRequest(Value(), request, now, origin, parse);
      var currentStore := store;
      if currentStore.Some? {
        var current := currentStore.value;
        if request.verb == Get && request.path == MANIFEST_PATH {
          response := ServeManifest(current, request, now);
          return;
        }
        if request.verb == Get && request.path == current.manifest.viewsIndex {
          response := ServeViewIndex(current, request, now);
          return;
        }
        if request.verb == Get {
          var view := current.ViewForRequestTarget(TargetOfRequest(request));
          if view.Some? {
            var accept := CombinedAcceptHeader(request.headers);
            var representation := Negotiate(accept, true, parse);
            match representation
            case AjarJson =>
              response := ServeViewJson(current, view.value, request, now);
              return;
            case Markdown =>
              response := ServeViewMarkdown(current, view.value, request, now);
              return;
            case Passthrough =>
              metrics.IncrementNegotiationPassthroughTotal();
          }
        }
      }
      response := ForwardToOrigin(currentStore.Some?, origin);
    }

    method ReloadFailed(reason: ReloadFailure) returns (reply: ReloadPc)
      modifies this`log, metrics
      ensures (Value(), reply) == UninterruptedReload(old(Value()), Failing(reason))
      ensures reply == ReloadRefused(reason)
    {
      FailingReload(Value(), reason);
      metrics.IncrementStoreReloadFailuresTotal();
      log := log + [StoreReloadFailedLine(reason)];
      return ReloadRefused(reason);
    }

    /** A whole reload: load, then compare and swap, count, reset the flag, log. */
    method ReloadStore(disk: Disk, now: i64) returns (reply: ReloadPc)
      modifies this, metrics
      ensures (Value(), reply) == UninterruptedReload(old(Value()), LoadForReload(old(Value()), disk, now))
      ensures reply.Reloaded? || reply.ReloadRefused?
    {
      if store.None? {
        reply := ReloadFailed(NoContentStoreConfigured);
        return;
      }
      var loaded := LoadFromDir(disk, now);
      if loaded.Failure? {
        reply := ReloadFailed(ValidationFailed(loaded.error));
        return;
      }
      reply := CommitStore(loaded.value, disk, now);
    }

    /** The part of a reload that holds the write lock, and what follows it. */
    method CommitStore(loadedStore: PreparedContentStore, ghost disk: Disk, ghost now: i64) returns (reply: ReloadPc)
      requires store.Some?
      modifies this, metrics
      ensures (Value(), reply) == UninterruptedReload(old(Value()), Loaded(loadedStore, disk, now))
      ensures reply.Reloaded? || reply == ReloadRefused(SequenceRollback)
    {
      var views := loadedStore.ViewCount();
      var manifestSequence := loadedStore.ManifestSequence();
      var currentSequence := store.value.ManifestSequence();
      if manifestSequence < currentSequence {
        RolledBackReload(Value(), loadedStore, disk, now);
        reply := ReloadFailed(SequenceRollback);
        return;
      }
      WholeReload(Value(), loadedStore, disk, now);
      store := Some(loadedStore);
      metrics.IncrementStoreReloadsTotal();
      manifestExpiryLogged := false;
      log := log + [StoreReloadedLine(views, manifestSequence)];
      reply := Reloaded(views, manifestSequence);
    }
  }
}
