/** What a reload does to a manifest that is being served, and instances of the gateway's rarer runs. */
module GatewayExpiry {
  import opened Wrappers
  import opened Numbers
  import opened Negotiation
  import opened PreparedStore
  import opened Serving
  import opened Gateway
  import opened GatewaySafety
  import opened GatewaySequential
  import opened GatewayFlag
  import opened StoreTheorems

  predicate IsContent(response: Response) {
    response.status == 200 || response.status == 304
  }

  lemma ContentUnlessExpired(store: PreparedContentStore, request: Request, now: i64)
    ensures var response := StoreResponse(ToManifest, store, request, now);
            && (IsContent(response) <==> now < store.manifest.expiresAtUnix)
            && (!IsContent(response) ==> response == EXPIRED)
  {}

  /** The manifest, asked for by a whole request from here. */
  lemma ManifestFromHere(g: Gateway, id: nat, request: Request, now: i64, origin: Origin, parse: FloatParser)
    requires g.shared.store.Some? && id !in g.requests && AsksForManifest(request)
    ensures var after := Run(g, WholeRequestActions(id, request, now, origin), parse);
            && id in after.requests
            && after.requests[id].task.pc == Answered(StoreResponse(ToManifest, g.shared.store.value, request, now))
  {
    ContentIsServed(g, id, request, now, origin, parse);
  }

  /**
   After an accepted reload, from any state with a store, the manifest is served exactly
   while the reading is below the new store's expiry. The swap does not look at the clock:
   the reload is accepted either way.
   */
  lemma ServedAfterReloadExactly(g: Gateway, reload: nat, disk: Disk, loaded: i64,
                                 id: nat, request: Request, now: i64, origin: Origin, parse: FloatParser)
    requires reload !in g.reloads && id !in g.requests && AsksForManifest(request)
    requires Load(disk, loaded).Success? && Accepts(g.shared, Load(disk, loaded).value)
    ensures var reloaded := Run(g, WholeReloadActions(reload, disk, loaded), parse);
            var after := Run(reloaded, WholeRequestActions(id, request, now, origin), parse);
            && reload in reloaded.reloads && reloaded.reloads[reload].Reloaded?
            && id in after.requests && after.requests[id].task.pc.Answered?
            && var response := after.requests[id].task.pc.response;
               && (IsContent(response) <==> now < Load(disk, loaded).value.manifest.expiresAtUnix)
               && (!IsContent(response) ==> response == EXPIRED)
  {
    WholeReloadRun(g, reload, disk, loaded, parse);
    var reloaded := Run(g, WholeReloadActions(reload, disk, loaded), parse);
    ManifestFromHere(reloaded, id, request, now, origin, parse);
    ContentUnlessExpired(Load(disk, loaded).value, request, now);
  }

  /**
   So a reload keeps a served manifest served exactly when the store it swaps in is unexpired
   too: where the old store would have answered with content, the new one does if and only
   if the reading is below its expiry.
   */
  lemma ReloadKeepsServingExactly(g: Gateway, reload: nat, disk: Disk, loaded: i64,
                                  id: nat, request: Request, now: i64, origin: Origin, parse: FloatParser)
    requires reload !in g.reloads && id !in g.requests && AsksForManifest(request)
    requires Load(disk, loaded).Success? && Accepts(g.shared, Load(disk, loaded).value)
    requires now < g.shared.store.value.manifest.expiresAtUnix
    ensures var without := Run(g, WholeRequestActions(id, request, now, origin), parse);
            var reloaded := Run(g, WholeReloadActions(reload, disk, loaded), parse);
            var with := Run(reloaded, WholeRequestActions(id, request, now, origin), parse);
            && id in without.requests && without.requests[id].task.pc.Answered?
            && id in with.requests && with.requests[id].task.pc.Answered?
            && IsContent(without.requests[id].task.pc.response)
            && (IsContent(with.requests[id].task.pc.response) <==>
                  now < Load(disk, loaded).value.manifest.expiresAtUnix)
  {
    ManifestFromHere(g, id, request, now, origin, parse);
    ContentUnlessExpired(g.shared.store.value, request, now);
    ServedAfterReloadExactly(g, reload, disk, loaded, id, request, now, origin, parse);
  }

  // -------------------------------------------------------------------- instances

  const MANIFEST_REQUEST: Request := Request(Get, MANIFEST_PATH, Some(MANIFEST_PATH), map[])

  /** A gateway started at reading 0 with the sample directory. */
  lemma SampleStartup(month: int) returns (g: Gateway)
    requires 2 <= month <= 3
    ensures Startup(Some(SampleDisk(month)), 0) == Success(g)
    ensures Started(g) && g.shared.store == Some(Load(SampleDisk(month), 0).value)
  {
    SampleStore(month);
    StartupIsStarted(Some(SampleDisk(month)), 0);
    g := Startup(Some(SampleDisk(month)), 0).value;
  }

  /**
   A gateway serves a manifest valid to March, and a reload swaps in one, loaded long ago,
   valid to February. On the first of February the reload is accepted, and a request that
   had got the manifest is answered that it has expired.
   */
  lemma ExpiredStoreSwappedIn(parse: FloatParser) returns (g: Gateway)
    ensures Startup(Some(SampleDisk(3)), 0) == Success(g)
    ensures var without := Run(g, WholeRequestActions(0, MANIFEST_REQUEST, FirstOfMonth(2), Failed), parse);
            var reloaded := Run(g, WholeReloadActions(0, SampleDisk(2), 0), parse);
            var with := Run(reloaded, WholeRequestActions(0, MANIFEST_REQUEST, FirstOfMonth(2), Failed), parse);
            && 0 in without.requests && without.requests[0].task.pc.Answered?
            && IsContent(without.requests[0].task.pc.response)
            && 0 in reloaded.reloads && reloaded.reloads[0].Reloaded?
            && 0 in with.requests && with.requests[0].task.pc == Answered(EXPIRED)
  {
    g := SampleStartup(3);
    SampleStore(2);
    SampleStore(3);
    ReloadKeepsServingExactly(g, 0, SampleDisk(2), 0, 0, MANIFEST_REQUEST, FirstOfMonth(2), Failed, parse);
    ServedAfterReloadExactly(g, 0, SampleDisk(2), 0, 0, MANIFEST_REQUEST, FirstOfMonth(2), Failed, parse);
  }

  /** The run that loses an expiry line can happen: with the February store, then the March one. */
  lemma LineCanBeLost() returns (g: Gateway)
    ensures Startup(Some(SampleDisk(2)), 0) == Success(g)
    ensures CanLose(g, 0, 1, 0, MANIFEST_REQUEST, SampleDisk(3), 0, FirstOfMonth(2), FirstOfMonth(3))
    ensures !IsExpired(Load(SampleDisk(3), 0).value, FirstOfMonth(2))
  {
    g := SampleStartup(2);
    SampleStore(2);
    SampleStore(3);
  }
}
