/** A request or a reload that runs without interruption, as one effect on the shared state. */
module GatewaySequential {
  import opened Wrappers
  import opened Numbers
  import opened Negotiation
  import opened PreparedStore
  import opened Serving
  import opened Gateway

  // ------------------------------------------------------------------ one request

  /** Steps a request has left, at most. */
  function StepsLeft(pc: RequestPc): nat {
    match pc
    case Fresh => 6
    case Routed(_) => 5
    case Serving(_, _, _) => 4
    case AtOrigin(_) => 3
    case OriginFailed(_, _) => 2
    case Expired(_) => 3
    case LoggingExpiry(_) => 2
    case Answering(_, _) => 1
    case Answered(_) => 0
  }

  lemma AdvanceFinishes(s: Shared, t: RequestTask, now: i64, origin: Origin, parse: FloatParser)
    requires !t.pc.Answered?
    ensures StepsLeft(Advance(s, t, now, origin, parse).1.pc) < StepsLeft(t.pc)
  {}

  /** The request's own steps to its end, nothing in between. */
  function Uninterrupted(s: Shared, t: RequestTask, now: i64, origin: Origin, parse: FloatParser): (Shared, Response)
    decreases StepsLeft(t.pc)
  {
    if t.pc.Answered? then (s, t.pc.response)
    else
      AdvanceFinishes(s, t, now, origin, parse);
      var (s', t') := Advance(s, t, now, origin, parse);
      Uninterrupted(s', t', now, origin, parse)
  }

  /** What serving a route from a store does. */
  function Serve(s: Shared, route: Route, store: PreparedContentStore, request: Request, now: i64): (Shared, Response)
    requires FromStore(route)
  {
    (if IsExpired(store, now) then s.LogExpiredOnce()
     else if NoneMatch(request, route, store) then s
     else s.Bump(ServedCounter(route)),
     StoreResponse(route, store, request, now))
  }

  /** What forwarding to the origin does. */
  function Forward(s: Shared, hasStore: bool, origin: Origin): (Shared, Response) {
    (if origin.Failed? || origin.TimedOut? then s.Bump(UpstreamErrorsTotal) else s, OriginResponse(origin, hasStore))
  }

  lemma FromAnswering(s: Shared, t: RequestTask, now: i64, origin: Origin, parse: FloatParser)
    requires t.pc.Answering?
    ensures Uninterrupted(s, t, now, origin, parse) == (s, t.pc.response)
  {
    var (s', t') := Advance(s, t, now, origin, parse);
    assert Uninterrupted(s', t', now, origin, parse) == (s, t.pc.response);
  }

  lemma FromAtOrigin(s: Shared, t: RequestTask, now: i64, origin: Origin, parse: FloatParser)
    requires t.pc.AtOrigin?
    ensures Uninterrupted(s, t, now, origin, parse) == Forward(s, t.snapshot.Some?, origin)
  {
    var (s1, t1) := Advance(s, t, now, origin, parse);
    if t1.pc.OriginFailed? {
      var (s2, t2) := Advance(s1, t1, now, origin, parse);
      FromAnswering(s2, t2, now, origin, parse);
    } else {
      FromAnswering(s1, t1, now, origin, parse);
    }
  }

  lemma FromExpired(s: Shared, t: RequestTask, now: i64, origin: Origin, parse: FloatParser)
    requires t.pc.Expired?
    ensures Uninterrupted(s, t, now, origin, parse) == (s.LogExpiredOnce(), EXPIRED)
  {
    var (s1, t1) := Advance(s, t, now, origin, parse);
    if t1.pc.LoggingExpiry? {
      var (s2, t2) := Advance(s1, t1, now, origin, parse);
      FromAnswering(s2, t2, now, origin, parse);
      assert Uninterrupted(s1, t1, now, origin, parse) == Uninterrupted(s2, t2, now, origin, parse);
    } else {
      FromAnswering(s1, t1, now, origin, parse);
    }
  }

  lemma FromStoreRoute(s: Shared, t: RequestTask, now: i64, origin: Origin, parse: FloatParser)
    requires t.pc.Routed? && FromStore(t.pc.route) && t.snapshot.Some?
    ensures Uninterrupted(s, t, now, origin, parse) == Serve(s, t.pc.route, t.snapshot.value, t.request, now)
  {
    var (s1, t1) := Advance(s, t, now, origin, parse);
    if t1.pc.Answering? {
      FromAnswering(s1, t1, now, origin, parse);
    } else if t1.pc.Expired? {
      FromExpired(s1, t1, now, origin, parse);
    } else {
      var (s2, t2) := Advance(s1, t1, now, origin, parse);
      FromAnswering(s2, t2, now, origin, parse);
      assert Uninterrupted(s1, t1, now, origin, parse) == Uninterrupted(s2, t2, now, origin, parse);
    }
  }

  lemma FromRouted(s: Shared, t: RequestTask, now: i64, origin: Origin, parse: FloatParser)
    requires t.pc.Routed? && (FromStore(t.pc.route) ==> t.snapshot.Some?)
    ensures Uninterrupted(s, t, now, origin, parse) ==
            if FromStore(t.pc.route) then Serve(s, t.pc.route, t.snapshot.value, t.request, now)
            else Forward(if t.pc.route.ToOriginNegotiated? then s.Bump(NegotiationPassthroughTotal) else s,
                         t.snapshot.Some?, origin)
  {
    if FromStore(t.pc.route) {
      FromStoreRoute(s, t, now, origin, parse);
    } else {
      var (s1, t1) := Advance(s, t, now, origin, parse);
      FromAtOrigin(s1, t1, now, origin, parse);
    }
  }

  /** A whole request, from an empty task to its response. */
  lemma WholeRequest(s: Shared, request: Request, now: i64, origin: Origin, parse: FloatParser)
    ensures var route := RouteOf(s.store, request, parse);
            Uninterrupted(s, NewRequest(request), now, origin, parse) ==
            if FromStore(route) then Serve(s, route, s.store.value, request, now)
            else Forward(if route.ToOriginNegotiated? then s.Bump(NegotiationPassthroughTotal) else s,
                         s.store.Some?, origin)
  {
    var t := Advance(s, NewRequest(request), now, origin, parse).1;
    assert t.pc == Routed(RouteOf(s.store, request, parse));
    FromRouted(s, t, now, origin, parse);
  }

  // ------------------------------------------------------------------- one reload

  function ReloadStepsLeft(pc: ReloadPc): nat {
    match pc
    case Loaded(_, _, _) => 4
    case Swapped(_) => 3
    case CountedSwap(_) => 2
    case FlagReset(_) => 1
    case Failing(_) => 2
    case CountedFailure(_) => 1
    case Reloaded(_, _) => 0
    case ReloadRefused(_) => 0
  }

  /** The reload's own steps to its end, nothing in between. */
  function UninterruptedReload(s: Shared, pc: ReloadPc): (Shared, ReloadPc)
    decreases ReloadStepsLeft(pc)
  {
    if ReloadStepsLeft(pc) == 0 then (s, pc)
    else var (s', pc') := AdvanceReload(s, pc); UninterruptedReload(s', pc')
  }

  lemma WholeReload(s: Shared, store: PreparedContentStore, disk: Disk, now: i64)
    requires Accepts(s, store)
    ensures UninterruptedReload(s, Loaded(store, disk, now)) ==
            (s.(store := Some(store), expiryLogged := false)
               .Bump(StoreReloadsTotal).Log(StoreReloadedLine(store.ViewCount(), store.ManifestSequence())),
             Reloaded(store.ViewCount(), store.ManifestSequence()))
  {
    var s1 := s.(store := Some(store));
    var s2 := s1.Bump(StoreReloadsTotal);
    var s3 := s2.(expiryLogged := false);
    assert UninterruptedReload(s, Loaded(store, disk, now)) == UninterruptedReload(s1, Swapped(store));
    assert UninterruptedReload(s1, Swapped(store)) == UninterruptedReload(s2, CountedSwap(store));
    assert UninterruptedReload(s2, CountedSwap(store)) == UninterruptedReload(s3, FlagReset(store));
    var s4 := s3.Log(StoreReloadedLine(store.ViewCount(), store.ManifestSequence()));
    assert UninterruptedReload(s3, FlagReset(store))
        == UninterruptedReload(s4, Reloaded(store.ViewCount(), store.ManifestSequence()));
  }

  /** A refusal ends the reload after the failure is counted and logged. */
  lemma FailingReload(s: Shared, reason: ReloadFailure)
    ensures UninterruptedReload(s, Failing(reason)) ==
            (s.Bump(StoreReloadFailuresTotal).Log(StoreReloadFailedLine(reason)), ReloadRefused(reason))
  {
    var s1 := s.Bump(StoreReloadFailuresTotal);
    assert UninterruptedReload(s, Failing(reason)) == UninterruptedReload(s1, CountedFailure(reason));
    var s2 := s1.Log(StoreReloadFailedLine(reason));
    assert UninterruptedReload(s1, CountedFailure(reason)) == UninterruptedReload(s2, ReloadRefused(reason));
  }

  lemma RolledBackReload(s: Shared, store: PreparedContentStore, disk: Disk, now: i64)
    requires !Accepts(s, store)
    ensures UninterruptedReload(s, Loaded(store, disk, now)) == UninterruptedReload(s, Failing(SequenceRollback))
  {
    assert AdvanceReload(s, Loaded(store, disk, now)) == (s, Failing(SequenceRollback));
  }

  // ----------------------------------------------------- an uninterrupted run

  function Repeat(a: Action, n: nat): seq<Action> {
    if n == 0 then [] else [a] + Repeat(a, n - 1)
  }

  function WholeReloadActions(id: nat, disk: Disk, now: i64): seq<Action> {
    [StartReload(id, disk, now)] + Repeat(ProceedReload(id), 4)
  }

  function WholeRequestActions(id: nat, request: Request, now: i64, origin: Origin): seq<Action> {
    [Arrive(id, request)] + Repeat(Proceed(id, now, origin), 6)
  }

  lemma {:induction false} RunFromFront(g: Gateway, a: Action, rest: seq<Action>, parse: FloatParser)
    ensures Run(g, [a] + rest, parse) == Run(Step(g, a, parse), rest, parse)
  {
    var actions := [a] + rest;
    if rest == [] {
      assert actions[..|actions| - 1] == [];
      assert Run(g, [], parse) == g;
    } else {
      RunFromFront(g, a, rest[..|rest| - 1], parse);
      assert actions[..|actions| - 1] == [a] + rest[..|rest| - 1];
    }
  }

  /** A run of two parts is the second part's run from where the first ends. */
  lemma {:induction false} RunConcat(g: Gateway, a: seq<Action>, b: seq<Action>, parse: FloatParser)
    ensures Run(g, a + b, parse) == Run(Run(g, a, parse), b, parse)
  {
    if b == [] {
      assert a + b == a;
    } else {
      assert (a + b)[..|a + b| - 1] == a + b[..|b| - 1];
      RunConcat(g, a, b[..|b| - 1], parse);
    }
  }

  /** The same requests but for this one. */
  ghost predicate OthersStay(before: map<nat, Tracked>, after: map<nat, Tracked>, id: nat) {
    after - {id} == before - {id}
  }

  /** One step of a request in flight: nothing is touched but the shared state, the request and the history. */
  lemma RequestStep(g: Gateway, id: nat, now: i64, origin: Origin, parse: FloatParser)
    requires id in g.requests
    ensures var next := Step(g, Proceed(id, now, origin), parse);
            && id in next.requests
            && (next.shared, next.requests[id].task) == Advance(g.shared, g.requests[id].task, now, origin, parse)
            && OthersStay(g.requests, next.requests, id)
            && next.reloads == g.reloads && next.history.generations == g.history.generations
  {}

  lemma ArriveStep(g: Gateway, id: nat, request: Request, parse: FloatParser)
    requires id !in g.requests
    ensures var next := Step(g, Arrive(id, request), parse);
            && next.shared == g.shared.Bump(RequestsTotal)
            && next.requests == g.requests[id := Tracked(NewRequest(request), 0)] && next.reloads == g.reloads
  {}

  lemma KeysOfOthers(before: map<nat, Tracked>, after: map<nat, Tracked>, id: nat)
    requires OthersStay(before, after, id) && id in before && id in after
    ensures after.Keys == before.Keys
  {
    forall k ensures k in after <==> k in before {
      assert k in after - {id} <==> k in before - {id};
    }
  }

  lemma OtherKept(before: map<nat, Tracked>, after: map<nat, Tracked>, id: nat, other: nat)
    requires OthersStay(before, after, id) && other != id && other in before
    ensures other in after && after[other] == before[other]
  {
    assert other in before - {id};
    assert (after - {id})[other] == (before - {id})[other];
  }

  lemma OneRequestStep(s: Shared, t: RequestTask, now: i64, origin: Origin, parse: FloatParser)
    ensures var (s', t') := Advance(s, t, now, origin, parse);
            && Uninterrupted(s', t', now, origin, parse) == Uninterrupted(s, t, now, origin, parse)
            && (StepsLeft(t'.pc) < StepsLeft(t.pc) || StepsLeft(t'.pc) == 0 == StepsLeft(t.pc))
  {
    if !t.pc.Answered? {
      AdvanceFinishes(s, t, now, origin, parse);
    }
  }

  /** Enough steps of one request in a row bring it to the end the sequential reading computes. */
  lemma {:induction false} ProceedToTheEnd(g: Gateway, id: nat, now: i64, origin: Origin, n: nat, parse: FloatParser)
    requires id in g.requests && StepsLeft(g.requests[id].task.pc) <= n
    ensures var after := Run(g, Repeat(Proceed(id, now, origin), n), parse);
            var (s, response) := Uninterrupted(g.shared, g.requests[id].task, now, origin, parse);
            && after.shared == s
            && id in after.requests && after.requests[id].task.pc == Answered(response)
            && OthersStay(g.requests, after.requests, id)
            && after.reloads == g.reloads && after.history.generations == g.history.generations
    decreases n
  {
    if n > 0 {
      var a := Proceed(id, now, origin);
      RunFromFront(g, a, Repeat(a, n - 1), parse);
      RequestStep(g, id, now, origin, parse);
      OneRequestStep(g.shared, g.requests[id].task, now, origin, parse);
      ProceedToTheEnd(Step(g, a, parse), id, now, origin, n - 1, parse);
    }
  }

  /** The same for a reload that has been started. */
  lemma {:induction false} ReloadToTheEnd(g: Gateway, id: nat, n: nat, parse: FloatParser)
    requires id in g.reloads && ReloadStepsLeft(g.reloads[id]) <= n
    ensures var after := Run(g, Repeat(ProceedReload(id), n), parse);
            && id in after.reloads && after.requests == g.requests
            && (after.shared, after.reloads[id]) == UninterruptedReload(g.shared, g.reloads[id])
    decreases n
  {
    if n > 0 {
      var a := ProceedReload(id);
      RunFromFront(g, a, Repeat(a, n - 1), parse);
      ReloadStep(g, id, parse);
      OneReloadStep(g.shared, g.reloads[id]);
      ReloadToTheEnd(Step(g, a, parse), id, n - 1, parse);
    }
  }

  lemma ReloadStep(g: Gateway, id: nat, parse: FloatParser)
    requires id in g.reloads
    ensures var next := Step(g, ProceedReload(id), parse);
            && id in next.reloads && (next.shared, next.reloads[id]) == AdvanceReload(g.shared, g.reloads[id])
            && next.requests == g.requests
  {}

  lemma OneReloadStep(s: Shared, pc: ReloadPc)
    ensures var (s', pc') := AdvanceReload(s, pc);
            && UninterruptedReload(s', pc') == UninterruptedReload(s, pc)
            && (ReloadStepsLeft(pc') < ReloadStepsLeft(pc) || ReloadStepsLeft(pc) == 0 == ReloadStepsLeft(pc'))
  {}

  /** A whole reload is one of the machine's runs too. */
  lemma ReloadIsARun(g: Gateway, id: nat, disk: Disk, now: i64, parse: FloatParser)
    requires id !in g.reloads
    ensures var after := Run(g, WholeReloadActions(id, disk, now), parse);
            && id in after.reloads && after.requests == g.requests
            && (after.shared, after.reloads[id]) == UninterruptedReload(g.shared, LoadForReload(g.shared, disk, now))
  {
    RunFromFront(g, StartReload(id, disk, now), Repeat(ProceedReload(id), 4), parse);
    StartedSteps(g.shared, disk, now);
    var started := Step(g, StartReload(id, disk, now), parse);
    assert started.reloads[id] == LoadForReload(g.shared, disk, now);
    ReloadToTheEnd(started, id, 4, parse);
  }

  lemma StartedSteps(s: Shared, disk: Disk, now: i64)
    ensures ReloadStepsLeft(LoadForReload(s, disk, now)) <= 4
  {}

  /** So the sequential reading of a request is one of the machine's runs, from any state. */
  lemma SequentialIsARun(g: Gateway, id: nat, request: Request, now: i64, origin: Origin, parse: FloatParser)
    requires id !in g.requests
    ensures var after := Run(g, WholeRequestActions(id, request, now, origin), parse);
            var (s, response) := Uninterrupted(g.shared.Bump(RequestsTotal), NewRequest(request), now, origin, parse);
            && after.shared == s && id in after.requests && after.requests[id].task.pc == Answered(response)
            && OthersStay(g.requests, after.requests, id) && after.reloads == g.reloads
  {
    RunFromFront(g, Arrive(id, request), Repeat(Proceed(id, now, origin), 6), parse);
    ProceedToTheEnd(Step(g, Arrive(id, request), parse), id, now, origin, 6, parse);
  }

  /** From any state, a request its store has content for is answered that content by steps of its own. */
  lemma ContentIsServed(g: Gateway, id: nat, request: Request, now: i64, origin: Origin, parse: FloatParser)
    requires id !in g.requests && FromStore(RouteOf(g.shared.store, request, parse))
    ensures var after := Run(g, WholeRequestActions(id, request, now, origin), parse);
            && id in after.requests
            && after.requests[id].task.pc ==
               Answered(StoreResponse(RouteOf(g.shared.store, request, parse), g.shared.store.value, request, now))
  {
    SequentialIsARun(g, id, request, now, origin, parse);
    WholeRequest(g.shared.Bump(RequestsTotal), request, now, origin, parse);
  }

  /** The shared state after a whole accepted reload. */
  function AfterReload(s: Shared, store: PreparedContentStore): Shared {
    s.(store := Some(store), expiryLogged := false)
      .Bump(StoreReloadsTotal).Log(StoreReloadedLine(store.ViewCount(), store.ManifestSequence()))
  }

  lemma WholeReloadRun(g: Gateway, id: nat, disk: Disk, loaded: i64, parse: FloatParser)
    requires id !in g.reloads && Load(disk, loaded).Success? && Accepts(g.shared, Load(disk, loaded).value)
    ensures var after := Run(g, WholeReloadActions(id, disk, loaded), parse);
            && after.shared == AfterReload(g.shared, Load(disk, loaded).value)
            && id in after.reloads && after.reloads[id].Reloaded? && after.requests == g.requests
  {
    ReloadIsARun(g, id, disk, loaded, parse);
    WholeReload(g.shared, Load(disk, loaded).value, disk, loaded);
  }

  /** Why a reload is refused: no store to replace, a load that fails and how, or a lower sequence. */
  function Refusal(s: Shared, disk: Disk, now: i64): Option<ReloadFailure> {
    if s.store.None? then Some(NoContentStoreConfigured)
    else
      match Load(disk, now)
      case Failure(error) => Some(ValidationFailed(error))
      case Success(store) =>
        if store.ManifestSequence() < s.store.value.ManifestSequence() then Some(SequenceRollback) else None
  }

  /**
   From any state, a started reload's own steps end refused for the first of these reasons
   that applies, with one failure counted and logged and nothing else changed; when none
   applies it commits.
   */
  lemma ReloadEndsExactly(g: Gateway, id: nat, disk: Disk, now: i64, parse: FloatParser)
    requires id !in g.reloads
    ensures var after := Run(g, WholeReloadActions(id, disk, now), parse);
            && id in after.reloads
            && match Refusal(g.shared, disk, now)
               case Some(reason) =>
                 && after.reloads[id] == ReloadRefused(reason)
                 && after.shared == g.shared.(
                      counters := g.shared.counters.(storeReloadFailures := g.shared.counters.storeReloadFailures + 1),
                      log := g.shared.log + [StoreReloadFailedLine(reason)])
               case None =>
                 var store := Load(disk, now).value;
                 && after.reloads[id] == Reloaded(|store.viewsByRequestTarget|, store.manifest.manifest.sequence)
                 && after.shared.store == Some(store)
  {
    ReloadIsARun(g, id, disk, now, parse);
    WholeReloadEnds(g.shared, disk, now);
  }

  lemma WholeReloadEnds(s: Shared, disk: Disk, now: i64)
    ensures var (t, pc) := UninterruptedReload(s, LoadForReload(s, disk, now));
            match Refusal(s, disk, now)
            case Some(reason) =>
              && pc == ReloadRefused(reason)
              && t == s.(counters := s.counters.(storeReloadFailures := s.counters.storeReloadFailures + 1),
                         log := s.log + [StoreReloadFailedLine(reason)])
            case None =>
              var store := Load(disk, now).value;
              && pc == Reloaded(|store.viewsByRequestTarget|, store.manifest.manifest.sequence)
              && t.store == Some(store)
  {
    var pc := LoadForReload(s, disk, now);
    RefusalIs(s, disk, now);
    if pc.Failing? {
      FailureCounted(s, pc.reason);
      FailingReload(s, pc.reason);
    } else if Accepts(s, pc.store) {
      WholeReload(s, pc.store, pc.disk, pc.now);
    } else {
      FailureCounted(s, SequenceRollback);
      RolledBackReload(s, pc.store, pc.disk, pc.now);
      FailingReload(s, SequenceRollback);
    }
  }

  lemma RefusalIs(s: Shared, disk: Disk, now: i64)
    ensures var pc := LoadForReload(s, disk, now);
            match Refusal(s, disk, now)
            case Some(reason) =>
              pc == Failing(reason) || (reason == SequenceRollback && pc.Loaded? && !Accepts(s, pc.store))
            case None => pc.Loaded? && Load(disk, now) == Success(pc.store) && Accepts(s, pc.store)
  {}

  lemma FailureCounted(s: Shared, reason: ReloadFailure)
    ensures s.Bump(StoreReloadFailuresTotal).Log(StoreReloadFailedLine(reason)) ==
              s.(counters := s.counters.(storeReloadFailures := s.counters.storeReloadFailures + 1),
                 log := s.log + [StoreReloadFailedLine(reason)])
  {}
}
