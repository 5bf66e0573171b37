/** What the counters of every run account for. */
module GatewayConservation {
  import opened Wrappers
  import opened Numbers
  import opened Negotiation
  import opened PreparedStore
  import opened Serving
  import opened Gateway
  import opened GatewaySafety

  // ------------------------------------------------------------------- counting

  /** The keys whose value satisfies p. */
  function Where<V>(m: map<nat, V>, p: V -> bool): set<nat> {
    set k | k in m && p(m[k])
  }

  function Count<V>(m: map<nat, V>, p: V -> bool): nat {
    |Where(m, p)|
  }

  lemma WhereUpdate<V>(m: map<nat, V>, k: nat, v: V, p: V -> bool)
    ensures Where(m[k := v], p) == if p(v) then Where(m, p) + {k} else Where(m, p) - {k}
    ensures k in Where(m, p) <==> k in m && p(m[k])
  {}

  lemma OneElement(s: set<nat>, k: nat)
    ensures |s + {k}| == |s| + if k in s then 0 else 1
    ensures |s - {k}| == |s| - if k in s then 1 else 0
  {
    if k in s {
      assert s + {k} == s;
    } else {
      assert s - {k} == s;
    }
  }

  /** Changing one entry moves the count by that entry's difference. */
  lemma CountUpdate<V>(m: map<nat, V>, k: nat, v: V, p: V -> bool)
    ensures Count(m[k := v], p) ==
            Count(m, p) - (if k in m && p(m[k]) then 1 else 0) + (if p(v) then 1 else 0)
  {
    WhereUpdate(m, k, v, p);
    OneElement(Where(m, p), k);
  }

  lemma CountDisjoint<V>(m: map<nat, V>, p: V -> bool, q: V -> bool, r: V -> bool)
    requires forall k :: k in m ==>
               (p(m[k]) ==> !q(m[k]) && !r(m[k])) && (q(m[k]) ==> !r(m[k]))
    ensures Count(m, p) + Count(m, q) + Count(m, r) <= |m|
  {
    var a, b, c := Where(m, p), Where(m, q), Where(m, r);
    assert a !! b && (a + b) !! c;
    assert |a + b + c| == |a| + |b| + |c|;
    Subset(a + b + c, m.Keys);
    assert |m.Keys| == |m|;
  }

  lemma {:induction false} Subset(a: set<nat>, b: set<nat>)
    requires a <= b
    ensures |a| <= |b|
  {
    assert b == a + (b - a);
  }

  // -------------------------------------------------------------- request counters

  function Bumped(c: Counter): Tracked -> bool {
    (x: Tracked) => c in x.task.bumped
  }

  predicate IsRequestCounter(c: Counter) {
    c != StoreReloadsTotal && c != StoreReloadFailuresTotal
  }

  /** A request has bumped requests_total, at most one of the next three, and errors only after the origin. */
  ghost predicate BumpedOk(t: RequestTask) {
    var b := t.bumped;
    && RequestsTotal in b && StoreReloadsTotal !in b && StoreReloadFailuresTotal !in b
    && !(ManifestServedTotal in b && ViewsServedTotal in b)
    && (ManifestServedTotal in b || ViewsServedTotal in b ==>
          NegotiationPassthroughTotal !in b && UpstreamErrorsTotal !in b)
    && (t.pc.Fresh? || t.pc.Routed? || t.pc.Expired? || t.pc.LoggingExpiry? || t.pc.Serving? ==> b == {RequestsTotal})
    && (t.pc.AtOrigin? || t.pc.OriginFailed? ==> b <= {RequestsTotal, NegotiationPassthroughTotal})
  }

  ghost predicate RequestCountsInv(g: Gateway) {
    && (forall id :: id in g.requests ==> BumpedOk(g.requests[id].task))
    && (forall c :: IsRequestCounter(c) ==> g.shared.counters.Get(c) == Count(g.requests, Bumped(c)))
  }

  /** A request's step bumps a counter exactly when the request had not bumped it and now has. */
  lemma AdvanceBumps(s: Shared, t: RequestTask, now: i64, origin: Origin, parse: FloatParser, c: Counter)
    requires BumpedOk(t)
    ensures var (s', t') := Advance(s, t, now, origin, parse);
            && t.bumped <= t'.bumped
            && s'.counters.Get(c) == s.counters.Get(c) + (if c in t'.bumped && c !in t.bumped then 1 else 0)
  {}

  lemma AdvanceBumpedOk(s: Shared, t: RequestTask, now: i64, origin: Origin, parse: FloatParser)
    requires BumpedOk(t)
    ensures BumpedOk(Advance(s, t, now, origin, parse).1)
  {}

  lemma AdvanceReloadBumps(s: Shared, pc: ReloadPc, c: Counter)
    requires IsRequestCounter(c)
    ensures AdvanceReload(s, pc).0.counters.Get(c) == s.counters.Get(c)
  {}

  lemma RequestCountsRequest(g: Gateway, id: nat, now: i64, origin: Origin, parse: FloatParser)
    requires RequestCountsInv(g) && id in g.requests
    ensures RequestCountsInv(StepRequest(g, id, now, origin, parse))
  {
    var after := StepRequest(g, id, now, origin, parse);
    var x := g.requests[id];
    AdvanceBumpedOk(g.shared, x.task, now, origin, parse);
    forall c | IsRequestCounter(c) ensures after.shared.counters.Get(c) == Count(after.requests, Bumped(c)) {
      AdvanceBumps(g.shared, x.task, now, origin, parse, c);
      CountUpdate(g.requests, id, after.requests[id], Bumped(c));
    }
  }

  lemma RequestCountsStep(g: Gateway, a: Action, parse: FloatParser)
    requires RequestCountsInv(g)
    ensures RequestCountsInv(Step(g, a, parse))
  {
    match a
    case Arrive(id, request) =>
      if id !in g.requests {
        forall c | IsRequestCounter(c)
          ensures Step(g, a, parse).shared.counters.Get(c) == Count(Step(g, a, parse).requests, Bumped(c))
        {
          CountUpdate(g.requests, id, Tracked(NewRequest(request), 0), Bumped(c));
        }
      }
    case Proceed(id, now, origin) =>
      if id in g.requests {
        RequestCountsRequest(g, id, now, origin, parse);
      }
    case StartReload(_, _, _) =>
    case ProceedReload(id) =>
      if id in g.reloads {
        forall c | IsRequestCounter(c)
          ensures Step(g, a, parse).shared.counters.Get(c) == g.shared.counters.Get(c)
        {
          AdvanceReloadBumps(g.shared, g.reloads[id], c);
        }
      }
  }

  // --------------------------------------------------------------- reload counters

  /** The reload has passed the swap, the counter, or the end. */
  predicate HasSwapped(pc: ReloadPc) {
    pc.Swapped? || HasCounted(pc)
  }

  predicate HasCounted(pc: ReloadPc) {
    pc.CountedSwap? || pc.FlagReset? || pc.Reloaded?
  }

  predicate AwaitsCount(pc: ReloadPc) {
    pc.Swapped?
  }

  predicate HasFailed(pc: ReloadPc) {
    pc.CountedFailure? || pc.ReloadRefused?
  }

  /** Generations after the first were swapped in by reloads. */
  function Swaps(h: History): nat {
    if h.generations == [] then 0 else |h.generations| - 1
  }

  ghost predicate ReloadCountsInv(g: Gateway) {
    && g.shared.counters.storeReloads == Count(g.reloads, HasCounted)
    && g.shared.counters.storeReloadFailures == Count(g.reloads, HasFailed)
    && Swaps(g.history) == Count(g.reloads, HasSwapped)
    && (g.history.generations == [] ==> g.shared.store == None)
  }

  lemma AdvanceLeavesReloadCounts(s: Shared, t: RequestTask, now: i64, origin: Origin, parse: FloatParser)
    requires BumpedOk(t)
    ensures Advance(s, t, now, origin, parse).0.counters.storeReloads == s.counters.storeReloads
    ensures Advance(s, t, now, origin, parse).0.counters.storeReloadFailures == s.counters.storeReloadFailures
    ensures Advance(s, t, now, origin, parse).0.store == s.store
  {
    AdvanceBumps(s, t, now, origin, parse, StoreReloadsTotal);
    AdvanceBumps(s, t, now, origin, parse, StoreReloadFailuresTotal);
  }

  lemma ReloadCountsReload(g: Gateway, id: nat)
    requires ReloadCountsInv(g) && id in g.reloads
    ensures ReloadCountsInv(StepReload(g, id))
  {
    var pc := AdvanceReload(g.shared, g.reloads[id]).1;
    CountUpdate(g.reloads, id, pc, HasCounted);
    CountUpdate(g.reloads, id, pc, HasFailed);
    CountUpdate(g.reloads, id, pc, HasSwapped);
  }

  lemma ReloadCountsStart(g: Gateway, id: nat, disk: Disk, now: i64, parse: FloatParser)
    requires ReloadCountsInv(g) && id !in g.reloads
    ensures ReloadCountsInv(Step(g, StartReload(id, disk, now), parse))
  {
    var pc := LoadForReload(g.shared, disk, now);
    CountUpdate(g.reloads, id, pc, HasCounted);
    CountUpdate(g.reloads, id, pc, HasFailed);
    CountUpdate(g.reloads, id, pc, HasSwapped);
  }

  lemma ReloadCountsStep(g: Gateway, a: Action, parse: FloatParser)
    requires ReloadCountsInv(g) && RequestCountsInv(g)
    ensures ReloadCountsInv(Step(g, a, parse))
  {
    match a
    case Arrive(_, _) =>
    case Proceed(id, now, origin) =>
      if id in g.requests {
        AdvanceLeavesReloadCounts(g.shared, g.requests[id].task, now, origin, parse);
        assert Step(g, a, parse).history.generations == g.history.generations;
      }
    case StartReload(id, disk, now) =>
      if id !in g.reloads {
        ReloadCountsStart(g, id, disk, now, parse);
      }
    case ProceedReload(id) =>
      if id in g.reloads {
        ReloadCountsReload(g, id);
      }
  }

  // -------------------------------------------------------------------- all runs

  ghost predicate CountsInv(g: Gateway) {
    RequestCountsInv(g) && ReloadCountsInv(g)
  }

  lemma {:induction false} CountsRun(g: Gateway, actions: seq<Action>, parse: FloatParser)
    requires CountsInv(g)
    ensures CountsInv(Run(g, actions, parse))
  {
    if actions != [] {
      var front, last := actions[..|actions| - 1], actions[|actions| - 1];
      CountsRun(g, front, parse);
      RequestCountsStep(Run(g, front, parse), last, parse);
      ReloadCountsStep(Run(g, front, parse), last, parse);
    }
  }

  lemma StartedCounts(g: Gateway)
    requires Started(g)
    ensures CountsInv(g)
  {
    assert g.requests == map[] && g.reloads == map[];
    assert Where(g.reloads, HasCounted) == {} && Where(g.reloads, HasFailed) == {} && Where(g.reloads, HasSwapped) == {};
    assert forall c :: Where(g.requests, Bumped(c)) == {};
  }

  /**
   In every interleaving: requests_total is the number of requests that have taken their
   first step; the manifest, view and passthrough counters together never exceed it, and
   neither do the manifest, view and upstream-error counters.
   */
  lemma RequestsAreConserved(g: Gateway, actions: seq<Action>, parse: FloatParser)
    requires Started(g)
    ensures var after := Run(g, actions, parse);
            var n := after.shared.counters;
            && n.requests == |after.requests|
            && n.manifestServed + n.viewsServed + n.negotiationPassthrough <= n.requests
            && n.manifestServed + n.viewsServed + n.upstreamErrors <= n.requests
  {
    StartedCounts(g);
    CountsRun(g, actions, parse);
    Totals(Run(g, actions, parse));
  }

  lemma Totals(after: Gateway)
    requires RequestCountsInv(after)
    ensures var n := after.shared.counters;
            && n.requests == |after.requests|
            && n.manifestServed + n.viewsServed + n.negotiationPassthrough <= n.requests
            && n.manifestServed + n.viewsServed + n.upstreamErrors <= n.requests
  {
    var n := after.shared.counters;
    assert Where(after.requests, Bumped(RequestsTotal)) == after.requests.Keys;
    assert |after.requests.Keys| == |after.requests|;
    assert n.requests == n.Get(RequestsTotal) && n.manifestServed == n.Get(ManifestServedTotal)
        && n.viewsServed == n.Get(ViewsServedTotal) && n.upstreamErrors == n.Get(UpstreamErrorsTotal)
        && n.negotiationPassthrough == n.Get(NegotiationPassthroughTotal);
    CountDisjoint(after.requests, Bumped(ManifestServedTotal), Bumped(ViewsServedTotal), Bumped(NegotiationPassthroughTotal));
    CountDisjoint(after.requests, Bumped(ManifestServedTotal), Bumped(ViewsServedTotal), Bumped(UpstreamErrorsTotal));
  }

  /**
   In every interleaving, with a store or without: committed swaps are store_reloads_total
   plus the reloads between their swap and their count, and store_reload_failures_total is
   the number of reloads that have counted their failure.
   */
  lemma ReloadsAreConserved(g: Gateway, actions: seq<Action>, parse: FloatParser)
    requires Started(g)
    ensures var after := Run(g, actions, parse);
            && Swaps(after.history) == after.shared.counters.storeReloads + Count(after.reloads, AwaitsCount)
            && after.shared.counters.storeReloadFailures == Count(after.reloads, HasFailed)
  {
    StartedCounts(g);
    CountsRun(g, actions, parse);
    SwapsSplit(Run(g, actions, parse));
  }

  lemma SwapsSplit(g: Gateway)
    ensures Count(g.reloads, HasSwapped) == Count(g.reloads, HasCounted) + Count(g.reloads, AwaitsCount)
  {
    assert Where(g.reloads, HasSwapped) == Where(g.reloads, HasCounted) + Where(g.reloads, AwaitsCount);
    assert Where(g.reloads, HasCounted) !! Where(g.reloads, AwaitsCount);
  }
}
