/** What each counter counts: exact accounts of the answers of every run. */
module GatewayAccounts {
  import opened Numbers
  import opened Negotiation
  import opened PreparedStore
  import opened Serving
  import opened Gateway
  import opened GatewaySafety
  import opened GatewayConservation
  import opened GatewayLinearity

  // ------------------------------------------------------------- kinds of answers

  /** A manifest in full. */
  predicate FullManifest(r: Answer) {
    r.source.FromTheStore? && r.source.route.ToManifest? && r.response.status == 200
  }

  /** A view, or the index of views, in full. */
  predicate FullView(r: Answer) {
    r.source.FromTheStore? && !r.source.route.ToManifest? && r.response.status == 200
  }

  /** An origin's answer to a request for a view that accepts neither representation. */
  predicate NegotiatedAway(r: Answer) {
    r.source.FromTheOrigin? && r.source.route.ToOriginNegotiated?
  }

  /** An origin that failed or timed out. */
  predicate UpstreamError(r: Answer) {
    r.source.FromTheOrigin? && (r.source.outcome.Failed? || r.source.outcome.TimedOut?)
  }

  function CountWhere(answers: seq<Answer>, p: Answer -> bool): nat {
    if answers == [] then 0
    else CountWhere(answers[..|answers| - 1], p) + (if p(answers[|answers| - 1]) then 1 else 0)
  }

  /** The answers that a counter of requests counts. */
  predicate Counts(c: Counter, r: Answer) {
    match c
    case RequestsTotal => true
    case ManifestServedTotal => FullManifest(r)
    case ViewsServedTotal => FullView(r)
    case NegotiationPassthroughTotal => NegotiatedAway(r)
    case UpstreamErrorsTotal => UpstreamError(r)
    case StoreReloadsTotal => false
    case StoreReloadFailuresTotal => false
  }

  function Counted(c: Counter): Answer -> bool {
    (r: Answer) => Counts(c, r)
  }

  lemma CountAppend(answers: seq<Answer>, r: Answer, p: Answer -> bool)
    ensures CountWhere(answers + [r], p) == CountWhere(answers, p) + if p(r) then 1 else 0
  {
    assert (answers + [r])[..|answers|] == answers;
  }

  // ------------------------------------------------------------------ one request

  /** What a request has bumped is what its answer, when it has one ready, is counted as. */
  ghost predicate BumpsMatch(t: RequestTask) {
    match t.pc
    case AtOrigin(route) => t.bumped == PassedBumps(route)
    case OriginFailed(route, outcome) => t.bumped == PassedBumps(route) && (outcome.Failed? || outcome.TimedOut?)
    case Answering(response, source) => t.bumped == CountedAs(response, source)
    case Answered(_) => true
    case _ => t.bumped == {RequestsTotal}
  }

  /** The counters that an answer counts in. */
  function CountedAs(response: Response, source: Source): set<Counter> {
    match source
    case FromTheStore(route, _) =>
      {RequestsTotal} + if response.status == 200 then {ServedCounter(route)} else {}
    case ExpiredStore(_) => {RequestsTotal}
    case FromTheOrigin(route, outcome) =>
      PassedBumps(route) + if outcome.Failed? || outcome.TimedOut? then {UpstreamErrorsTotal} else {}
  }

  lemma CountedAsExactly(r: Answer, c: Counter)
    ensures c in CountedAs(r.response, r.source) <==> Counts(c, r)
  {}

  function PassedBumps(route: Route): set<Counter> {
    {RequestsTotal} + if route.ToOriginNegotiated? then {NegotiationPassthroughTotal} else {}
  }

  lemma BumpsMatchStep(s: Shared, t: RequestTask, now: i64, origin: Origin, parse: FloatParser)
    requires BumpsMatch(t) && TaskOk(t, parse)
    ensures BumpsMatch(Advance(s, t, now, origin, parse).1)
  {
    if t.pc.Serving? {
      FullStatus(t.pc.route, t.pc.store, t.pc.now);
    }
  }

  lemma FullStatus(route: Route, store: PreparedContentStore, now: i64)
    requires FromStore(route)
    ensures OkResponse(route, store, now).status == 200
  {}

  /** A request that is not answered yet and has bumped the counter. */
  function Pending(c: Counter): Tracked -> bool {
    (x: Tracked) => c in x.task.bumped && !x.task.pc.Answered?
  }

  ghost predicate AccountsInv(g: Gateway) {
    && (forall id :: id in g.requests ==> BumpsMatch(g.requests[id].task))
    && (forall c :: IsRequestCounter(c) ==>
          g.shared.counters.Get(c) == CountWhere(g.history.answers, Counted(c)) + Count(g.requests, Pending(c)))
  }

  lemma AccountsRequest(g: Gateway, id: nat, now: i64, origin: Origin, parse: FloatParser)
    requires AccountsInv(g) && RequestsInv(g, parse) && RequestCountsInv(g) && id in g.requests
    ensures AccountsInv(StepRequest(g, id, now, origin, parse))
  {
    var x, after := g.requests[id], StepRequest(g, id, now, origin, parse);
    assert TrackedOk(x, g.history.generations, parse);
    BumpsMatchStep(g.shared, x.task, now, origin, parse);
    forall c | IsRequestCounter(c)
      ensures after.shared.counters.Get(c) == CountWhere(after.history.answers, Counted(c)) + Count(after.requests, Pending(c))
    {
      AdvanceBumps(g.shared, x.task, now, origin, parse, c);
      CountUpdate(g.requests, id, after.requests[id], Pending(c));
      AnswerCounted(g.shared, g.history, id, x, now, origin, c, parse);
    }
  }

  /** The step that answers moves the request from pending to answered, in each account it is in. */
  lemma AnswerCounted(s: Shared, h: History, id: nat, x: Tracked, now: i64, origin: Origin, c: Counter, parse: FloatParser)
    requires BumpsMatch(x.task)
    ensures var next := Advance(s, x.task, now, origin, parse).1;
            CountWhere(Note(h, s, id, x).answers, Counted(c)) ==
              CountWhere(h.answers, Counted(c))
              + (if x.task.pc.Answering? && c in x.task.bumped then 1 else 0)
    ensures x.task.pc.Answering? ==> Advance(s, x.task, now, origin, parse).1.pc.Answered?
    ensures Advance(s, x.task, now, origin, parse).1.pc.Answered? ==> x.task.pc.Answering? || x.task.pc.Answered?
    ensures x.task.pc.Answered? || x.task.pc.Answering? ==> Advance(s, x.task, now, origin, parse).1.bumped == x.task.bumped
  {
    if x.task.pc.Answering? {
      var r := Answer(id, x.task.request, x.task.pc.response, x.task.pc.source, x.generation);
      CountAppend(h.answers, r, Counted(c));
      CountedAsExactly(r, c);
    }
  }

  lemma AccountsArrive(g: Gateway, id: nat, request: Request, parse: FloatParser)
    requires AccountsInv(g) && id !in g.requests
    ensures AccountsInv(Step(g, Arrive(id, request), parse))
  {
    var after := Step(g, Arrive(id, request), parse);
    ArrivedStep(g, id, request, parse);
    forall c | IsRequestCounter(c)
      ensures after.shared.counters.Get(c) == CountWhere(after.history.answers, Counted(c)) + Count(after.requests, Pending(c))
    {
      CountUpdate(g.requests, id, Tracked(NewRequest(request), 0), Pending(c));
    }
  }

  lemma ArrivedStep(g: Gateway, id: nat, request: Request, parse: FloatParser)
    requires id !in g.requests
    ensures var after := Step(g, Arrive(id, request), parse);
            && after.shared.counters == g.shared.counters.Bump(RequestsTotal)
            && after.requests == g.requests[id := Tracked(NewRequest(request), 0)]
            && after.history == g.history
  {}

  lemma AccountsReload(g: Gateway, id: nat)
    requires AccountsInv(g) && id in g.reloads
    ensures AccountsInv(StepReload(g, id))
  {
    forall c | IsRequestCounter(c)
      ensures StepReload(g, id).shared.counters.Get(c) == g.shared.counters.Get(c)
    {
      AdvanceReloadBumps(g.shared, g.reloads[id], c);
    }
  }

  lemma AccountsStep(g: Gateway, a: Action, parse: FloatParser)
    requires AccountsInv(g) && RequestsInv(g, parse) && RequestCountsInv(g)
    ensures AccountsInv(Step(g, a, parse))
  {
    match a
    case Arrive(id, request) =>
      if id !in g.requests {
        AccountsArrive(g, id, request, parse);
      }
    case Proceed(id, now, origin) =>
      if id in g.requests {
        AccountsRequest(g, id, now, origin, parse);
      }
    case StartReload(_, _, _) =>
    case ProceedReload(id) =>
      if id in g.reloads {
        AccountsReload(g, id);
      }
  }

  // ------------------------------------------------------------------- whole runs

  lemma {:induction false} AccountsRun(g: Gateway, actions: seq<Action>, parse: FloatParser)
    requires Started(g)
    ensures AccountsInv(Run(g, actions, parse))
  {
    if actions == [] {
      assert forall c :: Where(g.requests, Pending(c)) == {};
    } else {
      var front, last := actions[..|actions| - 1], actions[|actions| - 1];
      AccountsRun(g, front, parse);
      StartedInv(g, parse);
      InvRun(g, front, parse);
      StartedCounts(g);
      CountsRun(g, front, parse);
      AccountsStep(Run(g, front, parse), last, parse);
    }
  }

  /**
   Exact accounts. Whenever all requests are answered, each counter of requests is the number
   of answers of its kind: all of them, manifests in full, views and indexes in full, those
   negotiated away to the origin, and failures and timeouts there.
   */
  lemma CountersAreAnswers(g: Gateway, actions: seq<Action>, parse: FloatParser)
    requires Started(g) && AllAnswered(Run(g, actions, parse))
    ensures var after := Run(g, actions, parse);
            var n, answers := after.shared.counters, after.history.answers;
            && n.requests == |answers|
            && n.manifestServed == CountWhere(answers, FullManifest)
            && n.viewsServed == CountWhere(answers, FullView)
            && n.negotiationPassthrough == CountWhere(answers, NegotiatedAway)
            && n.upstreamErrors == CountWhere(answers, UpstreamError)
  {
    AccountsRun(g, actions, parse);
    Settled(Run(g, actions, parse));
  }

  lemma Settled(g: Gateway)
    requires AccountsInv(g) && AllAnswered(g)
    ensures var n, answers := g.shared.counters, g.history.answers;
            && n.requests == |answers|
            && n.manifestServed == CountWhere(answers, FullManifest)
            && n.viewsServed == CountWhere(answers, FullView)
            && n.negotiationPassthrough == CountWhere(answers, NegotiatedAway)
            && n.upstreamErrors == CountWhere(answers, UpstreamError)
  {
    var n, answers := g.shared.counters, g.history.answers;
    assert forall c :: Where(g.requests, Pending(c)) == {};
    assert n.requests == n.Get(RequestsTotal) && n.manifestServed == n.Get(ManifestServedTotal)
        && n.viewsServed == n.Get(ViewsServedTotal) && n.upstreamErrors == n.Get(UpstreamErrorsTotal)
        && n.negotiationPassthrough == n.Get(NegotiationPassthroughTotal);
    CountAll(answers);
    SameCount(answers, Counted(ManifestServedTotal), FullManifest);
    SameCount(answers, Counted(ViewsServedTotal), FullView);
    SameCount(answers, Counted(NegotiationPassthroughTotal), NegotiatedAway);
    SameCount(answers, Counted(UpstreamErrorsTotal), UpstreamError);
  }

  lemma {:induction false} CountAll(answers: seq<Answer>)
    ensures CountWhere(answers, Counted(RequestsTotal)) == |answers|
  {
    if answers != [] {
      CountAll(answers[..|answers| - 1]);
    }
  }

  lemma {:induction false} SameCount(answers: seq<Answer>, p: Answer -> bool, q: Answer -> bool)
    requires forall r :: p(r) == q(r)
    ensures CountWhere(answers, p) == CountWhere(answers, q)
  {
    if answers != [] {
      SameCount(answers[..|answers| - 1], p, q);
    }
  }
}
