/** Reloads that do not commit are invisible to clients. */
module GatewayReloads {
  import opened Numbers
  import opened Negotiation
  import opened PreparedStore
  import opened Serving
  import opened Gateway
  import opened GatewaySafety
  import opened GatewayConservation

  /** The action belongs to one of these reloads. */
  predicate Of(a: Action, reloads: set<nat>) {
    (a.StartReload? || a.ProceedReload?) && a.id in reloads
  }

  /** The run with all actions of these reloads taken out. */
  function Without(actions: seq<Action>, reloads: set<nat>): seq<Action> {
    if actions == [] then []
    else
      var last := actions[|actions| - 1];
      Without(actions[..|actions| - 1], reloads) + (if Of(last, reloads) then [] else [last])
  }

  /** The log without the lines that report a failed reload. */
  function Quiet(log: seq<LogLine>): seq<LogLine> {
    if log == [] then []
    else
      var last := log[|log| - 1];
      Quiet(log[..|log| - 1]) + (if last.StoreReloadFailedLine? then [] else [last])
  }

  lemma QuietAppend(log: seq<LogLine>, line: LogLine)
    ensures Quiet(log + [line]) == Quiet(log) + if line.StoreReloadFailedLine? then [] else [line]
  {
    assert (log + [line])[..|log|] == log;
  }

  /** Alike in everything but the failure counter and the failure lines. */
  ghost predicate SharedAlike(s: Shared, t: Shared) {
    && s.store == t.store && s.expiryLogged == t.expiryLogged
    && s.counters.(storeReloadFailures := 0) == t.counters.(storeReloadFailures := 0)
    && Quiet(s.log) == Quiet(t.log)
  }

  /** And with the same requests, the same history, and the same other reloads. */
  ghost predicate Alike(g: Gateway, h: Gateway, reloads: set<nat>) {
    && SharedAlike(g.shared, h.shared)
    && g.requests == h.requests && g.history == h.history
    && h.reloads == g.reloads - reloads
  }

  lemma BumpAlike(s: Shared, t: Shared, c: Counter)
    requires SharedAlike(s, t)
    ensures SharedAlike(s.Bump(c), t.Bump(c))
  {}

  lemma LogAlike(s: Shared, t: Shared, line: LogLine)
    requires SharedAlike(s, t)
    ensures SharedAlike(s.Log(line), t.Log(line))
  {
    QuietAppend(s.log, line);
    QuietAppend(t.log, line);
  }

  /** A request's own part of a step depends on the store and the flag alone. */
  lemma AdvanceSame(s: Shared, t: Shared, task: RequestTask, now: i64, origin: Origin, parse: FloatParser)
    requires s.store == t.store && s.expiryLogged == t.expiryLogged
    ensures Advance(s, task, now, origin, parse).1 == Advance(t, task, now, origin, parse).1
  {}

  lemma AdvanceAlike(s: Shared, t: Shared, task: RequestTask, now: i64, origin: Origin, parse: FloatParser)
    requires SharedAlike(s, t)
    ensures SharedAlike(Advance(s, task, now, origin, parse).0, Advance(t, task, now, origin, parse).0)
    ensures Advance(s, task, now, origin, parse).1 == Advance(t, task, now, origin, parse).1
  {
    AdvanceSame(s, t, task, now, origin, parse);
    match task.pc
    case Routed(_) => BumpAlike(s, t, NegotiationPassthroughTotal);
    case Serving(route, _, _) => BumpAlike(s, t, ServedCounter(route));
    case OriginFailed(_, _) => BumpAlike(s, t, UpstreamErrorsTotal);
    case LoggingExpiry(_) => LogAlike(s, t, ManifestExpiredLine);
    case _ =>
  }

  lemma AdvanceReloadAlike(s: Shared, t: Shared, pc: ReloadPc)
    requires SharedAlike(s, t)
    ensures SharedAlike(AdvanceReload(s, pc).0, AdvanceReload(t, pc).0)
    ensures AdvanceReload(s, pc).1 == AdvanceReload(t, pc).1
  {
    match pc
    case Swapped(_) => BumpAlike(s, t, StoreReloadsTotal);
    case FlagReset(store) => LogAlike(s, t, StoreReloadedLine(store.ViewCount(), store.ManifestSequence()));
    case Failing(_) => BumpAlike(s, t, StoreReloadFailuresTotal);
    case CountedFailure(reason) => LogAlike(s, t, StoreReloadFailedLine(reason));
    case _ =>
  }

  /** A reload that has not committed after its step changed nothing but the failure counter and line. */
  lemma FailureAlike(s: Shared, pc: ReloadPc)
    requires !HasSwapped(pc) && !HasSwapped(AdvanceReload(s, pc).1)
    ensures SharedAlike(AdvanceReload(s, pc).0, s)
  {
    if pc.CountedFailure? {
      QuietAppend(s.log, StoreReloadFailedLine(pc.reason));
    }
  }

  /** Committing is for good. */
  lemma SwappedStays(g: Gateway, a: Action, id: nat, parse: FloatParser)
    requires id in g.reloads
    ensures id in Step(g, a, parse).reloads
    ensures HasSwapped(g.reloads[id]) ==> HasSwapped(Step(g, a, parse).reloads[id])
  {}

  ghost predicate NoneCommitted(g: Gateway, reloads: set<nat>) {
    forall id :: id in reloads && id in g.reloads ==> !HasSwapped(g.reloads[id])
  }

  /** A step of one of these reloads changes nothing that is compared. */
  lemma OwnStepAlike(g: Gateway, h: Gateway, a: Action, reloads: set<nat>, parse: FloatParser)
    requires Alike(g, h, reloads) && Of(a, reloads)
    requires NoneCommitted(g, reloads) && NoneCommitted(Step(g, a, parse), reloads)
    ensures Alike(Step(g, a, parse), h, reloads)
  {
    var after := Step(g, a, parse);
    assert after.reloads - reloads == g.reloads - reloads;
    if a.ProceedReload? && a.id in g.reloads {
      assert after.reloads[a.id] == AdvanceReload(g.shared, g.reloads[a.id]).1;
      FailureAlike(g.shared, g.reloads[a.id]);
      assert after.history == g.history;
    }
  }

  lemma RequestStepAlike(g: Gateway, h: Gateway, id: nat, now: i64, origin: Origin, reloads: set<nat>,
                         parse: FloatParser)
    requires Alike(g, h, reloads) && id in g.requests
    ensures Alike(StepRequest(g, id, now, origin, parse), StepRequest(h, id, now, origin, parse), reloads)
  {
    AdvanceAlike(g.shared, h.shared, g.requests[id].task, now, origin, parse);
  }

  lemma StartStepAlike(g: Gateway, h: Gateway, id: nat, disk: Disk, now: i64, reloads: set<nat>, parse: FloatParser)
    requires Alike(g, h, reloads) && id !in reloads
    ensures Alike(Step(g, StartReload(id, disk, now), parse), Step(h, StartReload(id, disk, now), parse), reloads)
  {
    SameLoad(g.shared, h.shared, disk, now);
    NewReloadAlike(g, h, id, LoadForReload(g.shared, disk, now), reloads);
  }

  lemma SameLoad(s: Shared, t: Shared, disk: Disk, now: i64)
    requires s.store == t.store
    ensures LoadForReload(s, disk, now) == LoadForReload(t, disk, now)
  {}

  lemma NewReloadAlike(g: Gateway, h: Gateway, id: nat, pc: ReloadPc, reloads: set<nat>)
    requires Alike(g, h, reloads) && id !in reloads
    ensures Alike(g.(reloads := g.reloads[id := pc]), h.(reloads := h.reloads[id := pc]), reloads)
    ensures id in g.reloads <==> id in h.reloads
  {
    assert (g.reloads - reloads)[id := pc] == g.reloads[id := pc] - reloads;
  }

  lemma ReloadStepAlike(g: Gateway, h: Gateway, id: nat, reloads: set<nat>)
    requires Alike(g, h, reloads) && id !in reloads && id in g.reloads
    ensures Alike(StepReload(g, id), StepReload(h, id), reloads)
  {
    var pc := AdvanceReload(g.shared, g.reloads[id]).1;
    AdvanceReloadAlike(g.shared, h.shared, g.reloads[id]);
    assert (g.reloads - reloads)[id := pc] == g.reloads[id := pc] - reloads;
    assert NoteReload(g.history, g.shared, id, g.reloads[id]) == NoteReload(h.history, h.shared, id, g.reloads[id]);
  }

  /** Any other step does the same to both. */
  lemma OtherStepAlike(g: Gateway, h: Gateway, a: Action, reloads: set<nat>, parse: FloatParser)
    requires Alike(g, h, reloads) && !Of(a, reloads)
    ensures Alike(Step(g, a, parse), Step(h, a, parse), reloads)
  {
    match a
    case Arrive(id, request) =>
      BumpAlike(g.shared, h.shared, RequestsTotal);
    case Proceed(id, now, origin) =>
      if id in g.requests {
        RequestStepAlike(g, h, id, now, origin, reloads, parse);
      }
    case StartReload(id, disk, now) =>
      StartStepAlike(g, h, id, disk, now, reloads, parse);
    case ProceedReload(id) =>
      if id in g.reloads {
        ReloadStepAlike(g, h, id, reloads);
      }
  }

  lemma NoneCommittedBefore(g: Gateway, a: Action, reloads: set<nat>, parse: FloatParser)
    requires NoneCommitted(Step(g, a, parse), reloads)
    ensures NoneCommitted(g, reloads)
  {
    forall id | id in reloads && id in g.reloads ensures !HasSwapped(g.reloads[id]) {
      SwappedStays(g, a, id, parse);
    }
  }

  /**
   Take any run and any set of reloads that never commit in it: refused by validation or by
   the sequence check, or still on their way. Taking out all their steps leaves every
   request, every answer, every other reload, the store, the flag and every other counter
   and log line as they were.
   */
  lemma {:induction false} FailedReloadsInvisible(g: Gateway, actions: seq<Action>, reloads: set<nat>, parse: FloatParser)
    requires g.reloads.Keys !! reloads
    requires NoneCommitted(Run(g, actions, parse), reloads)
    ensures Alike(Run(g, actions, parse), Run(g, Without(actions, reloads), parse), reloads)
  {
    if actions == [] {
      assert g.reloads - reloads == g.reloads;
    } else {
      var front, last := actions[..|actions| - 1], actions[|actions| - 1];
      var before := Run(g, front, parse);
      NoneCommittedBefore(before, last, reloads, parse);
      FailedReloadsInvisible(g, front, reloads, parse);
      if Of(last, reloads) {
        OwnStepAlike(before, Run(g, Without(front, reloads), parse), last, reloads, parse);
        assert Without(actions, reloads) == Without(front, reloads);
      } else {
        OtherStepAlike(before, Run(g, Without(front, reloads), parse), last, reloads, parse);
        var kept := Without(front, reloads) + [last];
        assert kept[..|kept| - 1] == Without(front, reloads);
      }
    }
  }

  /** The reloads that have not committed, of all those started. */
  function Uncommitted(g: Gateway): set<nat> {
    set id | id in g.reloads && !HasSwapped(g.reloads[id])
  }

  /** In particular, without any of its failed reloads a run gives clients the same answers, and counts no failure. */
  lemma ClientsCannotTell(g: Gateway, actions: seq<Action>, parse: FloatParser)
    requires Started(g)
    ensures var full := Run(g, actions, parse);
            var kept := Run(g, Without(actions, Uncommitted(full)), parse);
            && kept.history.answers == full.history.answers
            && kept.shared.store == full.shared.store
            && kept.shared.expiryLogged == full.shared.expiryLogged
            && kept.shared.counters == full.shared.counters.(storeReloadFailures := 0)
  {
    var full := Run(g, actions, parse);
    var gone := Uncommitted(full);
    FailedReloadsInvisible(g, actions, gone, parse);
    var kept := Run(g, Without(actions, gone), parse);
    StartedCounts(g);
    CountsRun(g, Without(actions, gone), parse);
    assert Where(kept.reloads, HasFailed) == {};
  }
}
