/**
 When the expiry lines of a run, like its answers, are those of its order of whole calls:
 whenever no request is on its way to the flag while a reload is on its way to the reset.
 */
module GatewayLog {
  import opened Numbers
  import opened Negotiation
  import opened PreparedStore
  import opened Serving
  import opened Gateway
  import opened GatewaySafety
  import opened GatewaySequential
  import opened GatewayConservation
  import opened GatewayLinearity
  import opened GatewayOrder
  import opened GatewayFlag

  // ------------------------------------------------------------- what will be answered

  /** A request at this point can still be answered from this source. */
  predicate CanAnswer(pc: RequestPc, source: Source) {
    match pc
    case Fresh => true
    case Routed(_) => true
    case Expired(now) => source == ExpiredStore(now)
    case LoggingExpiry(now) => source == ExpiredStore(now)
    case Serving(route, _, now) => source == FromTheStore(route, now)
    case AtOrigin(route) => source.FromTheOrigin? && source.route == route
    case OriginFailed(route, outcome) => source == FromTheOrigin(route, outcome)
    case Answering(_, from) => source == from
    case Answered(_) => true
  }

  /** Read backwards: what a request can be answered from after a step, it can be before. */
  lemma CouldAnswer(s: Shared, t: RequestTask, now: i64, origin: Origin, source: Source, parse: FloatParser)
    requires TaskOk(t, parse) && !t.pc.Answered?
    requires var next := Advance(s, t, now, origin, parse).1.pc; !next.Answered? && CanAnswer(next, source)
    ensures CanAnswer(t.pc, source)
  {}

  lemma CouldAnswerHere(g: Gateway, id: nat, now: i64, origin: Origin, source: Source, parse: FloatParser)
    requires RequestsInv(g, parse) && id in g.requests && !g.requests[id].task.pc.Answered?
    requires var next := Advance(g.shared, g.requests[id].task, now, origin, parse).1.pc;
             !next.Answered? && CanAnswer(next, source)
    ensures CanAnswer(g.requests[id].task.pc, source)
  {
    assert TrackedOk(g.requests[id], g.history.generations, parse);
    CouldAnswer(g.shared, g.requests[id].task, now, origin, source, parse);
  }

  lemma AnsweringStep(g: Gateway, id: nat, now: i64, origin: Origin, parse: FloatParser)
    requires id in g.requests && g.requests[id].task.pc.Answering?
    ensures var after := Step(g, Proceed(id, now, origin), parse);
            && |after.history.answers| == |g.history.answers| + 1
            && after.history.answers[|g.history.answers|].id == id
            && after.history.answers[|g.history.answers|].source == g.requests[id].task.pc.source
  {}

  lemma OnlyAnswering(s: Shared, t: RequestTask, now: i64, origin: Origin, parse: FloatParser)
    requires Advance(s, t, now, origin, parse).1.pc.Answered?
    ensures t.pc.Answering? || t.pc.Answered?
  {}

  lemma OtherTask(g: Gateway, a: Action, id: nat, parse: FloatParser)
    requires id in g.requests && !(a.Proceed? && a.id == id)
    ensures id in Step(g, a, parse).requests && Step(g, a, parse).requests[id] == g.requests[id]
  {}

  /** At every moment of a run, a request answered at the end can still be answered from that source. */
  lemma {:induction false} CanAnswerRun(g: Gateway, actions: seq<Action>, n: nat, i: nat, parse: FloatParser)
    requires Started(g) && n <= |actions| && i < |Run(g, actions, parse).history.answers|
    requires Run(g, actions, parse).history.answers[i].id in Run(g, actions[..n], parse).requests
    ensures var r := Run(g, actions, parse).history.answers[i];
            CanAnswer(Run(g, actions[..n], parse).requests[r.id].task.pc, r.source)
    decreases |actions| - n
  {
    var r := Run(g, actions, parse).history.answers[i];
    var now := Run(g, actions[..n], parse);
    if n == |actions| {
      assert actions[..n] == actions;
      AnsweredRun(g, actions, parse);
      assert IsAnswered(now, r.id);
    } else if !now.requests[r.id].task.pc.Answered? {
      var a := actions[n];
      assert actions[..n + 1] == actions[..n] + [a];
      RunOneMore(g, actions[..n], a, parse);
      StartedInv(g, parse);
      InvRun(g, actions[..n], parse);
      if a.Proceed? && a.id == r.id {
        RequestStep(now, r.id, a.now, a.origin, parse);
        if Run(g, actions[..n + 1], parse).requests[r.id].task.pc.Answered? {
          OnlyAnswering(now.shared, now.requests[r.id].task, a.now, a.origin, parse);
          AnsweredHere(g, actions, n, i, parse);
        } else {
          CanAnswerRun(g, actions, n + 1, i, parse);
          CouldAnswerHere(now, r.id, a.now, a.origin, r.source, parse);
        }
      } else {
        OtherTask(now, a, r.id, parse);
        CanAnswerRun(g, actions, n + 1, i, parse);
      }
    }
  }

  /** The step that answers a request gives the answer of the run. */
  lemma AnsweredHere(g: Gateway, actions: seq<Action>, n: nat, i: nat, parse: FloatParser)
    requires Started(g) && n < |actions| && i < |Run(g, actions, parse).history.answers|
    requires var r, now := Run(g, actions, parse).history.answers[i], Run(g, actions[..n], parse);
             && actions[n].Proceed? && actions[n].id == r.id
             && r.id in now.requests && now.requests[r.id].task.pc.Answering?
    ensures var r, now := Run(g, actions, parse).history.answers[i], Run(g, actions[..n], parse);
            now.requests[r.id].task.pc.source == r.source
  {
    var answers, now := Run(g, actions, parse).history.answers, Run(g, actions[..n], parse);
    var a, k := actions[n], |now.history.answers|;
    assert actions[..n + 1] == actions[..n] + [a];
    RunOneMore(g, actions[..n], a, parse);
    AnsweringStep(now, a.id, a.now, a.origin, parse);
    RunKeeps(g, actions, n + 1, parse);
    EachAnswerOnce(g, actions, parse);
    assert answers[k].id == answers[i].id;
    assert k == i;
  }

  // -------------------------------------------------------------------- the windows

  ghost predicate AnsweredExpired(answers: seq<Answer>, id: nat) {
    exists i :: 0 <= i < |answers| && answers[i].id == id && answers[i].source.ExpiredStore?
  }

  /** A request that is answered that its store has expired, after its first step and before it has tried the flag. */
  ghost predicate BeforeFlag(now: Gateway, answers: seq<Answer>, id: nat) {
    && id in now.requests && (now.requests[id].task.pc.Routed? || now.requests[id].task.pc.Expired?)
    && AnsweredExpired(answers, id)
  }

  /** A reload that has swapped its store in and not yet reset the flag. */
  predicate BeforeReset(now: Gateway, id: nat) {
    id in now.reloads && (now.reloads[id].Swapped? || now.reloads[id].CountedSwap?)
  }

  ghost predicate SomeBeforeFlag(now: Gateway, answers: seq<Answer>) {
    exists id :: BeforeFlag(now, answers, id)
  }

  ghost predicate SomeBeforeReset(now: Gateway) {
    exists id :: BeforeReset(now, id)
  }

  ghost predicate Apart(now: Gateway, answers: seq<Answer>) {
    !(SomeBeforeFlag(now, answers) && SomeBeforeReset(now))
  }

  /** At no moment of the run are there both. */
  ghost predicate AlwaysApart(g: Gateway, actions: seq<Action>, parse: FloatParser) {
    forall n :: 0 <= n <= |actions| ==>
      Apart(Run(g, actions[..n], parse), Run(g, actions, parse).history.answers)
  }

  // -------------------------------------------------------- played log and real log

  /**
   The played flag and lines against the real flag and raises. A request before its flag has
   already been played, and so has a reload before its reset.
   */
  ghost predicate LogsAgree(played: Shared, now: Gateway, answers: seq<Answer>) {
    var lines, raises := ExpiryLines(played.log), Raises(now.history.flag);
    if SomeBeforeReset(now) then !played.expiryLogged && lines == raises
    else if SomeBeforeFlag(now, answers) then
      played.expiryLogged && lines == raises + if now.shared.expiryLogged then 0 else 1
    else played.expiryLogged == now.shared.expiryLogged && lines == raises
  }

  /** What a request's call does to flag and log. */
  lemma RequestCallLogs(s: Shared, r: Answer, parse: FloatParser)
    requires AnswerOk(s.store, r.request, r.response, r.source, parse)
    ensures var t := Apply(s, CallOf(r), parse).0;
            && t.expiryLogged == (s.expiryLogged || r.source.ExpiredStore?)
            && ExpiryLines(t.log) == ExpiryLines(s.log) + if r.source.ExpiredStore? && !s.expiryLogged then 1 else 0
  {
    WholeRequest(s.Bump(RequestsTotal), r.request, ClockOf(r.source), OutcomeOf(r.source), parse);
    ExpiryLinesAppend(s.log, ManifestExpiredLine);
  }

  /** What a reload's call does to flag and log. */
  lemma ReloadCallLogs(s: Shared, c: Call, parse: FloatParser)
    requires c.ReloadCall?
    ensures var pc := LoadForReload(s, c.disk, c.now);
            var t := Apply(s, c, parse).0;
            && t.expiryLogged == (s.expiryLogged && !(pc.Loaded? && Accepts(s, pc.store)))
            && ExpiryLines(t.log) == ExpiryLines(s.log)
  {
    var pc := LoadForReload(s, c.disk, c.now);
    if pc.Failing? {
      FailingReload(s, pc.reason);
      ExpiryLinesAppend(s.log, StoreReloadFailedLine(pc.reason));
    } else if Accepts(s, pc.store) {
      WholeReload(s, pc.store, pc.disk, pc.now);
      ExpiryLinesAppend(s.log, StoreReloadedLine(pc.store.ViewCount(), pc.store.ManifestSequence()));
    } else {
      RolledBackReload(s, pc.store, pc.disk, pc.now);
      FailingReload(s, SequenceRollback);
      ExpiryLinesAppend(s.log, StoreReloadFailedLine(SequenceRollback));
    }
  }

  // ------------------------------------------------------------------------ steps

  ghost predicate OthersBeforeFlag(now: Gateway, answers: seq<Answer>, id: nat) {
    exists k :: k != id && BeforeFlag(now, answers, k)
  }

  /** A request's step moves no window but its own. */
  lemma OtherWindows(now: Gateway, next: Gateway, answers: seq<Answer>, id: nat)
    requires OthersStay(now.requests, next.requests, id) && next.reloads == now.reloads
    ensures SomeBeforeReset(next) <==> SomeBeforeReset(now)
    ensures SomeBeforeFlag(next, answers) <==> BeforeFlag(next, answers, id) || OthersBeforeFlag(now, answers, id)
    ensures SomeBeforeFlag(now, answers) <==> BeforeFlag(now, answers, id) || OthersBeforeFlag(now, answers, id)
  {
    forall k | BeforeReset(now, k) ensures BeforeReset(next, k) {}
    forall k | BeforeReset(next, k) ensures BeforeReset(now, k) {}
    forall k | k != id ensures BeforeFlag(next, answers, k) <==> BeforeFlag(now, answers, k) {
      SameOther(now.requests, next.requests, id, k);
    }
    if BeforeFlag(next, answers, id) || OthersBeforeFlag(now, answers, id) {
      var k :| (k == id && BeforeFlag(next, answers, k)) || (k != id && BeforeFlag(now, answers, k));
      assert BeforeFlag(next, answers, k);
    }
  }

  lemma SameOther(before: map<nat, Tracked>, after: map<nat, Tracked>, id: nat, k: nat)
    requires OthersStay(before, after, id) && k != id
    ensures k in before <==> k in after
    ensures k in before && k in after ==> before[k] == after[k]
  {
    assert k in after - {id} <==> k in before - {id};
    if k in before {
      assert (after - {id})[k] == (before - {id})[k];
    }
  }

  lemma AnsweredOnceFrom(answers: seq<Answer>, i: nat)
    requires EachOnce(answers) && i < |answers|
    ensures AnsweredExpired(answers, answers[i].id) <==> answers[i].source.ExpiredStore?
  {}

  /** What a request's step does to the flag, its raises, and the request's own window. */
  lemma RequestWindow(now: Gateway, id: nat, t: i64, origin: Origin, parse: FloatParser)
    requires id in now.requests
    ensures var next := Step(now, Proceed(id, t, origin), parse);
            var raised := now.requests[id].task.pc.Expired? && !now.shared.expiryLogged;
            && next.shared.expiryLogged == (now.shared.expiryLogged || raised)
            && Raises(next.history.flag) == Raises(now.history.flag) + if raised then 1 else 0
  {
    var x := now.requests[id];
    RequestFlags(now.shared, now.history, id, x, t, origin, parse);
    FlagAppend(now.history.flag, Raised(x.generation));
    FlagAppend(now.history.flag, Written);
  }

  lemma LogsFirstStep(played: Shared, now: Gateway, id: nat, t: i64, origin: Origin, answers: seq<Answer>, i: nat,
                      parse: FloatParser)
    requires LogsAgree(played, now, answers) && EachOnce(answers) && i < |answers| && answers[i].id == id
    requires id in now.requests && now.requests[id].task.pc.Fresh?
    requires AnswerOk(played.store, answers[i].request, answers[i].response, answers[i].source, parse)
    requires Apart(Step(now, Proceed(id, t, origin), parse), answers)
    ensures LogsAgree(Apply(played, CallOf(answers[i]), parse).0, Step(now, Proceed(id, t, origin), parse), answers)
  {
    var next := Step(now, Proceed(id, t, origin), parse);
    RequestStep(now, id, t, origin, parse);
    RequestWindow(now, id, t, origin, parse);
    OtherWindows(now, next, answers, id);
    AnsweredOnceFrom(answers, i);
    RequestCallLogs(played, answers[i], parse);
    FirstStepRoutes(now.shared, now.requests[id].task, t, origin, parse);
    assert BeforeFlag(next, answers, id) <==> answers[i].source.ExpiredStore?;
  }

  lemma FirstStepRoutes(s: Shared, t: RequestTask, now: i64, origin: Origin, parse: FloatParser)
    requires t.pc.Fresh?
    ensures Advance(s, t, now, origin, parse).1.pc.Routed?
  {}

  /** From its route a request that is answered as expired goes on to the flag. */
  lemma RoutedGoesOn(s: Shared, t: RequestTask, now: i64, origin: Origin, source: Source, parse: FloatParser)
    requires t.pc.Routed? && CanAnswer(Advance(s, t, now, origin, parse).1.pc, source)
    ensures source.ExpiredStore? <==> Advance(s, t, now, origin, parse).1.pc.Expired?
  {}

  lemma PastFlag(s: Shared, t: RequestTask, now: i64, origin: Origin, parse: FloatParser)
    requires !t.pc.Fresh? && !t.pc.Routed?
    ensures var next := Advance(s, t, now, origin, parse).1.pc; !next.Routed? && !next.Expired?
  {}

  lemma LogsLaterStep(played: Shared, now: Gateway, id: nat, t: i64, origin: Origin, answers: seq<Answer>, i: nat,
                      parse: FloatParser)
    requires LogsAgree(played, now, answers) && EachOnce(answers) && i < |answers| && answers[i].id == id
    requires id in now.requests && !now.requests[id].task.pc.Fresh? && CanAnswer(now.requests[id].task.pc, answers[i].source)
    requires var next := Step(now, Proceed(id, t, origin), parse);
             id in next.requests && CanAnswer(next.requests[id].task.pc, answers[i].source)
    requires Apart(now, answers)
    ensures LogsAgree(played, Step(now, Proceed(id, t, origin), parse), answers)
  {
    var next := Step(now, Proceed(id, t, origin), parse);
    var x := now.requests[id];
    RequestStep(now, id, t, origin, parse);
    RequestWindow(now, id, t, origin, parse);
    OtherWindows(now, next, answers, id);
    AnsweredOnceFrom(answers, i);
    if x.task.pc.Routed? {
      RoutedGoesOn(now.shared, x.task, t, origin, answers[i].source, parse);
      assert BeforeFlag(next, answers, id) <==> BeforeFlag(now, answers, id);
    } else {
      PastFlag(now.shared, x.task, t, origin, parse);
      assert !BeforeFlag(next, answers, id);
      assert BeforeFlag(now, answers, id) <==> x.task.pc.Expired?;
    }
  }

  /** The same requests: only resets in progress can differ. */
  lemma SameFlagWindows(now: Gateway, next: Gateway, answers: seq<Answer>)
    requires next.requests == now.requests
    ensures SomeBeforeFlag(next, answers) <==> SomeBeforeFlag(now, answers)
  {
    forall k ensures BeforeFlag(next, answers, k) <==> BeforeFlag(now, answers, k) {}
  }

  /** What a reload's step does to the flag and to its own window. */
  lemma ReloadWindow(now: Gateway, id: nat, parse: FloatParser)
    requires id in now.reloads
    ensures var next := Step(now, ProceedReload(id), parse);
            var pc := now.reloads[id];
            && next.requests == now.requests
            && next.shared.expiryLogged == (now.shared.expiryLogged && !pc.CountedSwap?)
            && Raises(next.history.flag) == Raises(now.history.flag)
            && (BeforeReset(next, id) <==> pc.Swapped? || (pc.Loaded? && Accepts(now.shared, pc.store)))
            && forall k :: k != id ==> (BeforeReset(next, k) <==> BeforeReset(now, k))
  {
    ReloadStep(now, id, parse);
    ReloadFlags(now.shared, now.history, id, now.reloads[id]);
    FlagAppend(now.history.flag, Lowered);
  }

  lemma LogsAtLock(played: Shared, now: Gateway, id: nat, answers: seq<Answer>, parse: FloatParser)
    requires LogsAgree(played, now, answers) && played.store == now.shared.store
    requires id in now.reloads && now.reloads[id].Loaded? && ValidPc(now.reloads[id]) && now.shared.store.Some?
    requires Apart(Step(now, ProceedReload(id), parse), answers)
    ensures var c := ReloadCall(id, now.reloads[id].disk, now.reloads[id].now);
            LogsAgree(Apply(played, c, parse).0, Step(now, ProceedReload(id), parse), answers)
  {
    var pc := now.reloads[id];
    var next := Step(now, ProceedReload(id), parse);
    LoadOf(played, pc);
    ReloadCallLogs(played, ReloadCall(id, pc.disk, pc.now), parse);
    ReloadWindow(now, id, parse);
    SameFlagWindows(now, next, answers);
    ResetWindows(now, next, id);
  }

  /** Some reload is before its reset after the step: this one, or another as before. */
  lemma ResetWindows(now: Gateway, next: Gateway, id: nat)
    requires forall k :: k != id ==> (BeforeReset(next, k) <==> BeforeReset(now, k))
    ensures BeforeReset(next, id) ==> SomeBeforeReset(next)
    ensures BeforeReset(now, id) ==> SomeBeforeReset(now)
    ensures (BeforeReset(next, id) <==> BeforeReset(now, id)) ==> (SomeBeforeReset(next) <==> SomeBeforeReset(now))
    ensures SomeBeforeReset(next) && !SomeBeforeReset(now) ==> BeforeReset(next, id)
  {
    if SomeBeforeReset(next) {
      var k :| BeforeReset(next, k);
      assert k == id || BeforeReset(now, k);
    }
    if SomeBeforeReset(now) {
      var k :| BeforeReset(now, k);
      assert k == id || BeforeReset(next, k);
    }
  }

  lemma LogsPastLock(played: Shared, now: Gateway, id: nat, answers: seq<Answer>, parse: FloatParser)
    requires LogsAgree(played, now, answers) && Apart(now, answers)
    requires id in now.reloads && !now.reloads[id].Loaded?
    ensures LogsAgree(played, Step(now, ProceedReload(id), parse), answers)
  {
    var next := Step(now, ProceedReload(id), parse);
    ReloadWindow(now, id, parse);
    SameFlagWindows(now, next, answers);
    ResetWindows(now, next, id);
  }

  lemma LogsStart(played: Shared, now: Gateway, id: nat, disk: Disk, t: i64, answers: seq<Answer>, parse: FloatParser)
    requires LogsAgree(played, now, answers) && played.store == now.shared.store && id !in now.reloads
    ensures var next := Step(now, StartReload(id, disk, t), parse);
            && LogsAgree(played, next, answers)
            && (LoadForReload(now.shared, disk, t).Failing? ==>
                  LogsAgree(Apply(played, ReloadCall(id, disk, t), parse).0, next, answers))
  {
    var next := Step(now, StartReload(id, disk, t), parse);
    ReloadCallLogs(played, ReloadCall(id, disk, t), parse);
    SameFlagWindows(now, next, answers);
    StartWindow(now.shared, disk, t);
    assert next.reloads == now.reloads[id := LoadForReload(now.shared, disk, t)];
    assert forall k :: k != id ==> (BeforeReset(next, k) <==> BeforeReset(now, k));
    ResetWindows(now, next, id);
  }

  lemma StartWindow(s: Shared, disk: Disk, t: i64)
    ensures var pc := LoadForReload(s, disk, t); !pc.Swapped? && !pc.CountedSwap?
  {}

  lemma LogsArrive(played: Shared, now: Gateway, id: nat, request: Request, answers: seq<Answer>, parse: FloatParser)
    requires LogsAgree(played, now, answers)
    ensures LogsAgree(played, Step(now, Arrive(id, request), parse), answers)
  {
    if id !in now.requests {
      var next := Step(now, Arrive(id, request), parse);
      ArriveStep(now, id, request, parse);
      assert OthersStay(now.requests, next.requests, id);
      OtherWindows(now, next, answers, id);
      assert next.history == now.history;
    }
  }

  // ------------------------------------------------------------------- whole runs

  ghost predicate HasAnswer(answers: seq<Answer>, id: nat) {
    exists i :: 0 <= i < |answers| && answers[i].id == id
  }

  /** Whoever is answered has its answer in the history. */
  lemma {:induction false} AnsweredHasAnswer(g: Gateway, actions: seq<Action>, id: nat, parse: FloatParser)
    requires Started(g) && IsAnswered(Run(g, actions, parse), id)
    ensures HasAnswer(Run(g, actions, parse).history.answers, id)
  {
    if actions != [] {
      var front, last := actions[..|actions| - 1], actions[|actions| - 1];
      var before := Run(g, front, parse);
      StepKeeps(before, last, parse);
      if IsAnswered(before, id) {
        AnsweredHasAnswer(g, front, id, parse);
        var i :| 0 <= i < |before.history.answers| && before.history.answers[i].id == id;
        assert Run(g, actions, parse).history.answers[i].id == id;
      } else {
        BecomesAnswered(before, last, id, parse);
      }
    }
  }

  lemma BecomesAnswered(g: Gateway, a: Action, id: nat, parse: FloatParser)
    requires !IsAnswered(g, id) && IsAnswered(Step(g, a, parse), id)
    ensures HasAnswer(Step(g, a, parse).history.answers, id)
  {
    if id in g.requests {
      if !(a.Proceed? && a.id == id) {
        OtherTask(g, a, id, parse);
      } else {
        RequestStep(g, id, a.now, a.origin, parse);
        OnlyAnswering(g.shared, g.requests[id].task, a.now, a.origin, parse);
        AnsweringStep(g, id, a.now, a.origin, parse);
      }
    } else {
      ArrivesFresh(g, a, id, parse);
    }
  }

  lemma ArrivesFresh(g: Gateway, a: Action, id: nat, parse: FloatParser)
    requires id !in g.requests && id in Step(g, a, parse).requests
    ensures Step(g, a, parse).requests[id].task.pc.Fresh?
  {}

  lemma AnswerTo(g: Gateway, actions: seq<Action>, n: nat, id: nat, parse: FloatParser) returns (i: nat)
    requires Started(g) && n <= |actions| && AllAnswered(Run(g, actions, parse))
    requires id in Run(g, actions[..n], parse).requests
    ensures i < |Run(g, actions, parse).history.answers| && Run(g, actions, parse).history.answers[i].id == id
  {
    RunKeeps(g, actions, n, parse);
    assert IsAnswered(Run(g, actions, parse), id);
    AnsweredHasAnswer(g, actions, id, parse);
    i :| 0 <= i < |Run(g, actions, parse).history.answers| && Run(g, actions, parse).history.answers[i].id == id;
  }

  lemma LogsRequest(g: Gateway, actions: seq<Action>, n: nat, calls: seq<Call>, parse: FloatParser)
    requires Started(g) && n < |actions| && AllAnswered(Run(g, actions, parse)) && AlwaysApart(g, actions, parse)
    requires var now, answers := Run(g, actions[..n], parse), Run(g, actions, parse).history.answers;
             && LogsAgree(Play(g.shared, calls, parse).0, now, answers)
             && Play(g.shared, calls, parse).0.store == now.shared.store
             && actions[n].Proceed? && actions[n].id in now.requests
    ensures var now, answers := Run(g, actions[..n], parse), Run(g, actions, parse).history.answers;
            LogsAgree(Play(g.shared, calls + TakingEffect(now, actions[n], answers), parse).0,
                      Step(now, actions[n], parse), answers)
  {
    var now, answers, a := Run(g, actions[..n], parse), Run(g, actions, parse).history.answers, actions[n];
    assert actions[..n + 1] == actions[..n] + [a];
    RunOneMore(g, actions[..n], a, parse);
    assert Apart(now, answers) && Apart(Run(g, actions[..n + 1], parse), answers);
    var i := AnswerTo(g, actions, n, a.id, parse);
    EachAnswerOnce(g, actions, parse);
    FitsRun(g, actions, n, parse);
    RequestStep(now, a.id, a.now, a.origin, parse);
    CanAnswerRun(g, actions, n, i, parse);
    CanAnswerRun(g, actions, n + 1, i, parse);
    LogsOwnStep(g.shared, now, Run(g, actions[..n + 1], parse), a, answers, calls, i, parse);
  }

  /** A request's step, the first or a later one, knowing the answer it leads to. */
  lemma LogsOwnStep(start: Shared, now: Gateway, next: Gateway, a: Action, answers: seq<Answer>, calls: seq<Call>, i: nat,
                    parse: FloatParser)
    requires LogsAgree(Play(start, calls, parse).0, now, answers)
    requires Play(start, calls, parse).0.store == now.shared.store
    requires a.Proceed? && a.id in now.requests && next == Step(now, a, parse) && a.id in next.requests
    requires EachOnce(answers) && i < |answers| && answers[i].id == a.id && Fits(now, a, answers, parse)
    requires CanAnswer(now.requests[a.id].task.pc, answers[i].source)
    requires CanAnswer(next.requests[a.id].task.pc, answers[i].source)
    requires Apart(now, answers) && Apart(next, answers)
    ensures LogsAgree(Play(start, calls + TakingEffect(now, a, answers), parse).0, next, answers)
  {
    var played := Play(start, calls, parse).0;
    if now.requests[a.id].task.pc.Fresh? {
      OneCall(answers, i);
      LogsFirstStep(played, now, a.id, a.now, a.origin, answers, i, parse);
      PlayOneMore(start, calls, CallOf(answers[i]), parse);
    } else {
      LogsLaterStep(played, now, a.id, a.now, a.origin, answers, i, parse);
      assert calls + [] == calls;
    }
  }

  ghost predicate LogsAgreeAt(g: Gateway, actions: seq<Action>, n: nat, parse: FloatParser)
    requires n <= |actions|
  {
    var answers := Run(g, actions, parse).history.answers;
    LogsAgree(Play(g.shared, Order(g, actions[..n], answers, parse), parse).0, Run(g, actions[..n], parse), answers)
  }

  /** The order so far, played, has the store of the run so far. */
  lemma PlayedStore(g: Gateway, actions: seq<Action>, n: nat, parse: FloatParser)
    requires Started(g) && n <= |actions|
    ensures var answers := Run(g, actions, parse).history.answers;
            Play(g.shared, Order(g, actions[..n], answers, parse), parse).0.store
            == Run(g, actions[..n], parse).shared.store
  {
    ReplaysRun(g, actions, n, parse);
  }

  /** The order so far grows by what takes effect in the step. */
  lemma OrderStep(g: Gateway, actions: seq<Action>, n: nat, answers: seq<Answer>, parse: FloatParser)
    requires n < |actions|
    ensures Order(g, actions[..n + 1], answers, parse)
            == Order(g, actions[..n], answers, parse) + TakingEffect(Run(g, actions[..n], parse), actions[n], answers)
    ensures Run(g, actions[..n + 1], parse) == Step(Run(g, actions[..n], parse), actions[n], parse)
  {
    assert actions[..n + 1][..n] == actions[..n];
  }

  lemma LogsStep(g: Gateway, actions: seq<Action>, n: nat, parse: FloatParser)
    requires Started(g) && n < |actions| && AllAnswered(Run(g, actions, parse)) && AlwaysApart(g, actions, parse)
    requires LogsAgreeAt(g, actions, n, parse)
    ensures LogsAgreeAt(g, actions, n + 1, parse)
  {
    var now, answers, a := Run(g, actions[..n], parse), Run(g, actions, parse).history.answers, actions[n];
    var calls := Order(g, actions[..n], answers, parse);
    OrderStep(g, actions, n, answers, parse);
    PlayedStore(g, actions, n, parse);
    if a.Proceed? && a.id in now.requests {
      LogsRequest(g, actions, n, calls, parse);
    } else {
      PendingOkRun(g, actions[..n], parse);
      assert Apart(now, answers) && Apart(Run(g, actions[..n + 1], parse), answers);
      LogsElsewhere(g.shared, now, a, answers, calls, parse);
    }
  }

  lemma LogsElsewhere(start: Shared, now: Gateway, a: Action, answers: seq<Answer>, calls: seq<Call>, parse: FloatParser)
    requires a.Proceed? ==> a.id !in now.requests
    requires LogsAgree(Play(start, calls, parse).0, now, answers) && PendingOk(now)
    requires Play(start, calls, parse).0.store == now.shared.store
    requires Apart(now, answers) && Apart(Step(now, a, parse), answers)
    ensures LogsAgree(Play(start, calls + TakingEffect(now, a, answers), parse).0, Step(now, a, parse), answers)
  {
    var played := Play(start, calls, parse).0;
    assert calls + [] == calls;
    match a
    case Arrive(id, request) => LogsArrive(played, now, id, request, answers, parse);
    case Proceed(_, _, _) =>
    case StartReload(id, disk, t) =>
      if id !in now.reloads {
        LogsStart(played, now, id, disk, t, answers, parse);
        PlayOneMore(start, calls, ReloadCall(id, disk, t), parse);
      }
    case ProceedReload(id) =>
      if id in now.reloads && now.reloads[id].Loaded? {
        LogsAtLock(played, now, id, answers, parse);
        PlayOneMore(start, calls, ReloadCall(id, now.reloads[id].disk, now.reloads[id].now), parse);
      } else if id in now.reloads {
        LogsPastLock(played, now, id, answers, parse);
      }
  }

  lemma {:induction false} LogsRun(g: Gateway, actions: seq<Action>, n: nat, parse: FloatParser)
    requires Started(g) && n <= |actions| && AllAnswered(Run(g, actions, parse)) && AlwaysApart(g, actions, parse)
    ensures LogsAgreeAt(g, actions, n, parse)
    decreases n
  {
    if n > 0 {
      LogsRun(g, actions, n - 1, parse);
      LogsStep(g, actions, n - 1, parse);
    }
  }

  /** Once every request is answered, every raise has its line and none is before its flag. */
  lemma NothingPending(g: Gateway, answers: seq<Answer>)
    requires FlagInv(g) && AllAnswered(g)
    ensures ExpiryLines(g.shared.log) == Raises(g.history.flag) && !SomeBeforeFlag(g, answers)
  {
    assert Where(g.requests, IsLogging) == {};
  }

  /**
   When the log agrees with the order of calls. In every run in which every request is
   answered, and at no moment is a request answered as expired on its way to the flag while
   a reload is on its way from its swap to its reset, the run's order of whole calls gives
   as many expiry lines as the run.
   */
  lemma OrderGivesLinesWhenApart(g: Gateway, actions: seq<Action>, parse: FloatParser)
    requires Started(g) && AllAnswered(Run(g, actions, parse)) && AlwaysApart(g, actions, parse)
    ensures var after := Run(g, actions, parse);
            var calls := Order(g, actions, after.history.answers, parse);
            ExpiryLines(Play(g.shared, calls, parse).0.log) == ExpiryLines(after.shared.log)
  {
    assert actions[..|actions|] == actions;
    LogsRun(g, actions, |actions|, parse);
    FlagRun(g, actions, parse);
    NothingPending(Run(g, actions, parse), Run(g, actions, parse).history.answers);
  }
}
