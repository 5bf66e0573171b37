/**
 One sequential order for a whole run: whole requests and whole reloads, one after the
 other, that give every answer and every reload's reply of the run.
 */
module GatewayOrder {
  import opened Numbers
  import opened Negotiation
  import opened PreparedStore
  import opened Serving
  import opened Gateway
  import opened GatewaySafety
  import opened GatewaySequential
  import opened GatewayLinearity

  // ------------------------------------------------------------- playing an order

  /** A handler's whole call, with what its environment shows it. */
  datatype Call =
    | RequestCall(id: nat, request: Request, now: i64, origin: Origin)
    | ReloadCall(id: nat, disk: Disk, now: i64)

  datatype Reply = RequestReply(response: Response) | ReloadReply(reply: ReloadPc)

  /** One call, run alone. */
  function Apply(s: Shared, c: Call, parse: FloatParser): (Shared, Reply) {
    match c
    case RequestCall(_, request, now, origin) =>
      var (s', response) := Uninterrupted(s.Bump(RequestsTotal), NewRequest(request), now, origin, parse);
      (s', RequestReply(response))
    case ReloadCall(_, disk, now) =>
      var (s', reply) := UninterruptedReload(s, LoadForReload(s, disk, now));
      (s', ReloadReply(reply))
  }

  /** The calls one after the other: the final state, and each call's reply. */
  function Play(s: Shared, calls: seq<Call>, parse: FloatParser): (r: (Shared, seq<Reply>))
    ensures |r.1| == |calls|
  {
    if calls == [] then (s, [])
    else
      var (before, replies) := Play(s, calls[..|calls| - 1], parse);
      var (after, reply) := Apply(before, calls[|calls| - 1], parse);
      (after, replies + [reply])
  }

  lemma PlayOneMore(s: Shared, calls: seq<Call>, c: Call, parse: FloatParser)
    ensures var (before, replies) := Play(s, calls, parse);
            var (after, reply) := Apply(before, c, parse);
            Play(s, calls + [c], parse) == (after, replies + [reply])
  {
    assert (calls + [c])[..|calls|] == calls;
  }

  // ------------------------------------------------------------ the order of a run

  function CallOf(r: Answer): Call {
    RequestCall(r.id, r.request, ClockOf(r.source), OutcomeOf(r.source))
  }

  /** The calls of the answers to one request; a request is answered at most once. */
  function CallsOf(answers: seq<Answer>, id: nat): seq<Call> {
    if answers == [] then []
    else
      var last := answers[|answers| - 1];
      CallsOf(answers[..|answers| - 1], id) + (if last.id == id then [CallOf(last)] else [])
  }

  /**
   The calls that take effect in one step: a request's at its first step, if it is answered
   at all; a reload's at the lock, or when its load fails.
   */
  function TakingEffect(g: Gateway, a: Action, answers: seq<Answer>): seq<Call> {
    match a
    case Arrive(_, _) => []
    case Proceed(id, _, _) =>
      if id in g.requests && g.requests[id].task.pc.Fresh? then CallsOf(answers, id) else []
    case StartReload(id, disk, now) =>
      if id !in g.reloads && LoadForReload(g.shared, disk, now).Failing? then [ReloadCall(id, disk, now)] else []
    case ProceedReload(id) =>
      if id in g.reloads && g.reloads[id].Loaded?
      then [ReloadCall(id, g.reloads[id].disk, g.reloads[id].now)] else []
  }

  /** The order of a run whose answers are known. */
  function Order(g: Gateway, actions: seq<Action>, answers: seq<Answer>, parse: FloatParser): seq<Call> {
    if actions == [] then []
    else
      var front, last := actions[..|actions| - 1], actions[|actions| - 1];
      Order(g, front, answers, parse) + TakingEffect(Run(g, front, parse), last, answers)
  }

  // -------------------------------------------------------- only the store matters

  /** A request's reply depends on nothing shared but the store, and it leaves the store alone. */
  lemma RequestNeedsStore(s: Shared, t: Shared, c: Call, parse: FloatParser)
    requires c.RequestCall? && s.store == t.store
    ensures Apply(s, c, parse).1 == Apply(t, c, parse).1
    ensures Apply(s, c, parse).0.store == s.store
  {
    WholeRequest(s.Bump(RequestsTotal), c.request, c.now, c.origin, parse);
    WholeRequest(t.Bump(RequestsTotal), c.request, c.now, c.origin, parse);
  }

  /** The reply a reload past its lock is heading for. */
  function Heading(pc: ReloadPc): ReloadPc {
    match pc
    case Loaded(_, _, _) => pc
    case Swapped(store) => Reloaded(store.ViewCount(), store.ManifestSequence())
    case CountedSwap(store) => Reloaded(store.ViewCount(), store.ManifestSequence())
    case FlagReset(store) => Reloaded(store.ViewCount(), store.ManifestSequence())
    case Failing(reason) => ReloadRefused(reason)
    case CountedFailure(reason) => ReloadRefused(reason)
    case Reloaded(_, _) => pc
    case ReloadRefused(_) => pc
  }

  lemma HeadingStays(s: Shared, pc: ReloadPc)
    requires !pc.Loaded?
    ensures Heading(AdvanceReload(s, pc).1) == Heading(pc)
    ensures AdvanceReload(s, pc).0.store == s.store
  {}

  /** A whole reload ends where its step at the lock, or its failed load, heads, with that step's store. */
  lemma ReloadNeedsStore(s: Shared, t: Shared, c: Call, parse: FloatParser)
    requires c.ReloadCall? && s.store == t.store
    ensures var pc := LoadForReload(t, c.disk, c.now);
            var (t', pc') := if pc.Loaded? then AdvanceReload(t, pc) else (t, pc);
            && Apply(s, c, parse).1 == ReloadReply(Heading(pc'))
            && Apply(s, c, parse).0.store == t'.store
  {
    var pc := LoadForReload(s, c.disk, c.now);
    if pc.Failing? {
      FailingReload(s, pc.reason);
    } else if Accepts(s, pc.store) {
      WholeReload(s, pc.store, pc.disk, pc.now);
    } else {
      RolledBackReload(s, pc.store, pc.disk, pc.now);
      FailingReload(s, SequenceRollback);
    }
  }

  // ---------------------------------------------------------------- each call once

  lemma {:induction false} AnsweredOnce(g: Gateway, actions: seq<Action>, i: nat, j: nat, parse: FloatParser)
    requires Started(g) && i < j < |Run(g, actions, parse).history.answers|
    ensures Run(g, actions, parse).history.answers[i].id != Run(g, actions, parse).history.answers[j].id
  {
    if actions != [] {
      var front, last := actions[..|actions| - 1], actions[|actions| - 1];
      var before := Run(g, front, parse);
      StepKeeps(before, last, parse);
      AnsweredRun(g, front, parse);
      NewAnswerIsNew(before, last, parse);
      if j < |before.history.answers| {
        AnsweredOnce(g, front, i, j, parse);
      }
    }
  }

  lemma NewAnswerIsNew(g: Gateway, a: Action, parse: FloatParser)
    requires AnsweredInv(g)
    ensures var answers := Step(g, a, parse).history.answers;
            |answers| > |g.history.answers| ==>
              && |answers| == |g.history.answers| + 1
              && forall i :: 0 <= i < |g.history.answers| ==> g.history.answers[i].id != answers[|answers| - 1].id
  {
    if a.Proceed? && a.id in g.requests && g.requests[a.id].task.pc.Answering? {
      forall i | 0 <= i < |g.history.answers| ensures g.history.answers[i].id != a.id {
        assert IsAnswered(g, g.history.answers[i].id);
      }
    }
  }

  ghost predicate EachOnce(answers: seq<Answer>) {
    forall i, j :: 0 <= i < j < |answers| ==> answers[i].id != answers[j].id
  }

  lemma {:induction false} NoCall(answers: seq<Answer>, id: nat)
    requires forall i :: 0 <= i < |answers| ==> answers[i].id != id
    ensures CallsOf(answers, id) == []
  {
    if answers != [] {
      NoCall(answers[..|answers| - 1], id);
    }
  }

  lemma {:induction false} OneCall(answers: seq<Answer>, i: nat)
    requires EachOnce(answers) && i < |answers|
    ensures CallsOf(answers, answers[i].id) == [CallOf(answers[i])]
  {
    var front := answers[..|answers| - 1];
    if i < |front| {
      OneCall(front, i);
    } else {
      NoCall(front, answers[i].id);
    }
  }

  // -------------------------------------------------------------- replaying the run

  /** The call's reply is the one the run gave, or, of a reload still on its way, will give. */
  ghost predicate RightReply(now: Gateway, answers: seq<Answer>, c: Call, reply: Reply) {
    match c
    case RequestCall(id, _, _, _) =>
      && id in now.requests && !now.requests[id].task.pc.Fresh?
      && exists i :: 0 <= i < |answers| && c == CallOf(answers[i]) && reply == RequestReply(answers[i].response)
    case ReloadCall(id, _, _) =>
      && id in now.reloads && !now.reloads[id].Loaded?
      && reply == ReloadReply(Heading(now.reloads[id]))
  }

  predicate SameCaller(c: Call, d: Call) {
    c.RequestCall? == d.RequestCall? && c.id == d.id
  }

  ghost predicate DistinctCallers(calls: seq<Call>) {
    forall k, l :: 0 <= k < l < |calls| ==> !SameCaller(calls[k], calls[l])
  }

  ghost predicate Reloads(calls: seq<Call>, id: nat) {
    exists k :: 0 <= k < |calls| && calls[k].ReloadCall? && calls[k].id == id
  }

  /** Every reload past its lock is among the calls. */
  ghost predicate ReloadsCovered(now: Gateway, calls: seq<Call>) {
    forall id :: id in now.reloads && !now.reloads[id].Loaded? ==> Reloads(calls, id)
  }

  ghost predicate AllRight(now: Gateway, answers: seq<Answer>, calls: seq<Call>, replies: seq<Reply>)
    requires |replies| == |calls|
  {
    forall k :: 0 <= k < |calls| ==> RightReply(now, answers, calls[k], replies[k])
  }

  /** The calls, played from the start, lead to the store of `now`, with the run's own replies, each caller once. */
  ghost predicate Replays(start: Shared, now: Gateway, answers: seq<Answer>, calls: seq<Call>, parse: FloatParser) {
    && Play(start, calls, parse).0.store == now.shared.store
    && AllRight(now, answers, calls, Play(start, calls, parse).1)
    && DistinctCallers(calls) && ReloadsCovered(now, calls)
  }

  lemma RightReplyStays(now: Gateway, a: Action, answers: seq<Answer>, c: Call, reply: Reply, parse: FloatParser)
    requires RightReply(now, answers, c, reply)
    ensures RightReply(Step(now, a, parse), answers, c, reply)
  {
    if a.ProceedReload? && c.ReloadCall? && c.id == a.id {
      HeadingStays(now.shared, now.reloads[a.id]);
      AdvanceNeverLoads(now.shared, now.reloads[a.id]);
    } else if a.Proceed? && c.RequestCall? && c.id == a.id {
      AdvanceKeepsRequest(now.shared, now.requests[a.id].task, a.now, a.origin, parse);
    }
  }

  lemma AllRightStays(now: Gateway, a: Action, answers: seq<Answer>, calls: seq<Call>, replies: seq<Reply>,
                      parse: FloatParser)
    requires |replies| == |calls| && AllRight(now, answers, calls, replies)
    ensures AllRight(Step(now, a, parse), answers, calls, replies)
  {
    forall k | 0 <= k < |calls| ensures RightReply(Step(now, a, parse), answers, calls[k], replies[k]) {
      RightReplyStays(now, a, answers, calls[k], replies[k], parse);
    }
  }

  /** A step in which nothing takes effect. */
  lemma AddNothing(start: Shared, now: Gateway, a: Action, answers: seq<Answer>, calls: seq<Call>, parse: FloatParser)
    requires Replays(start, now, answers, calls, parse)
    requires Step(now, a, parse).shared.store == now.shared.store
    requires ReloadsCovered(Step(now, a, parse), calls)
    ensures Replays(start, Step(now, a, parse), answers, calls, parse)
  {
    AllRightStays(now, a, answers, calls, Play(start, calls, parse).1, parse);
  }

  /** A step in which one call takes effect. */
  lemma AddOne(start: Shared, now: Gateway, next: Gateway, a: Action, answers: seq<Answer>, calls: seq<Call>, c: Call,
               parse: FloatParser)
    requires Replays(start, now, answers, calls, parse) && next == Step(now, a, parse)
    requires var (s, reply) := Apply(Play(start, calls, parse).0, c, parse);
             s.store == next.shared.store && RightReply(next, answers, c, reply)
    requires forall k :: 0 <= k < |calls| ==> !SameCaller(calls[k], c)
    requires forall id :: id in next.reloads && !next.reloads[id].Loaded? ==>
               Reloads(calls, id) || (c.ReloadCall? && c.id == id)
    ensures Replays(start, next, answers, calls + [c], parse)
  {
    AllRightStays(now, a, answers, calls, Play(start, calls, parse).1, parse);
    PlayOneMore(start, calls, c, parse);
    forall id | id in next.reloads && !next.reloads[id].Loaded? ensures Reloads(calls + [c], id) {
      if Reloads(calls, id) {
        var k :| 0 <= k < |calls| && calls[k].ReloadCall? && calls[k].id == id;
        assert (calls + [c])[k] == calls[k];
      } else {
        assert (calls + [c])[|calls|] == c;
      }
    }
  }

  /** The answers to the request that takes its first step here are determined by the store it finds. */
  ghost predicate Fits(now: Gateway, a: Action, answers: seq<Answer>, parse: FloatParser) {
    a.Proceed? && a.id in now.requests && now.requests[a.id].task.pc.Fresh? ==>
      forall i :: 0 <= i < |answers| && answers[i].id == a.id ==>
        AnswerOk(now.shared.store, answers[i].request, answers[i].response, answers[i].source, parse)
  }

  lemma ReplaysFirstStep(start: Shared, now: Gateway, next: Gateway, a: Action, answers: seq<Answer>, calls: seq<Call>,
                         i: nat, parse: FloatParser)
    requires Replays(start, now, answers, calls, parse) && next == Step(now, a, parse)
    requires Fits(now, a, answers, parse) && i < |answers|
    requires a.Proceed? && a.id == answers[i].id && a.id in now.requests && now.requests[a.id].task.pc.Fresh?
    ensures Replays(start, next, answers, calls + [CallOf(answers[i])], parse)
  {
    var c, s := CallOf(answers[i]), Play(start, calls, parse).0;
    var r := answers[i];
    AnswerIsSequential(now.shared.Bump(RequestsTotal), r.request, r.response, r.source, parse);
    RequestNeedsStore(s, now.shared, c, parse);
    AdvanceKeepsStore(now.shared, now.requests[a.id].task, a.now, a.origin, parse);
    AdvanceKeepsRequest(now.shared, now.requests[a.id].task, a.now, a.origin, parse);
    assert RightReply(next, answers, c, Apply(s, c, parse).1);
    forall k | 0 <= k < |calls| ensures !SameCaller(calls[k], c) {
      assert RightReply(now, answers, calls[k], Play(start, calls, parse).1[k]);
    }
    AddOne(start, now, next, a, answers, calls, c, parse);
  }

  /** After a reload's step every reload past its lock is among the calls, or is that one. */
  lemma OneMoreCovered(now: Gateway, next: Gateway, a: Action, calls: seq<Call>, parse: FloatParser)
    requires ReloadsCovered(now, calls) && next == Step(now, a, parse) && (a.StartReload? || a.ProceedReload?)
    ensures forall id :: id in next.reloads && !next.reloads[id].Loaded? ==> Reloads(calls, id) || id == a.id
  {
    forall id | id in next.reloads && !next.reloads[id].Loaded? ensures Reloads(calls, id) || id == a.id {
      assert id == a.id || (id in now.reloads && now.reloads[id] == next.reloads[id]);
    }
  }

  lemma ReplaysStart(start: Shared, now: Gateway, next: Gateway, a: Action, answers: seq<Answer>, calls: seq<Call>,
                     parse: FloatParser)
    requires Replays(start, now, answers, calls, parse) && next == Step(now, a, parse)
    requires a.StartReload? && a.id !in now.reloads && LoadForReload(now.shared, a.disk, a.now).Failing?
    ensures Replays(start, next, answers, calls + [ReloadCall(a.id, a.disk, a.now)], parse)
  {
    var c := ReloadCall(a.id, a.disk, a.now);
    ReloadNeedsStore(Play(start, calls, parse).0, now.shared, c, parse);
    NewReloadCaller(start, now, answers, calls, a.id, parse);
    OneMoreCovered(now, next, a, calls, parse);
    AddOne(start, now, next, a, answers, calls, c, parse);
  }

  /** A reload not yet past its lock has no call yet. */
  lemma NewReloadCaller(start: Shared, now: Gateway, answers: seq<Answer>, calls: seq<Call>, id: nat, parse: FloatParser)
    requires Replays(start, now, answers, calls, parse)
    requires id !in now.reloads || now.reloads[id].Loaded?
    ensures forall k :: 0 <= k < |calls| && calls[k].ReloadCall? ==> calls[k].id != id
  {
    forall k | 0 <= k < |calls| && calls[k].ReloadCall? ensures calls[k].id != id {
      assert RightReply(now, answers, calls[k], Play(start, calls, parse).1[k]);
    }
  }

  lemma LoadOf(s: Shared, pc: ReloadPc)
    requires pc.Loaded? && ValidPc(pc) && s.store.Some?
    ensures LoadForReload(s, pc.disk, pc.now) == pc
  {}

  lemma ReplaysLock(start: Shared, now: Gateway, next: Gateway, a: Action, answers: seq<Answer>, calls: seq<Call>,
                    parse: FloatParser)
    requires Replays(start, now, answers, calls, parse) && next == Step(now, a, parse)
    requires a.ProceedReload? && a.id in now.reloads && now.reloads[a.id].Loaded?
    requires ValidPc(now.reloads[a.id]) && now.shared.store.Some?
    ensures Replays(start, next, answers,
                    calls + [ReloadCall(a.id, now.reloads[a.id].disk, now.reloads[a.id].now)], parse)
  {
    var pc := now.reloads[a.id];
    var c := ReloadCall(a.id, pc.disk, pc.now);
    LockReply(Play(start, calls, parse).0, now.shared, pc, c, parse);
    ReloadStep(now, a.id, parse);
    NewReloadCaller(start, now, answers, calls, a.id, parse);
    OneMoreCovered(now, next, a, calls, parse);
    AddOne(start, now, next, a, answers, calls, c, parse);
  }

  /** The whole call of a reload at its lock ends where that step heads. */
  lemma LockReply(played: Shared, s: Shared, pc: ReloadPc, c: Call, parse: FloatParser)
    requires played.store == s.store && s.store.Some? && pc.Loaded? && ValidPc(pc)
    requires c.ReloadCall? && c.disk == pc.disk && c.now == pc.now
    ensures var (s', pc') := AdvanceReload(s, pc);
            && !pc'.Loaded? && Apply(played, c, parse).1 == ReloadReply(Heading(pc'))
            && Apply(played, c, parse).0.store == s'.store
  {
    LoadOf(s, pc);
    ReloadNeedsStore(played, s, c, parse);
    AdvanceNeverLoads(s, pc);
  }

  lemma ReplaysPastLock(start: Shared, now: Gateway, a: Action, answers: seq<Answer>, calls: seq<Call>,
                        parse: FloatParser)
    requires Replays(start, now, answers, calls, parse)
    requires a.ProceedReload? && a.id in now.reloads && !now.reloads[a.id].Loaded?
    ensures Replays(start, Step(now, a, parse), answers, calls, parse)
  {
    HeadingStays(now.shared, now.reloads[a.id]);
    ReloadStep(now, a.id, parse);
    var next := Step(now, a, parse);
    forall id | id in next.reloads && !next.reloads[id].Loaded? ensures Reloads(calls, id) {
      assert id == a.id || now.reloads[id] == next.reloads[id];
    }
    AddNothing(start, now, a, answers, calls, parse);
  }

  /** A pending commit has a store to compare with. */
  ghost predicate PendingOk(now: Gateway) {
    forall id :: id in now.reloads && now.reloads[id].Loaded? ==> ValidPc(now.reloads[id]) && now.shared.store.Some?
  }

  lemma PendingOkStep(now: Gateway, a: Action, parse: FloatParser)
    requires PendingOk(now)
    ensures PendingOk(Step(now, a, parse))
  {
    match a
    case Arrive(_, _) =>
    case Proceed(id, t, origin) =>
      if id in now.requests {
        AdvanceKeepsStore(now.shared, now.requests[id].task, t, origin, parse);
      }
    case StartReload(id, disk, t) =>
      LoadForReloadValid(now.shared, disk, t);
    case ProceedReload(id) =>
      if id in now.reloads {
        PendingOkReload(now, id);
      }
  }

  lemma PendingOkReload(now: Gateway, id: nat)
    requires PendingOk(now) && id in now.reloads
    ensures PendingOk(StepReload(now, id))
  {
    var next := StepReload(now, id);
    AdvanceNeverLoads(now.shared, now.reloads[id]);
    assert next.shared.store.Some? || next.shared.store == now.shared.store;
  }

  lemma {:induction false} PendingOkRun(g: Gateway, actions: seq<Action>, parse: FloatParser)
    requires Started(g)
    ensures PendingOk(Run(g, actions, parse))
  {
    if actions != [] {
      var front, last := actions[..|actions| - 1], actions[|actions| - 1];
      PendingOkRun(g, front, parse);
      PendingOkStep(Run(g, front, parse), last, parse);
    }
  }

  lemma ReplaysRequest(start: Shared, now: Gateway, a: Action, answers: seq<Answer>, calls: seq<Call>,
                       parse: FloatParser)
    requires Replays(start, now, answers, calls, parse) && Fits(now, a, answers, parse) && EachOnce(answers)
    requires a.Proceed? && a.id in now.requests
    ensures Replays(start, Step(now, a, parse), answers, calls + TakingEffect(now, a, answers), parse)
  {
    var next := Step(now, a, parse);
    AdvanceKeepsStore(now.shared, now.requests[a.id].task, a.now, a.origin, parse);
    if i :| 0 <= i < |answers| && answers[i].id == a.id && now.requests[a.id].task.pc.Fresh? {
      OneCall(answers, i);
      ReplaysFirstStep(start, now, next, a, answers, calls, i, parse);
    } else {
      NoCallUnlessFresh(now, a, answers);
      assert calls + [] == calls;
      AddNothing(start, now, a, answers, calls, parse);
    }
  }

  lemma NoCallUnlessFresh(now: Gateway, a: Action, answers: seq<Answer>)
    requires a.Proceed? && a.id in now.requests
    requires forall i :: 0 <= i < |answers| && answers[i].id == a.id ==> !now.requests[a.id].task.pc.Fresh?
    ensures TakingEffect(now, a, answers) == []
  {
    if now.requests[a.id].task.pc.Fresh? {
      NoCall(answers, a.id);
    }
  }

  lemma ReplaysStep(start: Shared, now: Gateway, a: Action, answers: seq<Answer>, calls: seq<Call>,
                    parse: FloatParser)
    requires Replays(start, now, answers, calls, parse) && Fits(now, a, answers, parse) && EachOnce(answers)
    requires PendingOk(now)
    ensures Replays(start, Step(now, a, parse), answers, calls + TakingEffect(now, a, answers), parse)
  {
    var next := Step(now, a, parse);
    if a.Proceed? && a.id in now.requests {
      ReplaysRequest(start, now, a, answers, calls, parse);
    } else if a.ProceedReload? && a.id in now.reloads && now.reloads[a.id].Loaded? {
      ReplaysLock(start, now, next, a, answers, calls, parse);
    } else if a.StartReload? && a.id !in now.reloads && LoadForReload(now.shared, a.disk, a.now).Failing? {
      ReplaysStart(start, now, next, a, answers, calls, parse);
    } else {
      assert calls + [] == calls;
      if a.ProceedReload? && a.id in now.reloads {
        ReplaysPastLock(start, now, a, answers, calls, parse);
      } else {
        NothingHappens(now, a, parse);
        AddNothing(start, now, a, answers, calls, parse);
      }
    }
  }

  lemma NothingHappens(now: Gateway, a: Action, parse: FloatParser)
    requires a.Proceed? ==> a.id !in now.requests
    requires a.ProceedReload? ==> a.id !in now.reloads
    requires a.StartReload? && a.id !in now.reloads ==> LoadForReload(now.shared, a.disk, a.now).Loaded?
    ensures var next := Step(now, a, parse);
            && next.shared.store == now.shared.store
            && forall id :: id in next.reloads && !next.reloads[id].Loaded? ==>
                 id in now.reloads && !now.reloads[id].Loaded?
  {}

  // ------------------------------------------------------------------- whole runs

  lemma {:induction false} NotFreshOnwards(g: Gateway, actions: seq<Action>, m: nat, id: nat, parse: FloatParser)
    requires m < |actions| && actions[m].Proceed? && actions[m].id == id
    requires id in Run(g, actions[..m], parse).requests
    ensures var after := Run(g, actions, parse); id in after.requests && !after.requests[id].task.pc.Fresh?
  {
    var front, last := actions[..|actions| - 1], actions[|actions| - 1];
    var before := Run(g, front, parse);
    if m == |front| {
      assert front == actions[..m];
    } else {
      assert front[..m] == actions[..m];
      NotFreshOnwards(g, front, m, id, parse);
    }
    if last.Proceed? && last.id == id {
      AdvanceKeepsRequest(before.shared, before.requests[id].task, last.now, last.origin, parse);
    }
  }

  /** A request takes its first step once. */
  lemma FirstStepOnce(g: Gateway, actions: seq<Action>, m: nat, n: nat, id: nat, parse: FloatParser)
    requires m < n < |actions| && actions[m].Proceed? && actions[m].id == id
    requires id in Run(g, actions[..m], parse).requests
    ensures var at := Run(g, actions[..n], parse); id in at.requests && !at.requests[id].task.pc.Fresh?
  {
    assert actions[..n][..m] == actions[..m];
    NotFreshOnwards(g, actions[..n], m, id, parse);
  }

  lemma FitsRun(g: Gateway, actions: seq<Action>, n: nat, parse: FloatParser)
    requires Started(g) && n < |actions|
    ensures Fits(Run(g, actions[..n], parse), actions[n], Run(g, actions, parse).history.answers, parse)
  {
    StartedInv(g, parse);
    InvRun(g, actions, parse);
    var h, now, a := Run(g, actions, parse).history, Run(g, actions[..n], parse), actions[n];
    if a.Proceed? && a.id in now.requests && now.requests[a.id].task.pc.Fresh? {
      forall i | 0 <= i < |h.answers| && h.answers[i].id == a.id
        ensures AnswerOk(now.shared.store, h.answers[i].request, h.answers[i].response, h.answers[i].source, parse)
      {
        var m := AnswerLook(g, actions, i, parse);
        if m < n {
          FirstStepOnce(g, actions, m, n, a.id, parse);
        } else if n < m {
          FirstStepOnce(g, actions, n, m, a.id, parse);
        }
        assert RecordOk(h.answers[i], h.generations, parse);
      }
    }
  }

  lemma {:induction false} ReplaysRun(g: Gateway, actions: seq<Action>, n: nat, parse: FloatParser)
    requires Started(g) && n <= |actions|
    ensures var answers := Run(g, actions, parse).history.answers;
            Replays(g.shared, Run(g, actions[..n], parse), answers, Order(g, actions[..n], answers, parse), parse)
    decreases n
  {
    var answers := Run(g, actions, parse).history.answers;
    if n > 0 {
      var front := actions[..n - 1];
      assert actions[..n][..n - 1] == front;
      ReplaysRun(g, actions, n - 1, parse);
      FitsRun(g, actions, n - 1, parse);
      PendingOkRun(g, front, parse);
      EachAnswerOnce(g, actions, parse);
      ReplaysStep(g.shared, Run(g, front, parse), actions[n - 1], answers, Order(g, front, answers, parse), parse);
    }
  }

  lemma EachAnswerOnce(g: Gateway, actions: seq<Action>, parse: FloatParser)
    requires Started(g)
    ensures EachOnce(Run(g, actions, parse).history.answers)
  {
    var answers := Run(g, actions, parse).history.answers;
    forall i, j | 0 <= i < j < |answers| ensures answers[i].id != answers[j].id {
      AnsweredOnce(g, actions, i, j, parse);
    }
  }

  lemma {:induction false} OrderGrows(g: Gateway, actions: seq<Action>, n: nat, answers: seq<Answer>, parse: FloatParser)
    requires n <= |actions|
    ensures Order(g, actions[..n], answers, parse) <= Order(g, actions, answers, parse)
  {
    if n == |actions| {
      assert actions[..n] == actions;
    } else {
      var front := actions[..|actions| - 1];
      assert front[..n] == actions[..n];
      OrderGrows(g, front, n, answers, parse);
    }
  }

  lemma LookIsOrdered(g: Gateway, actions: seq<Action>, n: nat, i: nat, answers: seq<Answer>, parse: FloatParser)
    requires i < |answers| && EachOnce(answers)
    requires n < |actions| && actions[n].Proceed? && actions[n].id == answers[i].id
    requires var before := Run(g, actions[..n], parse);
             actions[n].id in before.requests && before.requests[actions[n].id].task.pc.Fresh?
    ensures CallOf(answers[i]) in Order(g, actions[..n + 1], answers, parse)
  {
    OneCall(answers, i);
    assert actions[..n + 1][..n] == actions[..n];
  }

  /** The answer's call has been put into the order by the time the answer is given. */
  lemma AnswerIsOrdered(g: Gateway, actions: seq<Action>, m: nat, i: nat, parse: FloatParser)
    requires Started(g) && m <= |actions| && i < |Run(g, actions[..m], parse).history.answers|
    ensures i < |Run(g, actions, parse).history.answers|
    ensures var answers := Run(g, actions, parse).history.answers;
            CallOf(answers[i]) in Order(g, actions[..m], answers, parse)
  {
    RunKeeps(g, actions, m, parse);
    var answers := Run(g, actions, parse).history.answers;
    var n := AnswerLook(g, actions[..m], i, parse);
    assert actions[..m][..n] == actions[..n];
    EachAnswerOnce(g, actions, parse);
    LookIsOrdered(g, actions, n, i, answers, parse);
    assert actions[..m][..n + 1] == actions[..n + 1];
    OrderGrows(g, actions[..m], n + 1, answers, parse);
  }

  ghost predicate GivesReply(calls: seq<Call>, replies: seq<Reply>, c: Call, reply: Reply)
    requires |replies| == |calls|
  {
    exists k :: 0 <= k < |calls| && calls[k] == c && replies[k] == reply
  }

  /**
   Linearizability of whole runs. Played one after the other from the start, the calls of
   the order give every answer of the run and the reply of every finished reload, lead to
   the store the run ends with, and call each request and each reload once.
   */
  lemma OneOrderGivesAll(g: Gateway, actions: seq<Action>, parse: FloatParser)
    requires Started(g)
    ensures var after := Run(g, actions, parse);
            var answers := after.history.answers;
            var calls := Order(g, actions, answers, parse);
            var (s, replies) := Play(g.shared, calls, parse);
            && s.store == after.shared.store && DistinctCallers(calls)
            && (forall i :: 0 <= i < |answers| ==>
                  GivesReply(calls, replies, CallOf(answers[i]), RequestReply(answers[i].response)))
            && (forall id :: id in after.reloads && ReloadStepsLeft(after.reloads[id]) == 0 ==>
                  ReloadGives(calls, replies, id, after.reloads[id]))
  {
    assert actions[..|actions|] == actions;
    ReplaysRun(g, actions, |actions|, parse);
    var after := Run(g, actions, parse);
    var answers := after.history.answers;
    var calls := Order(g, actions, answers, parse);
    var replies := Play(g.shared, calls, parse).1;
    forall i | 0 <= i < |answers|
      ensures GivesReply(calls, replies, CallOf(answers[i]), RequestReply(answers[i].response))
    {
      AnswerIsOrdered(g, actions, |actions|, i, parse);
      EachAnswerOnce(g, actions, parse);
      RightAnswer(after, answers, calls, replies, i);
    }
    forall id | id in after.reloads && ReloadStepsLeft(after.reloads[id]) == 0
      ensures ReloadGives(calls, replies, id, after.reloads[id])
    {
      RightReload(after, answers, calls, replies, id);
    }
  }

  /** The call of this reload is among the calls and gives this reply. */
  ghost predicate ReloadGives(calls: seq<Call>, replies: seq<Reply>, id: nat, reply: ReloadPc)
    requires |replies| == |calls|
  {
    exists k :: 0 <= k < |calls| && calls[k].ReloadCall? && calls[k].id == id && replies[k] == ReloadReply(reply)
  }

  lemma RightAnswer(now: Gateway, answers: seq<Answer>, calls: seq<Call>, replies: seq<Reply>, i: nat)
    requires |replies| == |calls| && AllRight(now, answers, calls, replies)
    requires i < |answers| && EachOnce(answers) && CallOf(answers[i]) in calls
    ensures GivesReply(calls, replies, CallOf(answers[i]), RequestReply(answers[i].response))
  {
    var k :| 0 <= k < |calls| && calls[k] == CallOf(answers[i]);
    assert RightReply(now, answers, calls[k], replies[k]);
  }

  lemma RightReload(now: Gateway, answers: seq<Answer>, calls: seq<Call>, replies: seq<Reply>, id: nat)
    requires |replies| == |calls| && AllRight(now, answers, calls, replies) && ReloadsCovered(now, calls)
    requires id in now.reloads && ReloadStepsLeft(now.reloads[id]) == 0
    ensures ReloadGives(calls, replies, id, now.reloads[id])
  {
    assert Reloads(calls, id);
    var k :| 0 <= k < |calls| && calls[k].ReloadCall? && calls[k].id == id;
    assert RightReply(now, answers, calls[k], replies[k]);
  }

  /** The call's request has arrived, or its reload has started. */
  predicate HasBegun(now: Gateway, c: Call) {
    if c.RequestCall? then c.id in now.requests else c.id in now.reloads
  }

  /**
   The order respects time. At every moment of the run the calls so far are the first ones
   of the whole order; all of them have begun, and whoever is answered or finished is among
   them, so it comes before whatever begins later.
   */
  lemma OrderFollowsTime(g: Gateway, actions: seq<Action>, m: nat, parse: FloatParser)
    requires Started(g) && m <= |actions|
    ensures var answers, now := Run(g, actions, parse).history.answers, Run(g, actions[..m], parse);
            var calls := Order(g, actions[..m], answers, parse);
            && calls <= Order(g, actions, answers, parse)
            && (forall c :: c in calls ==> HasBegun(now, c))
            && now.history.answers <= answers
            && (forall i :: 0 <= i < |now.history.answers| ==> CallOf(answers[i]) in calls)
            && (forall id :: id in now.reloads && ReloadStepsLeft(now.reloads[id]) == 0 ==> Reloads(calls, id))
  {
    var answers, now := Run(g, actions, parse).history.answers, Run(g, actions[..m], parse);
    var calls := Order(g, actions[..m], answers, parse);
    OrderGrows(g, actions, m, answers, parse);
    ReplaysRun(g, actions, m, parse);
    RunKeeps(g, actions, m, parse);
    forall c | c in calls ensures HasBegun(now, c) {
      var k :| 0 <= k < |calls| && calls[k] == c;
      assert RightReply(now, answers, calls[k], Play(g.shared, calls, parse).1[k]);
    }
    forall i | 0 <= i < |now.history.answers| ensures CallOf(answers[i]) in calls {
      AnswerIsOrdered(g, actions, m, i, parse);
    }
  }
}
