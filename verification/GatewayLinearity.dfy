/**
 Every answer of every run is the one its handler gives when it runs alone, at the moment
 of the run where the request looked at the store.
 */
module GatewayLinearity {
  import opened Wrappers
  import opened Numbers
  import opened Negotiation
  import opened PreparedStore
  import opened Serving
  import opened Gateway
  import opened GatewaySafety
  import opened GatewaySequential

  // ------------------------------------------------- when a request looked at the store

  /** Action n of the run is the first step of this request, and the store was this one just before it. */
  ghost predicate LooksAt(g: Gateway, actions: seq<Action>, n: nat, id: nat, request: Request,
                          store: Option<PreparedContentStore>, parse: FloatParser)
  {
    && n < |actions| && actions[n].Proceed? && actions[n].id == id
    && var before := Run(g, actions[..n], parse);
       && before.shared.store == store
       && id in before.requests && before.requests[id].task == NewRequest(request)
  }

  ghost predicate Looked(g: Gateway, actions: seq<Action>, id: nat, request: Request,
                         store: Option<PreparedContentStore>, parse: FloatParser)
  {
    exists n: nat :: LooksAt(g, actions, n, id, request, store, parse)
  }

  lemma LookedGrows(g: Gateway, actions: seq<Action>, a: Action, id: nat, request: Request,
                    store: Option<PreparedContentStore>, parse: FloatParser)
    requires Looked(g, actions, id, request, store, parse)
    ensures Looked(g, actions + [a], id, request, store, parse)
  {
    var n: nat :| LooksAt(g, actions, n, id, request, store, parse);
    assert (actions + [a])[..n] == actions[..n];
    assert LooksAt(g, actions + [a], n, id, request, store, parse);
  }

  lemma LooksNow(g: Gateway, actions: seq<Action>, g1: Gateway, a: Action, parse: FloatParser)
    requires g1 == Run(g, actions, parse) && a.Proceed? && a.id in g1.requests
    requires g1.requests[a.id].task == NewRequest(g1.requests[a.id].task.request)
    ensures Looked(g, actions + [a], a.id, g1.requests[a.id].task.request, g1.shared.store, parse)
  {
    assert (actions + [a])[..|actions|] == actions;
    assert LooksAt(g, actions + [a], |actions|, a.id, g1.requests[a.id].task.request, g1.shared.store, parse);
  }

  /** A request is new, or its snapshot goes back to its look at the store in the run so far. */
  ghost predicate TaskLooked(g: Gateway, actions: seq<Action>, id: nat, t: RequestTask, parse: FloatParser) {
    if t.pc.Fresh? then t == NewRequest(t.request)
    else Looked(g, actions, id, t.request, t.snapshot, parse)
  }

  ghost predicate LooksInv(g: Gateway, actions: seq<Action>, now: Gateway, parse: FloatParser) {
    && (forall id :: id in now.requests ==> TaskLooked(g, actions, id, now.requests[id].task, parse))
    && (forall i :: 0 <= i < |now.history.answers| ==> AnswerLooked(g, actions, now.history, i, parse))
  }

  ghost predicate AnswerLooked(g: Gateway, actions: seq<Action>, h: History, i: nat, parse: FloatParser)
    requires i < |h.answers|
  {
    Looked(g, actions, h.answers[i].id, h.answers[i].request, StoreAt(h.generations, h.answers[i].generation), parse)
  }

  lemma LooksInvGrows(g: Gateway, actions: seq<Action>, a: Action, now: Gateway, later: Gateway, parse: FloatParser)
    requires LooksInv(g, actions, now, parse) && RequestsInv(now, parse)
    requires now.history.generations <= later.history.generations
    requires now.history.generations == [] ==> later.history.generations == []
    requires now.history.answers <= later.history.answers
    ensures forall id :: id in now.requests ==> TaskLooked(g, actions + [a], id, now.requests[id].task, parse)
    ensures forall i :: 0 <= i < |now.history.answers| ==> AnswerLooked(g, actions + [a], later.history, i, parse)
  {
    forall id | id in now.requests ensures TaskLooked(g, actions + [a], id, now.requests[id].task, parse) {
      var t := now.requests[id].task;
      if !t.pc.Fresh? {
        LookedGrows(g, actions, a, id, t.request, t.snapshot, parse);
      }
    }
    forall i | 0 <= i < |now.history.answers| ensures AnswerLooked(g, actions + [a], later.history, i, parse) {
      var r := now.history.answers[i];
      assert RecordOk(r, now.history.generations, parse) && AnswerLooked(g, actions, now.history, i, parse);
      StoreAtGrows(now.history.generations, later.history.generations, r.generation);
      LookedGrows(g, actions, a, r.id, r.request, StoreAt(now.history.generations, r.generation), parse);
    }
  }

  lemma LooksInvRequest(g: Gateway, actions: seq<Action>, g1: Gateway, id: nat, now: i64, origin: Origin,
                        parse: FloatParser)
    requires g1 == Run(g, actions, parse) && LooksInv(g, actions, g1, parse) && RequestsInv(g1, parse)
    requires id in g1.requests
    ensures LooksInv(g, actions + [Proceed(id, now, origin)], StepRequest(g1, id, now, origin, parse), parse)
  {
    var a := Proceed(id, now, origin);
    var x, after := g1.requests[id], StepRequest(g1, id, now, origin, parse);
    LooksInvGrows(g, actions, a, g1, after, parse);
    AdvanceKeepsRequest(g1.shared, x.task, now, origin, parse);
    if x.task.pc.Fresh? {
      LooksNow(g, actions, g1, a, parse);
      assert after.requests[id].task.snapshot == g1.shared.store;
    }
    assert TrackedOk(x, g1.history.generations, parse);
    if x.task.pc.Answering? {
      assert AnswerLooked(g, actions + [a], after.history, |g1.history.answers|, parse);
    }
  }

  lemma LooksInvStep(g: Gateway, actions: seq<Action>, g1: Gateway, a: Action, parse: FloatParser)
    requires g1 == Run(g, actions, parse) && LooksInv(g, actions, g1, parse)
    requires RequestsInv(g1, parse) && StoresInv(g1)
    ensures LooksInv(g, actions + [a], Step(g1, a, parse), parse)
  {
    match a
    case Proceed(id, now, origin) =>
      if id in g1.requests {
        LooksInvRequest(g, actions, g1, id, now, origin, parse);
      } else {
        LooksInvGrows(g, actions, a, g1, g1, parse);
      }
    case Arrive(_, _) =>
      LooksInvGrows(g, actions, a, g1, Step(g1, a, parse), parse);
    case StartReload(_, _, _) =>
      LooksInvGrows(g, actions, a, g1, Step(g1, a, parse), parse);
    case ProceedReload(_) =>
      GenerationsGrow(g1, a, parse);
      LooksInvGrows(g, actions, a, g1, Step(g1, a, parse), parse);
  }

  lemma {:induction false} LooksRun(g: Gateway, actions: seq<Action>, parse: FloatParser)
    requires Started(g)
    ensures LooksInv(g, actions, Run(g, actions, parse), parse)
  {
    if actions != [] {
      var front, last := actions[..|actions| - 1], actions[|actions| - 1];
      LooksRun(g, front, parse);
      StartedInv(g, parse);
      InvRun(g, front, parse);
      LooksInvStep(g, front, Run(g, front, parse), last, parse);
      assert front + [last] == actions;
    }
  }

  // --------------------------------------------------------------- what a run keeps

  /** Answers are never withdrawn, and requests never forgotten. */
  lemma {:induction false} RunKeeps(g: Gateway, actions: seq<Action>, m: nat, parse: FloatParser)
    requires m <= |actions|
    ensures Run(g, actions[..m], parse).history.answers <= Run(g, actions, parse).history.answers
    ensures Run(g, actions[..m], parse).requests.Keys <= Run(g, actions, parse).requests.Keys
  {
    if m == |actions| {
      assert actions[..m] == actions;
    } else {
      var front := actions[..|actions| - 1];
      assert front[..m] == actions[..m];
      RunKeeps(g, front, m, parse);
      StepKeeps(Run(g, front, parse), actions[|actions| - 1], parse);
    }
  }

  lemma StepKeeps(g: Gateway, a: Action, parse: FloatParser)
    ensures g.history.answers <= Step(g, a, parse).history.answers
    ensures g.requests.Keys <= Step(g, a, parse).requests.Keys
  {}

  ghost predicate AnsweredInv(g: Gateway) {
    forall i :: 0 <= i < |g.history.answers| ==> IsAnswered(g, g.history.answers[i].id)
  }

  ghost predicate IsAnswered(g: Gateway, id: nat) {
    id in g.requests && g.requests[id].task.pc.Answered?
  }

  ghost predicate AllAnswered(now: Gateway) {
    forall id :: id in now.requests ==> now.requests[id].task.pc.Answered?
  }

  lemma AnsweredStays(g: Gateway, a: Action, id: nat, parse: FloatParser)
    requires IsAnswered(g, id)
    ensures IsAnswered(Step(g, a, parse), id)
  {}

  lemma {:induction false} AnsweredRun(g: Gateway, actions: seq<Action>, parse: FloatParser)
    requires Started(g)
    ensures AnsweredInv(Run(g, actions, parse))
  {
    if actions != [] {
      var front, last := actions[..|actions| - 1], actions[|actions| - 1];
      AnsweredRun(g, front, parse);
      AnsweredInvStep(Run(g, front, parse), last, parse);
    }
  }

  lemma AnsweredInvStep(g: Gateway, a: Action, parse: FloatParser)
    requires AnsweredInv(g)
    ensures AnsweredInv(Step(g, a, parse))
  {
    var after := Step(g, a, parse);
    StepKeeps(g, a, parse);
    forall i | 0 <= i < |after.history.answers| ensures IsAnswered(after, after.history.answers[i].id) {
      if i < |g.history.answers| {
        AnsweredStays(g, a, g.history.answers[i].id, parse);
      } else {
        NewAnswer(g, a, parse);
      }
    }
  }

  lemma NewAnswer(g: Gateway, a: Action, parse: FloatParser)
    ensures var after := Step(g, a, parse);
            |after.history.answers| > |g.history.answers| ==>
              && |after.history.answers| == |g.history.answers| + 1
              && IsAnswered(after, after.history.answers[|g.history.answers|].id)
  {}

  /** A request that has not taken its first step has not been answered. */
  lemma NotYetAnswered(g: Gateway, actions: seq<Action>, n: nat, i: nat, parse: FloatParser)
    requires Started(g) && n <= |actions|
    requires i < |Run(g, actions, parse).history.answers|
    requires var before := Run(g, actions[..n], parse);
             var id := Run(g, actions, parse).history.answers[i].id;
             id in before.requests && before.requests[id].task.pc.Fresh?
    ensures |Run(g, actions[..n], parse).history.answers| <= i
  {
    RunKeeps(g, actions, n, parse);
    AnsweredRun(g, actions[..n], parse);
    var before := Run(g, actions[..n], parse);
    if i < |before.history.answers| {
      assert false;
    }
  }

  // ------------------------------------------------------------ snapshots in time order

  lemma {:induction false} NoStoreStays(g: Gateway, actions: seq<Action>, parse: FloatParser)
    requires Started(g) && g.history.generations == []
    ensures Run(g, actions, parse).history.generations == [] && Run(g, actions, parse).shared.store == None
  {
    StartedInv(g, parse);
    InvRun(g, actions, parse);
    if actions != [] {
      var front := actions[..|actions| - 1];
      NoStoreStays(g, front, parse);
      InvRun(g, front, parse);
      GenerationsGrow(Run(g, front, parse), actions[|actions| - 1], parse);
    }
  }

  ghost predicate NoOlder(earlier: Option<PreparedContentStore>, later: Option<PreparedContentStore>) {
    earlier.Some? ==> later.Some? && earlier.value.ManifestSequence() <= later.value.ManifestSequence()
  }

  /** Snapshots never go back: of two first steps in a run, the later one looks at the same sequence or a higher one. */
  lemma SnapshotsNeverGoBack(g: Gateway, actions: seq<Action>, m: nat, n: nat, x: nat, y: nat, rx: Request, ry: Request,
                             earlier: Option<PreparedContentStore>, later: Option<PreparedContentStore>,
                             parse: FloatParser)
    requires Started(g) && m <= n
    requires LooksAt(g, actions, m, x, rx, earlier, parse) && LooksAt(g, actions, n, y, ry, later, parse)
    ensures NoOlder(earlier, later)
  {
    if g.history.generations == [] {
      NoStoreStays(g, actions[..m], parse);
    } else {
      assert actions[..n][..m] == actions[..m];
      SequenceNeverFalls(g, actions[..n], m, parse);
    }
  }

  /** The look behind an answer of a run. */
  lemma AnswerLook(g: Gateway, actions: seq<Action>, i: nat, parse: FloatParser) returns (n: nat)
    requires Started(g)
    requires i < |Run(g, actions, parse).history.answers|
    ensures var h := Run(g, actions, parse).history;
            var r := h.answers[i];
            LooksAt(g, actions, n, r.id, r.request, StoreAt(h.generations, r.generation), parse)
  {
    LooksRun(g, actions, parse);
    var h := Run(g, actions, parse).history;
    assert AnswerLooked(g, actions, h, i, parse);
    n :| LooksAt(g, actions, n, h.answers[i].id, h.answers[i].request,
                 StoreAt(h.generations, h.answers[i].generation), parse);
  }

  /**
   What clients can see of it: when one answer has been given before another request even
   arrives, the later answer's store has the same sequence or a higher one.
   */
  lemma AnswersNeverGoBack(g: Gateway, actions: seq<Action>, m: nat, i: nat, j: nat, parse: FloatParser)
    requires Started(g) && m <= |actions|
    requires i < |Run(g, actions[..m], parse).history.answers| && j < |Run(g, actions, parse).history.answers|
    requires Run(g, actions, parse).history.answers[j].id !in Run(g, actions[..m], parse).requests
    ensures var h := Run(g, actions, parse).history;
            && i < |h.answers| && h.answers[i] == Run(g, actions[..m], parse).history.answers[i]
            && NoOlder(StoreAt(h.generations, h.answers[i].generation), StoreAt(h.generations, h.answers[j].generation))
  {
    var h := Run(g, actions, parse).history;
    var first := EarlyLook(g, actions, m, i, parse);
    var second := LateLook(g, actions, m, j, parse);
    SnapshotsNeverGoBack(g, actions, first, second, h.answers[i].id, h.answers[j].id,
                         h.answers[i].request, h.answers[j].request,
                         StoreAt(h.generations, h.answers[i].generation),
                         StoreAt(h.generations, h.answers[j].generation), parse);
  }

  /** The look behind an answer given by a moment of the run comes before that moment. */
  lemma EarlyLook(g: Gateway, actions: seq<Action>, m: nat, i: nat, parse: FloatParser) returns (n: nat)
    requires Started(g) && m <= |actions| && i < |Run(g, actions[..m], parse).history.answers|
    ensures n < m
    ensures var h := Run(g, actions, parse).history;
            && i < |h.answers| && h.answers[i] == Run(g, actions[..m], parse).history.answers[i]
            && LooksAt(g, actions, n, h.answers[i].id, h.answers[i].request,
                       StoreAt(h.generations, h.answers[i].generation), parse)
  {
    RunKeeps(g, actions, m, parse);
    n := AnswerLook(g, actions[..m], i, parse);
    assert actions[..m][..n] == actions[..n];
    SameStoreLater(g, actions, m, i, parse);
  }

  /** The look behind an answer to a request that has not arrived at a moment of the run comes after it. */
  lemma LateLook(g: Gateway, actions: seq<Action>, m: nat, j: nat, parse: FloatParser) returns (n: nat)
    requires Started(g) && m <= |actions| && j < |Run(g, actions, parse).history.answers|
    requires Run(g, actions, parse).history.answers[j].id !in Run(g, actions[..m], parse).requests
    ensures m < n
    ensures var h := Run(g, actions, parse).history;
            LooksAt(g, actions, n, h.answers[j].id, h.answers[j].request,
                    StoreAt(h.generations, h.answers[j].generation), parse)
  {
    n := AnswerLook(g, actions, j, parse);
    if n <= m {
      assert actions[..m][..n] == actions[..n];
      RunKeeps(g, actions[..m], n, parse);
      assert false;
    }
  }

  lemma SameStoreLater(g: Gateway, actions: seq<Action>, m: nat, i: nat, parse: FloatParser)
    requires Started(g) && m <= |actions| && i < |Run(g, actions[..m], parse).history.answers|
    ensures var early, late := Run(g, actions[..m], parse).history, Run(g, actions, parse).history;
            StoreAt(early.generations, early.answers[i].generation) == StoreAt(late.generations, early.answers[i].generation)
  {
    StartedInv(g, parse);
    InvRun(g, actions[..m], parse);
    RunGrows(g, actions, m, parse);
    if g.history.generations == [] {
      NoStoreStays(g, actions, parse);
      NoStoreStays(g, actions[..m], parse);
    } else {
      GenerationsStay(g, actions[..m], parse);
      var early := Run(g, actions[..m], parse).history;
      assert RecordOk(early.answers[i], early.generations, parse);
    }
  }

  // ------------------------------------------------------------- the answer it gives

  /** The clock reading behind an answer; any will do when none was made. */
  function ClockOf(source: Source): i64 {
    match ReadingOf(source)
    case Some(now) => now
    case None => 0
  }

  /** What the origin did; anything will do when it was not asked. */
  function OutcomeOf(source: Source): Origin {
    if source.FromTheOrigin? then source.outcome else Failed
  }

  /** An answer its snapshot determines is the answer of the uninterrupted handler on that store. */
  lemma AnswerIsSequential(s: Shared, request: Request, response: Response, source: Source, parse: FloatParser)
    requires AnswerOk(s.store, request, response, source, parse)
    ensures Uninterrupted(s, NewRequest(request), ClockOf(source), OutcomeOf(source), parse).1 == response
  {
    WholeRequest(s, request, ClockOf(source), OutcomeOf(source), parse);
  }

  /**
   Action n is the first step of the request of answer i, which was not given before it, and
   its handler run alone from there gives the answer.
   */
  ghost predicate AnsweredFrom(g: Gateway, actions: seq<Action>, n: nat, i: nat, r: Answer, parse: FloatParser) {
    && n < |actions| && actions[n].Proceed? && actions[n].id == r.id
    && var before := Run(g, actions[..n], parse);
       && r.id in before.requests && before.requests[r.id].task == NewRequest(r.request)
       && |before.history.answers| <= i
       && Uninterrupted(before.shared, NewRequest(r.request), ClockOf(r.source), OutcomeOf(r.source), parse).1
          == r.response
  }

  /**
   Linearizability of the answers. Whatever requests, reloads, directories and clocks are
   interleaved, each answer has a point of the run, after the arrival of its request and
   before the answer, such that the whole handler, run alone from there, gives this very
   answer.
   */
  lemma AnswersAreLinearizable(g: Gateway, actions: seq<Action>, i: nat, parse: FloatParser) returns (n: nat)
    requires Started(g)
    requires i < |Run(g, actions, parse).history.answers|
    ensures AnsweredFrom(g, actions, n, i, Run(g, actions, parse).history.answers[i], parse)
  {
    StartedInv(g, parse);
    InvRun(g, actions, parse);
    n := AnswerLook(g, actions, i, parse);
    var h := Run(g, actions, parse).history;
    var r := h.answers[i];
    assert RecordOk(r, h.generations, parse);
    NotYetAnswered(g, actions, n, i, parse);
    AnswerIsSequential(Run(g, actions[..n], parse).shared, r.request, r.response, r.source, parse);
  }
}
