/** When things happened: every clock reading behind an answer came after the load of the store it was checked against. */
module GatewayTimeline {
  import opened Wrappers
  import opened Numbers
  import opened Negotiation
  import opened PreparedStore
  import opened Serving
  import opened Gateway
  import opened GatewaySafety

  /** Somewhere in the actions, this reload read this directory at this clock reading. */
  ghost predicate LoadedIn(id: nat, disk: Disk, now: i64, actions: seq<Action>) {
    exists p :: 0 <= p < |actions| && actions[p] == StartReload(id, disk, now)
  }

  /** The generation dates from startup, or its load is among the actions. */
  ghost predicate Before(g: Generation, actions: seq<Action>) {
    g.reload.None? || LoadedIn(g.reload.value, g.disk, g.now, actions)
  }

  /** Action q of the run from `start` is the step in which this request reads the clock. */
  ghost predicate Reads(start: Gateway, actions: seq<Action>, q: nat, id: nat, now: i64, parse: FloatParser) {
    && q < |actions| && actions[q].Proceed? && actions[q].id == id && actions[q].now == now
    && var before := Run(start, actions[..q], parse);
       id in before.requests && before.requests[id].task.pc.Routed?
  }

  /** Somewhere in the actions this request read the clock, after the generation was loaded. */
  ghost predicate ReadAfter(g: Generation, start: Gateway, id: nat, now: i64, actions: seq<Action>, parse: FloatParser) {
    exists q: nat :: Reads(start, actions, q, id, now, parse) && Before(g, actions[..q])
  }

  lemma BeforeGrows(g: Generation, actions: seq<Action>, a: Action)
    requires Before(g, actions)
    ensures Before(g, actions + [a])
  {
    if g.reload.Some? {
      var p :| 0 <= p < |actions| && actions[p] == StartReload(g.reload.value, g.disk, g.now);
      assert (actions + [a])[p] == actions[p];
    }
  }

  lemma ReadAfterGrows(g: Generation, start: Gateway, id: nat, now: i64, actions: seq<Action>, a: Action,
                       parse: FloatParser)
    requires ReadAfter(g, start, id, now, actions, parse)
    ensures ReadAfter(g, start, id, now, actions + [a], parse)
  {
    var q: nat :| Reads(start, actions, q, id, now, parse) && Before(g, actions[..q]);
    assert (actions + [a])[q] == actions[q] && (actions + [a])[..q] == actions[..q];
    assert Reads(start, actions + [a], q, id, now, parse);
  }

  lemma ReadNow(g: Generation, start: Gateway, actions: seq<Action>, a: Action, parse: FloatParser)
    requires Before(g, actions) && a.Proceed?
    requires var before := Run(start, actions, parse); a.id in before.requests && before.requests[a.id].task.pc.Routed?
    ensures ReadAfter(g, start, a.id, a.now, actions + [a], parse)
  {
    assert (actions + [a])[|actions|] == a && (actions + [a])[..|actions|] == actions;
    assert Reads(start, actions + [a], |actions|, a.id, a.now, parse);
  }

  // ------------------------------------------------------------------- loads

  ghost predicate LoadsInv(g: Gateway, actions: seq<Action>) {
    && (forall i :: 0 <= i < |g.history.generations| ==> Before(g.history.generations[i], actions))
    && (forall id :: id in g.reloads && g.reloads[id].Loaded? ==>
          LoadedIn(id, g.reloads[id].disk, g.reloads[id].now, actions))
  }

  lemma LoadedInGrows(id: nat, disk: Disk, now: i64, actions: seq<Action>, a: Action)
    requires LoadedIn(id, disk, now, actions)
    ensures LoadedIn(id, disk, now, actions + [a])
  {
    var p :| 0 <= p < |actions| && actions[p] == StartReload(id, disk, now);
    assert (actions + [a])[p] == actions[p];
  }

  lemma LoadsInvGrows(g: Gateway, actions: seq<Action>, a: Action)
    requires LoadsInv(g, actions)
    ensures LoadsInv(g, actions + [a])
  {
    forall i | 0 <= i < |g.history.generations| ensures Before(g.history.generations[i], actions + [a]) {
      BeforeGrows(g.history.generations[i], actions, a);
    }
    forall id | id in g.reloads && g.reloads[id].Loaded?
      ensures LoadedIn(id, g.reloads[id].disk, g.reloads[id].now, actions + [a])
    {
      LoadedInGrows(id, g.reloads[id].disk, g.reloads[id].now, actions, a);
    }
  }

  lemma LoadIsNamed(s: Shared, id: nat, disk: Disk, now: i64, actions: seq<Action>)
    ensures var pc := LoadForReload(s, disk, now);
            pc.Loaded? ==> LoadedIn(id, pc.disk, pc.now, actions + [StartReload(id, disk, now)])
  {
    assert (actions + [StartReload(id, disk, now)])[|actions|] == StartReload(id, disk, now);
  }

  lemma LoadsInvStep(g: Gateway, actions: seq<Action>, a: Action, parse: FloatParser)
    requires LoadsInv(g, actions)
    ensures LoadsInv(Step(g, a, parse), actions + [a])
  {
    LoadsInvGrows(g, actions, a);
    match a
    case Arrive(_, _) =>
    case Proceed(id, _, _) =>
      assert Step(g, a, parse).history.generations == g.history.generations;
    case StartReload(id, disk, now) =>
      LoadIsNamed(g.shared, id, disk, now, actions);
    case ProceedReload(id) =>
      if id in g.reloads {
        AdvanceNeverLoads(g.shared, g.reloads[id]);
      }
  }

  // ------------------------------------------------------------------- readings

  /** The clock reading a request has made, between making it and answering. */
  function Reading(pc: RequestPc): Option<i64> {
    match pc
    case Expired(now) => Some(now)
    case LoggingExpiry(now) => Some(now)
    case Serving(_, _, now) => Some(now)
    case Answering(_, source) => ReadingOf(source)
    case _ => None
  }

  /** The reading, if there is one, came after the load of the numbered generation. */
  ghost predicate Timely(reading: Option<i64>, id: nat, generation: nat, generations: seq<Generation>,
                         start: Gateway, actions: seq<Action>, parse: FloatParser)
  {
    reading.Some? ==>
      generation < |generations| && ReadAfter(generations[generation], start, id, reading.value, actions, parse)
  }

  ghost predicate TimelyTask(x: Tracked, id: nat, generations: seq<Generation>,
                             start: Gateway, actions: seq<Action>, parse: FloatParser)
  {
    Timely(Reading(x.task.pc), id, x.generation, generations, start, actions, parse)
  }

  ghost predicate TimelyAnswer(r: Answer, generations: seq<Generation>,
                               start: Gateway, actions: seq<Action>, parse: FloatParser)
  {
    Timely(ReadingOf(r.source), r.id, r.generation, generations, start, actions, parse)
  }

  ghost predicate ReadingsInv(g: Gateway, start: Gateway, actions: seq<Action>, parse: FloatParser) {
    && (forall id :: id in g.requests ==>
          TimelyTask(g.requests[id], id, g.history.generations, start, actions, parse))
    && (forall i :: 0 <= i < |g.history.answers| ==>
          TimelyAnswer(g.history.answers[i], g.history.generations, start, actions, parse))
  }

  lemma TimelyGrows(reading: Option<i64>, id: nat, generation: nat, generations: seq<Generation>,
                    later: seq<Generation>, start: Gateway, actions: seq<Action>, a: Action, parse: FloatParser)
    requires Timely(reading, id, generation, generations, start, actions, parse) && generations <= later
    ensures Timely(reading, id, generation, later, start, actions + [a], parse)
  {
    if reading.Some? {
      ReadAfterGrows(generations[generation], start, id, reading.value, actions, a, parse);
    }
  }

  lemma ReadingsInvGrows(g: Gateway, later: seq<Generation>, start: Gateway, actions: seq<Action>, a: Action,
                         parse: FloatParser)
    requires ReadingsInv(g, start, actions, parse) && g.history.generations <= later
    ensures forall id :: id in g.requests ==> TimelyTask(g.requests[id], id, later, start, actions + [a], parse)
    ensures forall i :: 0 <= i < |g.history.answers| ==>
              TimelyAnswer(g.history.answers[i], later, start, actions + [a], parse)
  {
    var now := g.history.generations;
    forall id | id in g.requests ensures TimelyTask(g.requests[id], id, later, start, actions + [a], parse) {
      var x := g.requests[id];
      assert TimelyTask(x, id, now, start, actions, parse);
      TimelyGrows(Reading(x.task.pc), id, x.generation, now, later, start, actions, a, parse);
    }
    forall i | 0 <= i < |g.history.answers|
      ensures TimelyAnswer(g.history.answers[i], later, start, actions + [a], parse)
    {
      var r := g.history.answers[i];
      assert TimelyAnswer(r, now, start, actions, parse);
      TimelyGrows(ReadingOf(r.source), r.id, r.generation, now, later, start, actions, a, parse);
    }
  }

  /** A step either keeps the reading or is the one that reads, and then there is a snapshot of a store. */
  lemma AdvanceReading(s: Shared, t: RequestTask, now: i64, origin: Origin, parse: FloatParser)
    ensures var next := Advance(s, t, now, origin, parse).1;
            || Reading(next.pc) == Reading(t.pc)
            || Reading(next.pc) == None
            || (Reading(next.pc) == Some(now) && t.snapshot.Some? && t.pc.Routed?)
  {}

  lemma ReadingsInvRequest(g: Gateway, start: Gateway, actions: seq<Action>, id: nat, now: i64, origin: Origin,
                           parse: FloatParser)
    requires g == Run(start, actions, parse)
    requires LoadsInv(g, actions) && ReadingsInv(g, start, actions, parse) && RequestsInv(g, parse)
    requires id in g.requests
    ensures ReadingsInv(StepRequest(g, id, now, origin, parse), start, actions + [Proceed(id, now, origin)], parse)
  {
    var a := Proceed(id, now, origin);
    var x := g.requests[id];
    var after := StepRequest(g, id, now, origin, parse);
    ReadingsInvGrows(g, g.history.generations, start, actions, a, parse);
    TimelyStep(g, start, actions, a, Advance(g.shared, x.task, now, origin, parse).1, parse);
  }

  /** The reading of the request that steps is still timely: it keeps it, drops it, or makes it now. */
  lemma TimelyStep(g: Gateway, start: Gateway, actions: seq<Action>, a: Action, next: RequestTask, parse: FloatParser)
    requires g == Run(start, actions, parse) && LoadsInv(g, actions)
    requires a.Proceed? && a.id in g.requests
    requires TrackedOk(g.requests[a.id], g.history.generations, parse)
    requires TimelyTask(g.requests[a.id], a.id, g.history.generations, start, actions + [a], parse)
    requires next == Advance(g.shared, g.requests[a.id].task, a.now, a.origin, parse).1
    ensures Timely(Reading(next.pc), a.id, if g.requests[a.id].task.pc.Fresh? then LatestGeneration(g.history)
                                           else g.requests[a.id].generation,
                   g.history.generations, start, actions + [a], parse)
  {
    var x := g.requests[a.id];
    AdvanceReading(g.shared, x.task, a.now, a.origin, parse);
    if x.task.pc.Routed? && x.task.snapshot.Some? {
      ReadNow(g.history.generations[x.generation], start, actions, a, parse);
    }
  }

  lemma ReadingsInvStep(g: Gateway, start: Gateway, actions: seq<Action>, a: Action, parse: FloatParser)
    requires g == Run(start, actions, parse)
    requires LoadsInv(g, actions) && ReadingsInv(g, start, actions, parse) && StoresInv(g) && RequestsInv(g, parse)
    ensures ReadingsInv(Step(g, a, parse), start, actions + [a], parse)
  {
    match a
    case Proceed(id, now, origin) =>
      if id in g.requests {
        ReadingsInvRequest(g, start, actions, id, now, origin, parse);
      } else {
        ReadingsInvGrows(g, g.history.generations, start, actions, a, parse);
      }
    case Arrive(_, _) =>
      ReadingsInvGrows(g, g.history.generations, start, actions, a, parse);
    case StartReload(_, _, _) =>
      ReadingsInvGrows(g, g.history.generations, start, actions, a, parse);
    case ProceedReload(_) =>
      GenerationsGrow(g, a, parse);
      ReadingsInvGrows(g, Step(g, a, parse).history.generations, start, actions, a, parse);
  }

  /** Of a run from `start`: loads are among its actions, and readings come after them. */
  ghost predicate TimelineInv(start: Gateway, actions: seq<Action>, parse: FloatParser) {
    var g := Run(start, actions, parse);
    Inv(g, parse) && LoadsInv(g, actions) && ReadingsInv(g, start, actions, parse)
  }

  lemma TimelineStep(start: Gateway, actions: seq<Action>, a: Action, later: seq<Action>, parse: FloatParser)
    requires TimelineInv(start, actions, parse) && later == actions + [a]
    ensures TimelineInv(start, later, parse)
  {
    var g := Run(start, actions, parse);
    RunOneMore(start, actions, a, parse);
    InvStep(g, a, parse);
    LoadsInvStep(g, actions, a, parse);
    ReadingsInvStep(g, start, actions, a, parse);
  }

  lemma {:induction false} TimelineRun(start: Gateway, actions: seq<Action>, parse: FloatParser)
    requires Started(start)
    ensures TimelineInv(start, actions, parse)
  {
    if actions == [] {
      StartedInv(start, parse);
    } else {
      var front, last := actions[..|actions| - 1], actions[|actions| - 1];
      TimelineRun(start, front, parse);
      TimelineStep(start, front, last, actions, parse);
    }
  }

  /**
   Behind every answer from a store, fresh or expired, there is a clock reading of that very
   request, made after the load that validated the store: a load at startup, or one earlier
   in the run.
   */
  lemma ReadingFollowsLoad(g: Gateway, actions: seq<Action>, i: nat, parse: FloatParser)
    requires Started(g)
    requires i < |Run(g, actions, parse).history.answers|
    requires ReadingOf(Run(g, actions, parse).history.answers[i].source).Some?
    ensures var h := Run(g, actions, parse).history;
            var r := h.answers[i];
            && r.generation < |h.generations|
            && ReadAfter(h.generations[r.generation], g, r.id, ReadingOf(r.source).value, actions, parse)
  {
    TimelineRun(g, actions, parse);
    var h := Run(g, actions, parse).history;
    assert TimelyAnswer(h.answers[i], h.generations, g, actions, parse);
  }
}
