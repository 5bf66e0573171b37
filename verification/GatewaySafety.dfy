/**
 What every run of the gateway keeps: the served sequence only rises, every answer is one
 store's own, and nothing is served from a store past its expiry.
 */
module GatewaySafety {
  import opened Wrappers
  import opened Numbers
  import opened Negotiation
  import opened PreparedStore
  import opened Serving
  import opened Gateway
  import StoreTheorems

  // -------------------------------------------------------------------- generations

  /** The sequences of successive generations never fall. */
  ghost predicate Ordered(generations: seq<Generation>) {
    forall i, j :: 0 <= i < j < |generations| ==> Sequence(generations[i]) <= Sequence(generations[j])
  }

  function Sequence(g: Generation): i64 {
    g.store.ManifestSequence()
  }

  /** A generation's store is what its reload loaded. */
  ghost predicate Valid(g: Generation) {
    Load(g.disk, g.now) == Success(g.store)
  }

  /** The store of a numbered generation; none when the gateway runs without a store. */
  function StoreAt(generations: seq<Generation>, n: nat): Option<PreparedContentStore> {
    if n < |generations| then Some(generations[n].store) else None
  }

  ghost predicate StoresInv(g: Gateway) {
    && Ordered(g.history.generations)
    && g.shared.store == StoreAt(g.history.generations, LatestGeneration(g.history))
  }

  ghost predicate ValidInv(g: Gateway) {
    && (forall i :: 0 <= i < |g.history.generations| ==> Valid(g.history.generations[i]))
    && (forall id :: id in g.reloads ==> ValidPc(g.reloads[id]))
  }

  ghost predicate ValidPc(pc: ReloadPc) {
    pc.Loaded? ==> Load(pc.disk, pc.now) == Success(pc.store)
  }

  lemma OrderedAppend(generations: seq<Generation>, next: Generation)
    requires Ordered(generations)
    requires generations != [] ==> Sequence(generations[|generations| - 1]) <= Sequence(next)
    ensures Ordered(generations + [next])
  {
    forall i | 0 <= i < |generations| ensures Sequence(generations[i]) <= Sequence(next) {
      assert i == |generations| - 1 || Sequence(generations[i]) <= Sequence(generations[|generations| - 1]);
    }
  }

  /** A reload's step, swap or not. */
  lemma StoresInvReload(g: Gateway, id: nat)
    requires StoresInv(g) && id in g.reloads
    ensures StoresInv(StepReload(g, id))
    ensures LatestGeneration(g.history) <= LatestGeneration(StepReload(g, id).history)
  {
    var pc := g.reloads[id];
    if pc.Loaded? && Accepts(g.shared, pc.store) {
      OrderedAppend(g.history.generations, Generation(pc.store, pc.disk, pc.now, Some(id)));
      assert StepReload(g, id).history.generations
          == g.history.generations + [Generation(pc.store, pc.disk, pc.now, Some(id))];
    } else {
      assert StepReload(g, id).history.generations == g.history.generations;
      assert StepReload(g, id).shared.store == g.shared.store;
    }
  }

  lemma LoadForReloadValid(s: Shared, disk: Disk, now: i64)
    ensures ValidPc(LoadForReload(s, disk, now))
  {}

  /** No step of a reload leads back to its lock. */
  lemma AdvanceNeverLoads(s: Shared, pc: ReloadPc)
    ensures !AdvanceReload(s, pc).1.Loaded?
  {}

  lemma ValidInvReload(g: Gateway, id: nat)
    requires ValidInv(g) && id in g.reloads
    ensures ValidInv(StepReload(g, id))
  {
    var pc := g.reloads[id];
    AdvanceNeverLoads(g.shared, pc);
    if pc.Loaded? {
      assert Valid(Generation(pc.store, pc.disk, pc.now, Some(id)));
    }
  }

  lemma RequestLeavesLoads(g: Gateway, id: nat, now: i64, origin: Origin, parse: FloatParser)
    requires id in g.requests
    ensures StepRequest(g, id, now, origin, parse).history.generations == g.history.generations
    ensures StepRequest(g, id, now, origin, parse).reloads == g.reloads
  {}

  lemma ValidInvSame(g: Gateway, after: Gateway)
    requires ValidInv(g) && after.history.generations == g.history.generations && after.reloads == g.reloads
    ensures ValidInv(after)
  {}

  lemma ValidInvStart(g: Gateway, id: nat, disk: Disk, now: i64)
    requires ValidInv(g)
    ensures ValidInv(g.(reloads := g.reloads[id := LoadForReload(g.shared, disk, now)]))
  {
    LoadForReloadValid(g.shared, disk, now);
  }

  lemma ValidInvStep(g: Gateway, a: Action, parse: FloatParser)
    requires ValidInv(g)
    ensures ValidInv(Step(g, a, parse))
  {
    match a
    case Arrive(_, _) =>
      ValidInvSame(g, Step(g, a, parse));
    case Proceed(id, now, origin) =>
      if id in g.requests {
        RequestLeavesLoads(g, id, now, origin, parse);
        ValidInvSame(g, StepRequest(g, id, now, origin, parse));
      }
    case StartReload(id, disk, now) =>
      ValidInvStart(g, id, disk, now);
    case ProceedReload(id) =>
      if id in g.reloads {
        ValidInvReload(g, id);
      }
  }

  lemma AdvanceKeepsStore(s: Shared, t: RequestTask, now: i64, origin: Origin, parse: FloatParser)
    ensures Advance(s, t, now, origin, parse).0.store == s.store
  {}

  lemma StoresInvStep(g: Gateway, a: Action, parse: FloatParser)
    requires StoresInv(g)
    ensures StoresInv(Step(g, a, parse))
  {
    match a
    case Arrive(_, _) =>
    case Proceed(id, now, origin) =>
      if id in g.requests {
        AdvanceKeepsStore(g.shared, g.requests[id].task, now, origin, parse);
      }
    case StartReload(_, _, _) =>
    case ProceedReload(id) =>
      if id in g.reloads {
        StoresInvReload(g, id);
      }
  }

  /** A request's step leaves the store and the generations alone. */
  lemma GenerationsGrow(g: Gateway, a: Action, parse: FloatParser)
    requires StoresInv(g)
    ensures var after := Step(g, a, parse).history.generations;
            && g.history.generations <= after
            && (g.history.generations == [] ==> after == [])
  {}

  // ------------------------------------------------------------------ requests

  /** An answer is what its request's one snapshot determines. */
  ghost predicate AnswerOk(snapshot: Option<PreparedContentStore>, request: Request, response: Response,
                           source: Source, parse: FloatParser)
  {
    var route := RouteOf(snapshot, request, parse);
    match source
    case FromTheStore(taken, now) =>
      && FromStore(route) && taken == route
      && !IsExpired(snapshot.value, now)
      && response == StoreResponse(route, snapshot.value, request, now)
    case ExpiredStore(now) =>
      FromStore(route) && IsExpired(snapshot.value, now) && response == EXPIRED
    case FromTheOrigin(taken, outcome) =>
      !FromStore(route) && taken == route && response == OriginResponse(outcome, snapshot.Some?)
  }

  ghost predicate TaskOk(t: RequestTask, parse: FloatParser) {
    var route := RouteOf(t.snapshot, t.request, parse);
    match t.pc
    case Fresh => true
    case Routed(taken) => taken == route
    case Expired(now) => FromStore(route) && IsExpired(t.snapshot.value, now)
    case LoggingExpiry(now) => FromStore(route) && IsExpired(t.snapshot.value, now)
    case Serving(taken, store, now) =>
      && FromStore(route) && taken == route && t.snapshot == Some(store)
      && !IsExpired(store, now) && !NoneMatch(t.request, route, store)
    case AtOrigin(taken) => !FromStore(route) && taken == route
    case OriginFailed(taken, _) => !FromStore(route) && taken == route
    case Answering(response, source) => AnswerOk(t.snapshot, t.request, response, source, parse)
    case Answered(_) => true
  }

  lemma TaskOkAdvance(s: Shared, t: RequestTask, now: i64, origin: Origin, parse: FloatParser)
    requires TaskOk(t, parse)
    ensures TaskOk(Advance(s, t, now, origin, parse).1, parse)
  {}

  /** A step keeps the request and its snapshot, and is never back before the snapshot. */
  lemma AdvanceKeepsRequest(s: Shared, t: RequestTask, now: i64, origin: Origin, parse: FloatParser)
    ensures Advance(s, t, now, origin, parse).1.request == t.request
    ensures !t.pc.Fresh? ==> Advance(s, t, now, origin, parse).1.snapshot == t.snapshot
    ensures !Advance(s, t, now, origin, parse).1.pc.Fresh?
  {}

  ghost predicate TrackedOk(x: Tracked, generations: seq<Generation>, parse: FloatParser) {
    && TaskOk(x.task, parse)
    && (x.task.pc.Fresh? || x.task.snapshot == StoreAt(generations, x.generation))
    && (x.task.pc.Fresh? || generations == [] || x.generation < |generations|)
  }

  ghost predicate RecordOk(r: Answer, generations: seq<Generation>, parse: FloatParser) {
    && (generations == [] || r.generation < |generations|)
    && AnswerOk(StoreAt(generations, r.generation), r.request, r.response, r.source, parse)
  }

  ghost predicate RequestsInv(g: Gateway, parse: FloatParser) {
    && (forall id :: id in g.requests ==> TrackedOk(g.requests[id], g.history.generations, parse))
    && (forall i :: 0 <= i < |g.history.answers| ==> RecordOk(g.history.answers[i], g.history.generations, parse))
  }

  /** Facts about a generation stay facts as generations are added. */
  lemma StoreAtGrows(before: seq<Generation>, after: seq<Generation>, n: nat)
    requires before <= after && (before == [] ==> after == []) && (before == [] || n < |before|)
    ensures StoreAt(after, n) == StoreAt(before, n)
  {}

  lemma RequestsInvGrows(g: Gateway, after: seq<Generation>, parse: FloatParser)
    requires RequestsInv(g, parse)
    requires g.history.generations <= after && (g.history.generations == [] ==> after == [])
    ensures forall id :: id in g.requests ==> TrackedOk(g.requests[id], after, parse)
    ensures forall i :: 0 <= i < |g.history.answers| ==> RecordOk(g.history.answers[i], after, parse)
  {
    forall id | id in g.requests ensures TrackedOk(g.requests[id], after, parse) {
      if !g.requests[id].task.pc.Fresh? {
        StoreAtGrows(g.history.generations, after, g.requests[id].generation);
      }
    }
    forall i | 0 <= i < |g.history.answers| ensures RecordOk(g.history.answers[i], after, parse) {
      StoreAtGrows(g.history.generations, after, g.history.answers[i].generation);
    }
  }

  lemma RequestsInvRequest(g: Gateway, id: nat, now: i64, origin: Origin, parse: FloatParser)
    requires StoresInv(g) && RequestsInv(g, parse) && id in g.requests
    ensures RequestsInv(StepRequest(g, id, now, origin, parse), parse)
  {
    var x := g.requests[id];
    TaskOkAdvance(g.shared, x.task, now, origin, parse);
    AdvanceKeepsRequest(g.shared, x.task, now, origin, parse);
    var after := StepRequest(g, id, now, origin, parse);
    assert TrackedOk(after.requests[id], g.history.generations, parse);
    if x.task.pc.Answering? {
      assert RecordOk(after.history.answers[|g.history.answers|], g.history.generations, parse);
    }
  }

  lemma RequestsInvStep(g: Gateway, a: Action, parse: FloatParser)
    requires StoresInv(g) && RequestsInv(g, parse)
    ensures RequestsInv(Step(g, a, parse), parse)
  {
    match a
    case Arrive(id, request) =>
    case Proceed(id, now, origin) =>
      if id in g.requests {
        RequestsInvRequest(g, id, now, origin, parse);
      }
    case StartReload(_, _, _) =>
    case ProceedReload(id) =>
      GenerationsGrow(g, a, parse);
      RequestsInvGrows(g, Step(g, a, parse).history.generations, parse);
  }

  // ---------------------------------------------------------------- all runs

  ghost predicate Inv(g: Gateway, parse: FloatParser) {
    StoresInv(g) && RequestsInv(g, parse)
  }

  /** A gateway that has just started, with or without a store. */
  ghost predicate Started(g: Gateway) {
    && g.requests == map[] && g.reloads == map[]
    && !g.shared.expiryLogged && g.shared.counters == NO_COUNTS && g.shared.log == []
    && |g.history.generations| <= 1 && g.shared.store == StoreAt(g.history.generations, 0)
    && g.history.answers == [] && g.history.flag == []
    && (forall i :: 0 <= i < |g.history.generations| ==> g.history.generations[i].reload.None?)
  }

  /** Startup gives such a state, with a loaded generation exactly when there is a directory. */
  lemma StartupIsStarted(disk: Option<Disk>, now: i64)
    requires Startup(disk, now).Success?
    ensures Started(Startup(disk, now).value) && ValidInv(Startup(disk, now).value)
    ensures Startup(disk, now).value.history.generations ==
              match disk
              case None => []
              case Some(dir) => [Generation(Load(dir, now).value, dir, now, None)]
  {}

  lemma InvStep(g: Gateway, a: Action, parse: FloatParser)
    requires Inv(g, parse)
    ensures Inv(Step(g, a, parse), parse)
  {
    StoresInvStep(g, a, parse);
    RequestsInvStep(g, a, parse);
  }

  lemma {:induction false} InvRun(g: Gateway, actions: seq<Action>, parse: FloatParser)
    requires Inv(g, parse)
    ensures Inv(Run(g, actions, parse), parse)
  {
    if actions != [] {
      var front, last := actions[..|actions| - 1], actions[|actions| - 1];
      InvRun(g, front, parse);
      InvStep(Run(g, front, parse), last, parse);
    }
  }

  lemma {:induction false} ValidInvRun(g: Gateway, actions: seq<Action>, parse: FloatParser)
    requires ValidInv(g)
    ensures ValidInv(Run(g, actions, parse))
  {
    if actions != [] {
      var front, last := actions[..|actions| - 1], actions[|actions| - 1];
      ValidInvRun(g, front, parse);
      ValidInvStep(Run(g, front, parse), last, parse);
    }
  }

  lemma StartedInv(g: Gateway, parse: FloatParser)
    requires Started(g)
    ensures Inv(g, parse)
  {}

  lemma {:induction false} RunGrows(g: Gateway, actions: seq<Action>, n: nat, parse: FloatParser)
    requires Inv(g, parse) && n <= |actions|
    ensures Run(g, actions[..n], parse).history.generations <= Run(g, actions, parse).history.generations
  {
    if n == |actions| {
      assert actions[..n] == actions;
    } else {
      var front := actions[..|actions| - 1];
      assert front[..n] == actions[..n];
      RunGrows(g, front, n, parse);
      InvRun(g, front, parse);
      GenerationsGrow(Run(g, front, parse), actions[|actions| - 1], parse);
    }
  }

  /**
   In every run the served sequence is the greatest of the startup store's and every
   committed store's, and it never falls between two points of the run.
   */
  lemma SequenceNeverFalls(g: Gateway, actions: seq<Action>, n: nat, parse: FloatParser)
    requires Started(g) && g.history.generations != [] && n <= |actions|
    ensures var early, late := Run(g, actions[..n], parse), Run(g, actions, parse);
            && ServesGreatest(early) && ServesGreatest(late)
            && early.shared.store.value.ManifestSequence() <= late.shared.store.value.ManifestSequence()
  {
    StartedInv(g, parse);
    ServedIsGreatest(g, actions, parse);
    ServedIsGreatest(g, actions[..n], parse);
    RunGrows(g, actions, n, parse);
    LaterServesMore(Run(g, actions[..n], parse), Run(g, actions, parse));
  }

  /** Some committed store is served, and no committed store, nor the startup one, has a higher sequence. */
  ghost predicate ServesGreatest(g: Gateway) {
    && g.shared.store.Some?
    && (exists i :: 0 <= i < |g.history.generations| && g.history.generations[i].store == g.shared.store.value)
    && (forall i :: 0 <= i < |g.history.generations| ==>
          Sequence(g.history.generations[i]) <= g.shared.store.value.ManifestSequence())
  }

  lemma LaterServesMore(early: Gateway, late: Gateway)
    requires ServesGreatest(early) && ServesGreatest(late)
    requires early.history.generations <= late.history.generations
    ensures early.shared.store.value.ManifestSequence() <= late.shared.store.value.ManifestSequence()
  {
    var i :| 0 <= i < |early.history.generations| && early.history.generations[i].store == early.shared.store.value;
    assert late.history.generations[i] == early.history.generations[i];
  }

  lemma LatestIsGreatest(g: Gateway)
    requires StoresInv(g) && g.history.generations != []
    ensures ServesGreatest(g)
    ensures g.shared.store == Some(g.history.generations[|g.history.generations| - 1].store)
  {
    var generations := g.history.generations;
    var last := |generations| - 1;
    forall i | 0 <= i < |generations| ensures Sequence(generations[i]) <= Sequence(generations[last]) {
      assert i == last || i < last;
    }
    assert generations[last].store == g.shared.store.value;
  }

  lemma {:induction false} GenerationsStay(g: Gateway, actions: seq<Action>, parse: FloatParser)
    requires g.history.generations != []
    ensures Run(g, actions, parse).history.generations != []
  {
    if actions != [] {
      GenerationsStay(g, actions[..|actions| - 1], parse);
    }
  }

  lemma ServedIsGreatest(g: Gateway, actions: seq<Action>, parse: FloatParser)
    requires Inv(g, parse) && g.history.generations != []
    ensures ServesGreatest(Run(g, actions, parse))
  {
    InvRun(g, actions, parse);
    GenerationsStay(g, actions, parse);
    LatestIsGreatest(Run(g, actions, parse));
  }

  lemma RunOneMore(g: Gateway, actions: seq<Action>, a: Action, parse: FloatParser)
    ensures Run(g, actions + [a], parse) == Step(Run(g, actions, parse), a, parse)
  {
    assert (actions + [a])[..|actions|] == actions;
  }

  lemma OvertakenStep(g: Gateway, id: nat, generation: nat, parse: FloatParser)
    requires StoresInv(g) && id in g.reloads && g.reloads[id].Loaded?
    requires generation < |g.history.generations|
    requires g.reloads[id].store.ManifestSequence() < Sequence(g.history.generations[generation])
    ensures var after := Step(g, ProceedReload(id), parse);
            && id in after.reloads && after.reloads[id] == Failing(SequenceRollback)
            && after.shared == g.shared && after.history == g.history
  {
    LatestIsGreatest(g);
    assert !Accepts(g.shared, g.reloads[id].store);
  }

  lemma CurrentStep(g: Gateway, id: nat, parse: FloatParser)
    requires StoresInv(g) && id in g.reloads && g.reloads[id].Loaded? && g.history.generations != []
    requires forall i :: 0 <= i < |g.history.generations| ==>
               Sequence(g.history.generations[i]) <= g.reloads[id].store.ManifestSequence()
    ensures var after := Step(g, ProceedReload(id), parse);
            && after.shared == g.shared.(store := Some(g.reloads[id].store))
            && after.history.generations == g.history.generations
                 + [Generation(g.reloads[id].store, g.reloads[id].disk, g.reloads[id].now, Some(id))]
  {
    LatestIsGreatest(g);
    assert Accepts(g.shared, g.reloads[id].store);
  }

  /**
   In any run, a reload that has loaded a store but reaches the lock after a store with a
   higher sequence was committed, whenever that was, is refused and changes nothing shared.
   */
  lemma OvertakenReloadRefused(g: Gateway, actions: seq<Action>, id: nat, generation: nat, parse: FloatParser)
    requires Started(g)
    requires var now := Run(g, actions, parse);
             && id in now.reloads && now.reloads[id].Loaded?
             && generation < |now.history.generations|
             && now.reloads[id].store.ManifestSequence() < Sequence(now.history.generations[generation])
    ensures var now, after := Run(g, actions, parse), Run(g, actions + [ProceedReload(id)], parse);
            && id in after.reloads && after.reloads[id] == Failing(SequenceRollback)
            && after.shared == now.shared && after.history == now.history
  {
    StartedInv(g, parse);
    InvRun(g, actions, parse);
    OvertakenStep(Run(g, actions, parse), id, generation, parse);
    RunOneMore(g, actions, ProceedReload(id), parse);
  }

  /** And one whose sequence is at least that of every store committed so far always commits. */
  lemma CurrentReloadCommits(g: Gateway, actions: seq<Action>, id: nat, parse: FloatParser)
    requires Started(g) && g.history.generations != []
    requires var now := Run(g, actions, parse);
             && id in now.reloads && now.reloads[id].Loaded?
             && forall i :: 0 <= i < |now.history.generations| ==>
                  Sequence(now.history.generations[i]) <= now.reloads[id].store.ManifestSequence()
    ensures var now, after := Run(g, actions, parse), Run(g, actions + [ProceedReload(id)], parse);
            && after.shared == now.shared.(store := Some(now.reloads[id].store))
            && after.history.generations == now.history.generations
                 + [Generation(now.reloads[id].store, now.reloads[id].disk, now.reloads[id].now, Some(id))]
  {
    StartedInv(g, parse);
    InvRun(g, actions, parse);
    GenerationsStay(g, actions, parse);
    CurrentStep(Run(g, actions, parse), id, parse);
    RunOneMore(g, actions, ProceedReload(id), parse);
  }

  // ---------------------------------------------------- answers of a whole run

  /**
   No mixed generations, and no stale ones. Every 200 and 304 the gateway answers itself is,
   in route, status, body and headers, a function of the request, one clock reading and one
   committed store, namely the one the request snapshotted, and the reading is before that
   store's expiry.
   */
  lemma AnswersAreWholeAndFresh(g: Gateway, actions: seq<Action>, i: nat, parse: FloatParser)
    requires Started(g)
    requires i < |Run(g, actions, parse).history.answers|
    requires Run(g, actions, parse).history.answers[i].source.FromTheStore?
    ensures var h := Run(g, actions, parse).history;
            var r := h.answers[i];
            && r.generation < |h.generations|
            && var store := h.generations[r.generation].store;
               && r.source.route == RouteOf(Some(store), r.request, parse)
               && FromStore(r.source.route)
               && r.response == StoreResponse(r.source.route, store, r.request, r.source.now)
               && (r.response.status == 200 || r.response == Response(304, map[], Empty))
               && r.source.now < store.manifest.expiresAtUnix
  {
    StartedInv(g, parse);
    InvRun(g, actions, parse);
    var h := Run(g, actions, parse).history;
    assert RecordOk(h.answers[i], h.generations, parse);
  }

  /** Every store that was ever served passed a full load, of the directory its reload read at the clock it read. */
  lemma ServedStoresWereLoaded(g: Gateway, actions: seq<Action>, n: nat, parse: FloatParser)
    requires ValidInv(g) && n < |Run(g, actions, parse).history.generations|
    ensures Valid(Run(g, actions, parse).history.generations[n])
  {
    ValidInvRun(g, actions, parse);
  }

  /** So its expiry is at most 180 days after its issue, and its computed tags are those of its bytes. */
  lemma ServedStoresAreWellTimed(g: Gateway, actions: seq<Action>, n: nat, parse: FloatParser)
    requires ValidInv(g) && n < |Run(g, actions, parse).history.generations|
    ensures StoreTheorems.WellTimed(Run(g, actions, parse).history.generations[n].store)
    ensures StoreTheorems.WellTagged(Run(g, actions, parse).history.generations[n].store)
  {
    ServedStoresWereLoaded(g, actions, n, parse);
    ValidStore(Run(g, actions, parse).history.generations[n]);
  }

  lemma ValidStore(g: Generation)
    requires Valid(g)
    ensures StoreTheorems.WellTimed(g.store) && StoreTheorems.WellTagged(g.store)
  {
    StoreTheorems.LoadedIsWellTimed(g.disk, g.now);
    StoreTheorems.LoadedIsWellTagged(g.disk, g.now);
  }

  /**
   A manifest answered in full may be cached, and the cache never outlives the manifest. The
   one cache-control value sent is `max-age=` and decimal digits; the number they read as,
   added to the reading, never passes the expiry, and is the time that is left, capped at an
   hour, whenever that difference fits 64 bits.
   */
  lemma CachedManifestExpiresFirst(g: Gateway, actions: seq<Action>, i: nat, parse: FloatParser)
    returns (digits: string)
    requires Started(g)
    requires i < |Run(g, actions, parse).history.answers|
    requires var r := Run(g, actions, parse).history.answers[i];
             r.source.FromTheStore? && r.source.route == ToManifest && r.response.status == 200
    ensures var h := Run(g, actions, parse).history;
            var r := h.answers[i];
            && r.generation < |h.generations|
            && "cache-control" in r.response.headers
            && r.response.headers["cache-control"] == ["max-age=" + digits]
            && CacheLife(digits, h.generations[r.generation].store.manifest.expiresAtUnix as int, r.source.now as int)
  {
    AnswersAreWholeAndFresh(g, actions, i, parse);
    var h := Run(g, actions, parse).history;
    var store := h.generations[h.answers[i].generation].store;
    digits := ManifestSaysLife(store, h.answers[i].source.now);
    RespondsInFull(store, h.answers[i].request, h.answers[i].source.now);
  }

  /** What the digits of a max-age say of the time left. */
  ghost predicate CacheLife(digits: string, expires: int, now: int) {
    var v := ReadDecimal(digits);
    && digits != "" && (forall c :: c in digits ==> '0' <= c <= '9')
    && now + v <= expires && v <= 3_600
    && (expires - now < 0x8000_0000_0000_0000 ==> v == if expires - now > 3_600 then 3_600 else expires - now)
  }

  lemma ManifestSaysLife(store: PreparedContentStore, now: i64) returns (digits: string)
    requires now < store.manifest.expiresAtUnix
    ensures var headers := OkResponse(ToManifest, store, now).headers;
            "cache-control" in headers && headers["cache-control"] == ["max-age=" + digits]
    ensures CacheLife(digits, store.manifest.expiresAtUnix as int, now as int)
  {
    var seconds := CacheSeconds(store.manifest.expiresAtUnix, now);
    CacheWithinExpiry(store.manifest.expiresAtUnix, now);
    MaxAgeInsertable(seconds);
    digits := Decimal(seconds as nat);
    DecimalReadsBack(seconds as nat);
    DecimalDigits(seconds as nat);
  }

  lemma RespondsInFull(store: PreparedContentStore, request: Request, now: i64)
    requires StoreResponse(ToManifest, store, request, now).status == 200
    ensures StoreResponse(ToManifest, store, request, now) == OkResponse(ToManifest, store, now)
  {}

  lemma MaxAgeInsertable(seconds: i64)
    requires seconds >= 0
    ensures Headers.IsInsertable(MaxAge(seconds))
  {
    DecimalDigits(seconds as nat);
    assert forall c :: c in "max-age=" ==> ' ' <= c <= '~';
    assert forall c :: c in MaxAge(seconds) ==> c in "max-age=" || c in Decimal(seconds as nat);
  }

  /** Once a store is past its expiry at the reading, the gateway's own answer is 404 and never content. */
  lemma ExpiredStoreAnswers404(g: Gateway, actions: seq<Action>, i: nat,
                               parse: FloatParser)
    requires Started(g)
    requires i < |Run(g, actions, parse).history.answers|
    requires Run(g, actions, parse).history.answers[i].source.ExpiredStore?
    ensures var h := Run(g, actions, parse).history;
            var r := h.answers[i];
            && r.generation < |h.generations|
            && h.generations[r.generation].store.manifest.expiresAtUnix <= r.source.now
            && r.response.status == 404
            && r.response.headers == map["content-type" := ["application/problem+json"],
                                         "ajar-error-code" := ["AJAR-VERIFY-EXPIRED"]]
            && r.response == EXPIRED
  {
    StartedInv(g, parse);
    InvRun(g, actions, parse);
    var h := Run(g, actions, parse).history;
    assert RecordOk(h.answers[i], h.generations, parse);
  }

  /** Only requests their snapshot has nothing for reach the origin, and what it did is what they are answered with. */
  lemma OriginOnlyWithoutContent(g: Gateway, actions: seq<Action>, i: nat,
                                 parse: FloatParser)
    requires Started(g)
    requires i < |Run(g, actions, parse).history.answers|
    requires Run(g, actions, parse).history.answers[i].source.FromTheOrigin?
    ensures var h := Run(g, actions, parse).history;
            var r := h.answers[i];
            && (h.generations != [] ==> r.generation < |h.generations|)
            && r.source.route == RouteOf(StoreAt(h.generations, r.generation), r.request, parse)
            && !FromStore(r.source.route)
            && r.response == OriginResponse(r.source.outcome, h.generations != [])
  {
    StartedInv(g, parse);
    InvRun(g, actions, parse);
    var h := Run(g, actions, parse).history;
    OriginRecord(h.answers[i], h.generations, parse);
  }

  lemma OriginRecord(r: Answer, generations: seq<Generation>, parse: FloatParser)
    requires RecordOk(r, generations, parse) && r.source.FromTheOrigin?
    ensures r.source.route == RouteOf(StoreAt(generations, r.generation), r.request, parse)
    ensures !FromStore(r.source.route)
    ensures r.response == OriginResponse(r.source.outcome, generations != [])
  {
    assert StoreAt(generations, r.generation).Some? <==> generations != [];
  }
}
