/**
 The gateway as a state machine. Every shared access of a request or a reload is one step,
 and a run is any sequence of steps of any number of requests and reloads. What the
 environment decides comes with the step that observes it: the directory as a load reads
 it, the clock when it is read, and how the origin answers. A step that does not apply
 changes nothing, so every sequence of actions is a run.
 */
module Gateway {
  import opened Wrappers
  import opened Numbers
  import opened StoreErrors
  import opened Negotiation
  import opened PreparedStore
  import opened Serving

  // -------------------------------------------------------------------- shared state

  datatype Counter =
    | RequestsTotal
    | UpstreamErrorsTotal
    | ViewsServedTotal
    | ManifestServedTotal
    | NegotiationPassthroughTotal
    | StoreReloadsTotal
    | StoreReloadFailuresTotal

  datatype Counters = Counters(requests: nat, upstreamErrors: nat, viewsServed: nat, manifestServed: nat,
                               negotiationPassthrough: nat, storeReloads: nat, storeReloadFailures: nat)
  {
    function Get(c: Counter): nat {
      match c
      case RequestsTotal => requests
      case UpstreamErrorsTotal => upstreamErrors
      case ViewsServedTotal => viewsServed
      case ManifestServedTotal => manifestServed
      case NegotiationPassthroughTotal => negotiationPassthrough
      case StoreReloadsTotal => storeReloads
      case StoreReloadFailuresTotal => storeReloadFailures
    }

    function Bump(c: Counter): (bumped: Counters)
      ensures forall d :: bumped.Get(d) == Get(d) + if c == d then 1 else 0
    {
      match c
      case RequestsTotal => this.(requests := requests + 1)
      case UpstreamErrorsTotal => this.(upstreamErrors := upstreamErrors + 1)
      case ViewsServedTotal => this.(viewsServed := viewsServed + 1)
      case ManifestServedTotal => this.(manifestServed := manifestServed + 1)
      case NegotiationPassthroughTotal => this.(negotiationPassthrough := negotiationPassthrough + 1)
      case StoreReloadsTotal => this.(storeReloads := storeReloads + 1)
      case StoreReloadFailuresTotal => this.(storeReloadFailures := storeReloadFailures + 1)
    }
  }

  const NO_COUNTS := Counters(0, 0, 0, 0, 0, 0, 0)

  datatype ReloadFailure = NoContentStoreConfigured | ValidationFailed(error: StoreLoadError) | SequenceRollback

  datatype LogLine =
    | ManifestExpiredLine
    | StoreReloadedLine(views: nat, sequence: i64)
    | StoreReloadFailedLine(reason: ReloadFailure)

  /** What all tasks share: the store behind its lock, the flag, the counters, and standard error. */
  datatype Shared = Shared(store: Option<PreparedContentStore>, expiryLogged: bool,
                           counters: Counters, log: seq<LogLine>)
  {
    function Bump(c: Counter): Shared {
      this.(counters := counters.Bump(c))
    }

    function Log(line: LogLine): Shared {
      this.(log := log + [line])
    }

    function Raise(): Shared {
      this.(expiryLogged := true)
    }

    /** Compare-and-exchange of the flag and the log line of the one that wins, with nothing in between. */
    function LogExpiredOnce(): Shared {
      if expiryLogged then this else Raise().Log(ManifestExpiredLine)
    }
  }

  // ------------------------------------------------------------------ one request

  /** Where an answer came from: the route and the clock reading it used, or the route and what the origin did. */
  datatype Source = FromTheStore(route: Route, now: i64) | ExpiredStore(now: i64) | FromTheOrigin(route: Route, outcome: Origin)

  /** The clock reading an answer was made with, if it needed one. */
  function ReadingOf(source: Source): Option<i64> {
    match source
    case FromTheStore(_, now) => Some(now)
    case ExpiredStore(now) => Some(now)
    case FromTheOrigin(_, _) => None
  }

  datatype RequestPc =
    | Fresh
    | Routed(route: Route)
    | Expired(now: i64)
    | LoggingExpiry(now: i64)
    | Serving(route: Route, store: PreparedContentStore, now: i64)
    | AtOrigin(route: Route)
    | OriginFailed(route: Route, outcome: Origin)
    | Answering(response: Response, source: Source)
    | Answered(response: Response)

  /** A request in flight: its snapshot of the store, and the counters it has bumped so far. */
  datatype RequestTask = RequestTask(request: Request, pc: RequestPc,
                                     snapshot: Option<PreparedContentStore>, bumped: set<Counter>)
  {
    function Go(next: RequestPc): RequestTask {
      this.(pc := next)
    }

    function Counting(c: Counter, next: RequestPc): RequestTask {
      this.(pc := next, bumped := bumped + {c})
    }
  }

  function NewRequest(request: Request): RequestTask {
    RequestTask(request, Fresh, None, {RequestsTotal})
  }

  function ServedCounter(route: Route): Counter {
    if route.ToManifest? then ManifestServedTotal else ViewsServedTotal
  }

  /** One step of a request; a step that reads the clock reads `now`, the step at the origin sees `origin`. */
  function Advance(s: Shared, t: RequestTask, now: i64, origin: Origin, parse: FloatParser): (Shared, RequestTask) {
    match t.pc
    case Fresh =>
      (s, t.(snapshot := s.store, pc := Routed(RouteOf(s.store, t.request, parse))))
    case Routed(route) =>
      if FromStore(route) && t.snapshot.Some? then
        var store := t.snapshot.value;
        if IsExpired(store, now) then (s, t.Go(Expired(now)))
        else if NoneMatch(t.request, route, store) then
          (s, t.Go(Answering(NOT_MODIFIED, FromTheStore(route, now))))
        else (s, t.Go(Serving(route, store, now)))
      else if route.ToOriginNegotiated? then
        (s.Bump(NegotiationPassthroughTotal), t.Counting(NegotiationPassthroughTotal, AtOrigin(route)))
      else (s, t.Go(AtOrigin(route)))
    case Expired(at) =>
      if s.expiryLogged then (s, t.Go(Answering(EXPIRED, ExpiredStore(at))))
      else (s.Raise(), t.Go(LoggingExpiry(at)))
    case LoggingExpiry(at) =>
      (s.Log(ManifestExpiredLine), t.Go(Answering(EXPIRED, ExpiredStore(at))))
    case Serving(route, store, at) =>
      if FromStore(route) then
        (s.Bump(ServedCounter(route)),
         t.Counting(ServedCounter(route), Answering(OkResponse(route, store, at), FromTheStore(route, at))))
      else (s, t.Go(AtOrigin(route)))
    case AtOrigin(route) =>
      if origin.Failed? || origin.TimedOut? then (s, t.Go(OriginFailed(route, origin)))
      else (s, t.Go(Answering(OriginResponse(origin, t.snapshot.Some?), FromTheOrigin(route, origin))))
    case OriginFailed(route, outcome) =>
      (s.Bump(UpstreamErrorsTotal),
       t.Counting(UpstreamErrorsTotal,
                  Answering(OriginResponse(outcome, t.snapshot.Some?), FromTheOrigin(route, outcome))))
    case Answering(response, _) => (s, t.Go(Answered(response)))
    case Answered(_) => (s, t)
  }

  // ------------------------------------------------------------------- one reload

  datatype ReloadPc =
    | Loaded(store: PreparedContentStore, disk: Disk, now: i64)
    | Swapped(store: PreparedContentStore)
    | CountedSwap(store: PreparedContentStore)
    | FlagReset(store: PreparedContentStore)
    | Reloaded(views: nat, sequence: i64)
    | Failing(reason: ReloadFailure)
    | CountedFailure(reason: ReloadFailure)
    | ReloadRefused(reason: ReloadFailure)

  /** Loading and validating, before the lock is taken. */
  function LoadForReload(s: Shared, disk: Disk, now: i64): ReloadPc {
    if s.store.None? then Failing(NoContentStoreConfigured)
    else
      match Load(disk, now)
      case Success(store) => Loaded(store, disk, now)
      case Failure(error) => Failing(ValidationFailed(error))
  }

  /** Under the write lock: a lower sequence is refused, an equal or higher one is accepted. */
  predicate Accepts(s: Shared, store: PreparedContentStore) {
    s.store.Some? && s.store.value.ManifestSequence() <= store.ManifestSequence()
  }

  function AdvanceReload(s: Shared, pc: ReloadPc): (Shared, ReloadPc) {
    match pc
    case Loaded(store, _, _) =>
      if Accepts(s, store) then (s.(store := Some(store)), Swapped(store)) else (s, Failing(SequenceRollback))
    case Swapped(store) => (s.Bump(StoreReloadsTotal), CountedSwap(store))
    case CountedSwap(store) => (s.(expiryLogged := false), FlagReset(store))
    case FlagReset(store) =>
      (s.Log(StoreReloadedLine(store.ViewCount(), store.ManifestSequence())),
       Reloaded(store.ViewCount(), store.ManifestSequence()))
    case Failing(reason) =>
      (s.Bump(StoreReloadFailuresTotal), CountedFailure(reason))
    case CountedFailure(reason) =>
      (s.Log(StoreReloadFailedLine(reason)), ReloadRefused(reason))
    case Reloaded(_, _) => (s, pc)
    case ReloadRefused(_) => (s, pc)
  }

  // ------------------------------------------------------------------- whole machine

  /** A store that has been served, with what was read to load it and by which reload (none at startup). */
  datatype Generation = Generation(store: PreparedContentStore, disk: Disk, now: i64, reload: Option<nat>)

  datatype Answer = Answer(id: nat, request: Request, response: Response, source: Source, generation: nat)

  /**
   A change of the expiry-logged flag, up by a request of this generation or down by a
   reload, or the expiry line that a raise leads to.
   */
  datatype FlagEvent = Raised(generation: nat) | Lowered | Written

  /** What has happened so far: the generations, the answers, and the flag's changes and lines in order. */
  datatype History = History(generations: seq<Generation>, answers: seq<Answer>, flag: seq<FlagEvent>)

  /** A request, and the number of the generation it snapshotted. */
  datatype Tracked = Tracked(task: RequestTask, generation: nat)

  datatype Gateway = Gateway(shared: Shared, requests: map<nat, Tracked>, reloads: map<nat, ReloadPc>, history: History)

  datatype Action =
    | Arrive(id: nat, request: Request)
    | Proceed(id: nat, now: i64, origin: Origin)
    | StartReload(id: nat, disk: Disk, now: i64)
    | ProceedReload(id: nat)

  /** Starting with no store directory, or with one that loads. */
  function Startup(disk: Option<Disk>, now: i64): Result<Gateway, StoreLoadError> {
    match disk
    case None => Success(Gateway(Shared(None, false, NO_COUNTS, []), map[], map[], History([], [], [])))
    case Some(dir) =>
      var store :- Load(dir, now);
      Success(Gateway(Shared(Some(store), false, NO_COUNTS, []), map[], map[],
                      History([Generation(store, dir, now, None)], [], [])))
  }

  function LatestGeneration(h: History): nat {
    if h.generations == [] then 0 else |h.generations| - 1
  }

  /** The history after a request's step: an answer is noted when given, the flag when raised, a line when written. */
  function Note(h: History, s: Shared, id: nat, x: Tracked): History {
    match x.task.pc
    case Expired(_) => if s.expiryLogged then h else h.(flag := h.flag + [Raised(x.generation)])
    case LoggingExpiry(_) => h.(flag := h.flag + [Written])
    case Answering(response, source) =>
      h.(answers := h.answers + [Answer(id, x.task.request, response, source, x.generation)])
    case _ => h
  }

  function StepRequest(g: Gateway, id: nat, now: i64, origin: Origin, parse: FloatParser): Gateway
    requires id in g.requests
  {
    var x := g.requests[id];
    var (s, task) := Advance(g.shared, x.task, now, origin, parse);
    var generation := if x.task.pc.Fresh? then LatestGeneration(g.history) else x.generation;
    Gateway(s, g.requests[id := Tracked(task, generation)], g.reloads, Note(g.history, g.shared, id, x))
  }

  /** The history after a reload's step: a swap adds a generation, a flag reset is noted. */
  function NoteReload(h: History, s: Shared, id: nat, pc: ReloadPc): History {
    match pc
    case Loaded(store, disk, now) =>
      if Accepts(s, store) then h.(generations := h.generations + [Generation(store, disk, now, Some(id))]) else h
    case CountedSwap(_) => h.(flag := h.flag + [Lowered])
    case _ => h
  }

  function StepReload(g: Gateway, id: nat): Gateway
    requires id in g.reloads
  {
    var (s, pc) := AdvanceReload(g.shared, g.reloads[id]);
    Gateway(s, g.requests, g.reloads[id := pc], NoteReload(g.history, g.shared, id, g.reloads[id]))
  }

  function Step(g: Gateway, a: Action, parse: FloatParser): Gateway {
    match a
    case Arrive(id, request) =>
      if id in g.requests then g
      else g.(shared := g.shared.Bump(RequestsTotal), requests := g.requests[id := Tracked(NewRequest(request), 0)])
    case Proceed(id, now, origin) =>
      if id in g.requests then StepRequest(g, id, now, origin, parse) else g
    case StartReload(id, disk, now) =>
      if id in g.reloads then g else g.(reloads := g.reloads[id := LoadForReload(g.shared, disk, now)])
    case ProceedReload(id) =>
      if id in g.reloads then StepReload(g, id) else g
  }

  /** The state after a sequence of actions. */
  function Run(g: Gateway, actions: seq<Action>, parse: FloatParser): Gateway {
    if actions == [] then g
    else Step(Run(g, actions[..|actions| - 1], parse), actions[|actions| - 1], parse)
  }
}
