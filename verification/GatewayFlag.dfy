/**
 The expiry-logged flag: what it guarantees about the log of every run, which expired
 answers are logged, and how a reload in between loses a line.
 */
module GatewayFlag {
  import opened Wrappers
  import opened Numbers
  import opened Negotiation
  import opened PreparedStore
  import opened Serving
  import opened Gateway
  import opened GatewaySafety
  import opened GatewaySequential
  import opened GatewayConservation
  import opened GatewayOrder

  // ------------------------------------------------------------- lines and raises

  function ExpiryLines(log: seq<LogLine>): nat {
    if log == [] then 0
    else ExpiryLines(log[..|log| - 1]) + (if log[|log| - 1].ManifestExpiredLine? then 1 else 0)
  }

  lemma ExpiryLinesAppend(log: seq<LogLine>, line: LogLine)
    ensures ExpiryLines(log + [line]) == ExpiryLines(log) + if line.ManifestExpiredLine? then 1 else 0
  {
    assert (log + [line])[..|log|] == log;
  }

  function Raises(flag: seq<FlagEvent>): nat {
    if flag == [] then 0 else Raises(flag[..|flag| - 1]) + (if flag[|flag| - 1].Raised? then 1 else 0)
  }

  function Resets(flag: seq<FlagEvent>): nat {
    if flag == [] then 0 else Resets(flag[..|flag| - 1]) + (if flag[|flag| - 1].Lowered? then 1 else 0)
  }

  function Writes(flag: seq<FlagEvent>): nat {
    if flag == [] then 0 else Writes(flag[..|flag| - 1]) + (if flag[|flag| - 1].Written? then 1 else 0)
  }

  lemma FlagAppend(flag: seq<FlagEvent>, e: FlagEvent)
    ensures Writes(flag + [e]) == Writes(flag) + if e.Written? then 1 else 0
    ensures Raises(flag + [e]) == Raises(flag) + if e.Raised? then 1 else 0
    ensures Resets(flag + [e]) == Resets(flag) + if e.Lowered? then 1 else 0
  {
    assert (flag + [e])[..|flag|] == flag;
  }

  /** Between any two raises there is a reset. */
  ghost predicate ResetsBetween(flag: seq<FlagEvent>) {
    forall i, j :: 0 <= i < j < |flag| && flag[i].Raised? && flag[j].Raised? ==> ResetIn(flag, i, j)
  }

  ghost predicate ResetIn(flag: seq<FlagEvent>, i: int, j: int)
    requires 0 <= i < j <= |flag|
  {
    exists k :: i < k < j && flag[k].Lowered?
  }

  /** The flag has been raised and not been reset since. */
  ghost predicate UpBy(flag: seq<FlagEvent>, i: nat) {
    i < |flag| && flag[i].Raised? && !ResetIn(flag, i, |flag|)
  }

  ghost predicate IsUp(flag: seq<FlagEvent>) {
    exists i: nat :: UpBy(flag, i)
  }

  predicate IsLogging(x: Tracked) {
    x.task.pc.LoggingExpiry?
  }

  /**
   The flag is up exactly when it was raised and not reset since; between any two raises
   there is a reset; and each raise has its line in the log, noted when written, or a request
   about to write it.
   */
  ghost predicate FlagInv(g: Gateway) {
    FlagOk(g.shared.expiryLogged, g.history.flag, ExpiryLines(g.shared.log), Count(g.requests, IsLogging))
  }

  ghost predicate FlagOk(up: bool, flag: seq<FlagEvent>, lines: nat, pending: nat) {
    (up <==> IsUp(flag)) && ResetsBetween(flag) && lines == Writes(flag) && lines + pending == Raises(flag)
  }

  lemma ResetStays(flag: seq<FlagEvent>, e: FlagEvent, i: int, j: int)
    requires 0 <= i < j <= |flag|
    ensures ResetIn(flag + [e], i, j) <==> ResetIn(flag, i, j)
  {
    assert forall k :: i < k < j ==> (flag + [e])[k] == flag[k];
  }

  lemma RaiseWhenDown(flag: seq<FlagEvent>, e: FlagEvent)
    requires ResetsBetween(flag) && !IsUp(flag) && e.Raised?
    ensures ResetsBetween(flag + [e]) && IsUp(flag + [e])
  {
    var after := flag + [e];
    forall i, j | 0 <= i < j < |after| && after[i].Raised? && after[j].Raised? ensures ResetIn(after, i, j) {
      ResetStays(flag, e, i, j);
      if j == |flag| {
        assert !UpBy(flag, i);
      }
    }
    assert UpBy(after, |flag|);
  }

  lemma WritingChangesNothing(flag: seq<FlagEvent>)
    requires ResetsBetween(flag)
    ensures ResetsBetween(flag + [Written]) && (IsUp(flag + [Written]) <==> IsUp(flag))
  {
    var after := flag + [Written];
    forall i, j | 0 <= i < j < |after| && after[i].Raised? && after[j].Raised? ensures ResetIn(after, i, j) {
      ResetStays(flag, Written, i, j);
    }
    forall i: nat ensures UpBy(after, i) <==> UpBy(flag, i) {
      if i < |flag| {
        ResetStays(flag, Written, i, |flag|);
        assert ResetIn(after, i, |after|) <==> ResetIn(after, i, |flag|);
      }
    }
  }

  lemma ResetLowers(flag: seq<FlagEvent>)
    requires ResetsBetween(flag)
    ensures ResetsBetween(flag + [Lowered]) && !IsUp(flag + [Lowered])
  {
    var after := flag + [Lowered];
    forall i, j | 0 <= i < j < |after| && after[i].Raised? && after[j].Raised? ensures ResetIn(after, i, j) {
      ResetStays(flag, Lowered, i, j);
    }
    forall i: nat ensures !UpBy(after, i) {
      if i < |flag| {
        assert after[|flag|].Lowered?;
      }
    }
  }

  // ------------------------------------------------------------------------ steps

  /** What a request's step does to flag, log and its own part in them. */
  lemma RequestFlags(s: Shared, h: History, id: nat, x: Tracked, now: i64, origin: Origin, parse: FloatParser)
    ensures var (s', t') := Advance(s, x.task, now, origin, parse);
            var raises := x.task.pc.Expired? && !s.expiryLogged;
            && s'.expiryLogged == (s.expiryLogged || raises)
            && Note(h, s, id, x).flag ==
                 (if raises then h.flag + [Raised(x.generation)]
                  else if x.task.pc.LoggingExpiry? then h.flag + [Written] else h.flag)
            && t'.pc.LoggingExpiry? == raises
            && s'.log == (if x.task.pc.LoggingExpiry? then s.log + [ManifestExpiredLine] else s.log)
  {}

  lemma FlagOkRaise(flag: seq<FlagEvent>, lines: nat, pending: nat, generation: nat)
    requires FlagOk(false, flag, lines, pending)
    ensures FlagOk(true, flag + [Raised(generation)], lines, pending + 1)
  {
    FlagAppend(flag, Raised(generation));
    RaiseWhenDown(flag, Raised(generation));
  }

  lemma FlagOkWrite(up: bool, flag: seq<FlagEvent>, lines: nat, pending: nat)
    requires FlagOk(up, flag, lines, pending) && pending > 0
    ensures FlagOk(up, flag + [Written], lines + 1, pending - 1)
  {
    FlagAppend(flag, Written);
    WritingChangesNothing(flag);
  }

  /** A request's step: whether it counts as pending before, and after. */
  lemma PendingStep(g: Gateway, id: nat, now: i64, origin: Origin, parse: FloatParser)
    requires id in g.requests
    ensures var pc := g.requests[id].task.pc;
            var raises := pc.Expired? && !g.shared.expiryLogged;
            Count(StepRequest(g, id, now, origin, parse).requests, IsLogging) + (if pc.LoggingExpiry? then 1 else 0)
            == Count(g.requests, IsLogging) + if raises then 1 else 0
  {
    RequestFlags(g.shared, g.history, id, g.requests[id], now, origin, parse);
    CountUpdate(g.requests, id, StepRequest(g, id, now, origin, parse).requests[id], IsLogging);
  }

  lemma FlagInvRequest(g: Gateway, id: nat, now: i64, origin: Origin, parse: FloatParser)
    requires FlagInv(g) && id in g.requests
    ensures FlagInv(StepRequest(g, id, now, origin, parse))
  {
    var x, lines, pending := g.requests[id], ExpiryLines(g.shared.log), Count(g.requests, IsLogging);
    RequestFlags(g.shared, g.history, id, x, now, origin, parse);
    PendingStep(g, id, now, origin, parse);
    if x.task.pc.Expired? && !g.shared.expiryLogged {
      FlagOkRaise(g.history.flag, lines, pending, x.generation);
    } else if x.task.pc.LoggingExpiry? {
      ExpiryLinesAppend(g.shared.log, ManifestExpiredLine);
      FlagOkWrite(g.shared.expiryLogged, g.history.flag, lines, pending);
    }
  }

  lemma ReloadFlags(s: Shared, h: History, id: nat, pc: ReloadPc)
    ensures var s' := AdvanceReload(s, pc).0;
            && ExpiryLines(s'.log) == ExpiryLines(s.log)
            && s'.expiryLogged == (s.expiryLogged && !pc.CountedSwap?)
            && NoteReload(h, s, id, pc).flag == if pc.CountedSwap? then h.flag + [Lowered] else h.flag
  {
    if pc.FlagReset? {
      ExpiryLinesAppend(s.log, StoreReloadedLine(pc.store.ViewCount(), pc.store.ManifestSequence()));
    } else if pc.CountedFailure? {
      ExpiryLinesAppend(s.log, StoreReloadFailedLine(pc.reason));
    }
  }

  lemma FlagInvStep(g: Gateway, a: Action, parse: FloatParser)
    requires FlagInv(g)
    ensures FlagInv(Step(g, a, parse))
  {
    match a
    case Arrive(id, request) =>
      if id !in g.requests {
        CountUpdate(g.requests, id, Tracked(NewRequest(request), 0), IsLogging);
      }
    case Proceed(id, now, origin) =>
      if id in g.requests {
        FlagInvRequest(g, id, now, origin, parse);
      }
    case StartReload(_, _, _) =>
    case ProceedReload(id) =>
      if id in g.reloads {
        ReloadFlags(g.shared, g.history, id, g.reloads[id]);
        FlagAppend(g.history.flag, Lowered);
        ResetLowers(g.history.flag);
      }
  }

  // --------------------------------------------------------------------- all runs

  lemma {:induction false} FlagRun(g: Gateway, actions: seq<Action>, parse: FloatParser)
    requires Started(g)
    ensures FlagInv(Run(g, actions, parse))
  {
    if actions == [] {
      assert Where(g.requests, IsLogging) == {};
    } else {
      var front, last := actions[..|actions| - 1], actions[|actions| - 1];
      FlagRun(g, front, parse);
      FlagInvStep(Run(g, front, parse), last, parse);
    }
  }

  lemma {:induction false} RaisesNeedResets(flag: seq<FlagEvent>)
    requires ResetsBetween(flag)
    ensures Raises(flag) <= Resets(flag) + 1
    ensures !IsUp(flag) ==> Raises(flag) <= Resets(flag)
  {
    if flag != [] {
      var front, last := flag[..|flag| - 1], flag[|flag| - 1];
      assert flag == front + [last];
      forall i, j | 0 <= i < j < |front| && front[i].Raised? && front[j].Raised? ensures ResetIn(front, i, j) {
        ResetStays(front, last, i, j);
      }
      RaisesNeedResets(front);
      if last.Written? {
        WritingChangesNothing(front);
      }
      if last.Raised? {
        assert UpBy(flag, |front|);
        if i: nat :| UpBy(front, i) {
          ResetStays(front, last, i, |front|);
          assert false;
        }
      }
    }
  }

  /** So in every interleaving expiry lines never exceed one plus the number of flag resets. */
  lemma ExpiryLinesAreBounded(g: Gateway, actions: seq<Action>, parse: FloatParser)
    requires Started(g)
    ensures var after := Run(g, actions, parse);
            ExpiryLines(after.shared.log) <= 1 + Resets(after.history.flag)
  {
    FlagRun(g, actions, parse);
    RaisesNeedResets(Run(g, actions, parse).history.flag);
  }

  // ------------------------------------------------------------ lines before resets

  /** Lines written since the last reset. */
  function WritesSince(flag: seq<FlagEvent>): nat {
    if flag == [] || flag[|flag| - 1].Lowered? then 0
    else WritesSince(flag[..|flag| - 1]) + (if flag[|flag| - 1].Written? then 1 else 0)
  }

  /** Between any two lines there is a reset. */
  ghost predicate LinesApart(flag: seq<FlagEvent>) {
    forall i, j :: 0 <= i < j < |flag| && flag[i].Written? && flag[j].Written? ==> ResetIn(flag, i, j)
  }

  /** No reset happens here while a request that raised the flag has yet to write its line. */
  ghost predicate WaitsForLines(g: Gateway, a: Action) {
    a.ProceedReload? && a.id in g.reloads && g.reloads[a.id].CountedSwap? ==> Count(g.requests, IsLogging) == 0
  }

  ghost predicate AllResetsWait(g: Gateway, actions: seq<Action>, parse: FloatParser) {
    forall n :: 0 <= n < |actions| ==> WaitsForLines(Run(g, actions[..n], parse), actions[n])
  }

  /** Since the last reset the flag's one raise has its line written or pending. */
  ghost predicate LinesInv(g: Gateway) {
    && WritesSince(g.history.flag) + Count(g.requests, IsLogging) == (if g.shared.expiryLogged then 1 else 0)
    && LinesApart(g.history.flag)
  }

  lemma {:induction false} NoneWrittenSince(flag: seq<FlagEvent>, i: int)
    requires WritesSince(flag) == 0 && 0 <= i < |flag| && flag[i].Written?
    ensures ResetIn(flag, i, |flag|)
  {
    var front, last := flag[..|flag| - 1], flag[|flag| - 1];
    assert flag == front + [last];
    if !last.Lowered? {
      NoneWrittenSince(front, i);
      ResetStays(front, last, i, |front|);
    }
  }

  lemma LinesAppend(flag: seq<FlagEvent>, e: FlagEvent)
    requires LinesApart(flag) && (e.Written? ==> WritesSince(flag) == 0)
    ensures LinesApart(flag + [e])
    ensures WritesSince(flag + [e]) == if e.Lowered? then 0 else WritesSince(flag) + if e.Written? then 1 else 0
  {
    var after := flag + [e];
    assert after[..|flag|] == flag;
    forall i, j | 0 <= i < j < |after| && after[i].Written? && after[j].Written? ensures ResetIn(after, i, j) {
      if j == |flag| {
        NoneWrittenSince(flag, i);
      }
      ResetStays(flag, e, i, j);
    }
  }

  lemma LinesInvRequest(g: Gateway, id: nat, now: i64, origin: Origin, parse: FloatParser)
    requires LinesInv(g) && id in g.requests
    ensures LinesInv(StepRequest(g, id, now, origin, parse))
  {
    var x, after := g.requests[id], StepRequest(g, id, now, origin, parse);
    RequestFlags(g.shared, g.history, id, x, now, origin, parse);
    CountUpdate(g.requests, id, after.requests[id], IsLogging);
    if x.task.pc.LoggingExpiry? {
      LinesAppend(g.history.flag, Written);
    } else {
      LinesAppend(g.history.flag, Raised(x.generation));
    }
  }

  lemma LinesInvStep(g: Gateway, a: Action, parse: FloatParser)
    requires LinesInv(g) && WaitsForLines(g, a)
    ensures LinesInv(Step(g, a, parse))
  {
    match a
    case Arrive(id, request) =>
      if id !in g.requests {
        CountUpdate(g.requests, id, Tracked(NewRequest(request), 0), IsLogging);
      }
    case Proceed(id, now, origin) =>
      if id in g.requests {
        LinesInvRequest(g, id, now, origin, parse);
      }
    case StartReload(_, _, _) =>
    case ProceedReload(id) =>
      if id in g.reloads {
        ReloadFlags(g.shared, g.history, id, g.reloads[id]);
        LinesAppend(g.history.flag, Lowered);
      }
  }

  lemma {:induction false} LinesRun(g: Gateway, actions: seq<Action>, parse: FloatParser)
    requires Started(g) && AllResetsWait(g, actions, parse)
    ensures LinesInv(Run(g, actions, parse))
  {
    if actions == [] {
      assert Where(g.requests, IsLogging) == {};
    } else {
      var front, last := actions[..|actions| - 1], actions[|actions| - 1];
      forall n | 0 <= n < |front| ensures WaitsForLines(Run(g, front[..n], parse), front[n]) {
        assert front[..n] == actions[..n];
      }
      LinesRun(g, front, parse);
      LinesInvStep(Run(g, front, parse), last, parse);
    }
  }

  /**
   When lines, too, have resets between them: in every run in which no flag reset happens
   while a line is pending, there is a reset between any two of the lines in the log.
   */
  lemma LinesApartWhenResetsWait(g: Gateway, actions: seq<Action>, parse: FloatParser)
    requires Started(g) && AllResetsWait(g, actions, parse)
    ensures var after := Run(g, actions, parse);
            LinesApart(after.history.flag) && ExpiryLines(after.shared.log) == Writes(after.history.flag)
  {
    LinesRun(g, actions, parse);
    FlagRun(g, actions, parse);
  }

  // ------------------------------------------------------------ which answers are logged

  /**
   Which expired answers are logged. In any run, a request that has found its store expired
   goes on to log it exactly when the flag has not been raised since the last reset. When
   its own generation has never raised the flag, only another generation's raise can keep it
   from being logged.
   */
  lemma ExpiredAnswerLogsExactly(g: Gateway, actions: seq<Action>, id: nat, now: i64, origin: Origin,
                                 parse: FloatParser)
    requires Started(g)
    requires var at := Run(g, actions, parse); id in at.requests && at.requests[id].task.pc.Expired?
    ensures var at, after := Run(g, actions, parse), Run(g, actions + [Proceed(id, now, origin)], parse);
            var own := at.requests[id].generation;
            && id in after.requests
            && (IsLogging(after.requests[id]) <==> !IsUp(at.history.flag))
            && (Raised(own) !in at.history.flag ==>
                  (IsLogging(after.requests[id]) <==> !UpByAnother(at.history.flag, own)))
  {
    FlagRun(g, actions, parse);
    RunOneMore(g, actions, Proceed(id, now, origin), parse);
    var at := Run(g, actions, parse);
    ExpiredStep(at, id, now, origin, parse);
    if Raised(at.requests[id].generation) !in at.history.flag {
      OwnOrAnother(at.history.flag, at.requests[id].generation);
    }
  }

  /** A request of another generation raised the flag, and no reset came since. */
  ghost predicate UpByAnother(flag: seq<FlagEvent>, own: nat) {
    exists i: nat :: UpBy(flag, i) && flag[i].generation != own
  }

  lemma OwnOrAnother(flag: seq<FlagEvent>, own: nat)
    requires Raised(own) !in flag
    ensures IsUp(flag) <==> UpByAnother(flag, own)
  {
    if i: nat :| UpBy(flag, i) {
      assert flag[i] in flag;
      assert flag[i].generation != own;
    }
  }

  lemma ExpiredStep(g: Gateway, id: nat, now: i64, origin: Origin, parse: FloatParser)
    requires id in g.requests && g.requests[id].task.pc.Expired?
    ensures var next := Step(g, Proceed(id, now, origin), parse);
            id in next.requests && (IsLogging(next.requests[id]) <==> !g.shared.expiryLogged)
  {}

  // ------------------------------------------------------------------ a lost line

  /**
   A request snapshots one store and finds it expired; a whole reload swaps in another store
   and resets the flag; the request goes on; then a second request finds the second store
   expired.
   */
  function LosingRun(first: nat, second: nat, reload: nat, request: Request, disk: Disk, loaded: i64,
                     t0: i64, t1: i64): seq<Action>
  {
    FindsExpired(first, request, t0)
      + (WholeReloadActions(reload, disk, loaded)
         + (Repeat(Proceed(first, t0, Failed), 3) + WholeRequestActions(second, request, t1, Failed)))
  }

  function FindsExpired(id: nat, request: Request, now: i64): seq<Action> {
    [Arrive(id, request)] + Repeat(Proceed(id, now, Failed), 2)
  }

  /** A request for the manifest that has found its store expired, and not yet tried the flag. */
  ghost predicate FoundExpired(g: Gateway, id: nat, now: i64) {
    id in g.requests && g.requests[id].task.pc == Expired(now)
  }

  lemma TwoSteps(g: Gateway, a: Action, parse: FloatParser)
    ensures Run(g, Repeat(a, 2), parse) == Step(Step(g, a, parse), a, parse)
  {
    var two := Repeat(a, 2);
    assert Repeat(a, 1) == [a] + Repeat(a, 0) && two == [a] + Repeat(a, 1);
    RunFromFront(g, a, Repeat(a, 1), parse);
    RunFromFront(Step(g, a, parse), a, [], parse);
    assert [a] + [] == Repeat(a, 1);
    assert Run(Step(Step(g, a, parse), a, parse), [], parse) == Step(Step(g, a, parse), a, parse);
  }

  lemma RoutesToManifest(s: Shared, t: RequestTask, now: i64, parse: FloatParser)
    requires t.pc.Fresh? && AsksForManifest(t.request) && s.store.Some? && IsExpired(s.store.value, now)
    ensures var (s1, t1) := Advance(s, t, now, Failed, parse);
            var (s2, t2) := Advance(s1, t1, now, Failed, parse);
            s2 == s && t2.pc == Expired(now)
  {}

  lemma ReachesExpired(g: Gateway, id: nat, request: Request, now: i64, parse: FloatParser)
    requires id !in g.requests && AsksForManifest(request)
    requires g.shared.store.Some? && IsExpired(g.shared.store.value, now)
    ensures var after := Run(g, FindsExpired(id, request, now), parse);
            && after.shared == g.shared.Bump(RequestsTotal) && FoundExpired(after, id, now)
            && OthersStay(g.requests, after.requests, id) && after.reloads == g.reloads
  {
    var a := Proceed(id, now, Failed);
    RunFromFront(g, Arrive(id, request), Repeat(a, 2), parse);
    ArriveStep(g, id, request, parse);
    var g1 := Step(g, Arrive(id, request), parse);
    TwoSteps(g1, a, parse);
    RequestStep(g1, id, now, Failed, parse);
    var g2 := Step(g1, a, parse);
    RequestStep(g2, id, now, Failed, parse);
    RoutesToManifest(g1.shared, g1.requests[id].task, now, parse);
    assert OthersStay(g.requests, g1.requests, id);
  }

  lemma StillNew(before: map<nat, Tracked>, after: map<nat, Tracked>, id: nat, other: nat)
    requires OthersStay(before, after, id) && other != id && other !in before
    ensures other !in after
  {
    assert other !in before - {id};
  }

  /** From where it found its store expired, a request raises a flag that is down, and writes its line. */
  lemma FinishesExpired(g: Gateway, id: nat, now: i64, parse: FloatParser)
    requires FoundExpired(g, id, now)
    ensures var after := Run(g, Repeat(Proceed(id, now, Failed), 3), parse);
            && after.shared == g.shared.LogExpiredOnce()
            && id in after.requests && after.requests[id].task.pc == Answered(EXPIRED)
            && after.requests.Keys == g.requests.Keys && after.reloads == g.reloads
  {
    ProceedToTheEnd(g, id, now, Failed, 3, parse);
    FromExpired(g.shared, g.requests[id].task, now, Failed, parse);
    KeysOfOthers(g.requests, Run(g, Repeat(Proceed(id, now, Failed), 3), parse).requests, id);
  }

  /** A whole request for the manifest of an expired store. */
  lemma WholeExpired(g: Gateway, id: nat, request: Request, now: i64, parse: FloatParser)
    requires id !in g.requests && AsksForManifest(request)
    requires g.shared.store.Some? && IsExpired(g.shared.store.value, now)
    ensures var after := Run(g, WholeRequestActions(id, request, now, Failed), parse);
            && after.shared == g.shared.Bump(RequestsTotal).LogExpiredOnce()
            && id in after.requests && after.requests[id].task.pc == Answered(EXPIRED)
            && OthersStay(g.requests, after.requests, id) && after.reloads == g.reloads
  {
    SequentialIsARun(g, id, request, now, Failed, parse);
    WholeRequest(g.shared.Bump(RequestsTotal), request, now, Failed, parse);
  }

  /** What the losing run needs: two stores, each expired at its reading, and fresh numbers for the calls. */
  ghost predicate CanLose(g: Gateway, first: nat, second: nat, reload: nat, request: Request, disk: Disk, loaded: i64,
                          t0: i64, t1: i64)
  {
    && first != second && first !in g.requests && second !in g.requests && reload !in g.reloads
    && AsksForManifest(request) && !g.shared.expiryLogged
    && g.shared.store.Some? && IsExpired(g.shared.store.value, t0)
    && Load(disk, loaded).Success? && Accepts(g.shared, Load(disk, loaded).value)
    && IsExpired(Load(disk, loaded).value, t1)
  }

  /**
   A lost line. Both requests are answered that their own store has expired, and a reload
   resets the flag in between; yet there is only one line. The second store's expiry is not
   logged: the late line of the first store has raised the flag again.
   */
  lemma LosingRunLogsOnce(g: Gateway, first: nat, second: nat, reload: nat, request: Request, disk: Disk, loaded: i64,
                          t0: i64, t1: i64, parse: FloatParser)
    requires CanLose(g, first, second, reload, request, disk, loaded, t0, t1)
    ensures var after := Run(g, LosingRun(first, second, reload, request, disk, loaded, t0, t1), parse);
            var store := Load(disk, loaded).value;
            && first in after.requests && after.requests[first].task.pc == Answered(EXPIRED)
            && second in after.requests && after.requests[second].task.pc == Answered(EXPIRED)
            && reload in after.reloads && after.reloads[reload].Reloaded?
            && after.shared.store == Some(store) && after.shared.expiryLogged
            && after.shared.log == g.shared.log
                 + [StoreReloadedLine(store.ViewCount(), store.ManifestSequence()), ManifestExpiredLine]
  {
    var a, b := FindsExpired(first, request, t0), WholeReloadActions(reload, disk, loaded);
    var rest := Repeat(Proceed(first, t0, Failed), 3) + WholeRequestActions(second, request, t1, Failed);
    RunConcat(g, a, b + rest, parse);
    ReachesExpired(g, first, request, t0, parse);
    var g1 := Run(g, a, parse);
    StillNew(g.requests, g1.requests, first, second);
    RunConcat(g1, b, rest, parse);
    WholeReloadRun(g1, reload, disk, loaded, parse);
    LateLine(Run(g1, b, parse), first, second, request, t0, t1, parse);
  }

  /** The late line, and the request that comes after it and logs nothing. */
  lemma LateLine(g: Gateway, first: nat, second: nat, request: Request, t0: i64, t1: i64, parse: FloatParser)
    requires FoundExpired(g, first, t0) && first != second && second !in g.requests
    requires AsksForManifest(request) && !g.shared.expiryLogged
    requires g.shared.store.Some? && IsExpired(g.shared.store.value, t1)
    ensures var after := Run(g, Repeat(Proceed(first, t0, Failed), 3) + WholeRequestActions(second, request, t1, Failed), parse);
            && first in after.requests && after.requests[first].task.pc == Answered(EXPIRED)
            && second in after.requests && after.requests[second].task.pc == Answered(EXPIRED)
            && after.reloads == g.reloads
            && after.shared.store == g.shared.store && after.shared.expiryLogged
            && after.shared.log == g.shared.log + [ManifestExpiredLine]
  {
    var c, d := Repeat(Proceed(first, t0, Failed), 3), WholeRequestActions(second, request, t1, Failed);
    RunConcat(g, c, d, parse);
    FinishesExpired(g, first, t0, parse);
    var g1 := Run(g, c, parse);
    WholeExpired(g1, second, request, t1, parse);
    OtherKept(g1.requests, Run(g1, d, parse).requests, second, first);
  }

  // ------------------------------------------------- lines with no reset in between

  /** A request that has raised the flag and is about to write its line. */
  ghost predicate AboutToLog(g: Gateway, id: nat, now: i64) {
    id in g.requests && g.requests[id].task.pc == LoggingExpiry(now)
  }

  function FindsAndRaises(id: nat, request: Request, now: i64): seq<Action> {
    FindsExpired(id, request, now) + [Proceed(id, now, Failed)]
  }

  lemma ReachesLogging(g: Gateway, id: nat, request: Request, now: i64, parse: FloatParser)
    requires id !in g.requests && AsksForManifest(request) && !g.shared.expiryLogged
    requires g.shared.store.Some? && IsExpired(g.shared.store.value, now)
    ensures var after := Run(g, FindsAndRaises(id, request, now), parse);
            && after.shared == g.shared.Bump(RequestsTotal).Raise() && AboutToLog(after, id, now)
            && OthersStay(g.requests, after.requests, id) && after.reloads == g.reloads
  {
    ReachesExpired(g, id, request, now, parse);
    RunOneMore(g, FindsExpired(id, request, now), Proceed(id, now, Failed), parse);
    RequestStep(Run(g, FindsExpired(id, request, now), parse), id, now, Failed, parse);
  }

  lemma WritesLine(g: Gateway, id: nat, now: i64, parse: FloatParser)
    requires AboutToLog(g, id, now)
    ensures var after := Step(g, Proceed(id, now, Failed), parse);
            && after.shared == g.shared.Log(ManifestExpiredLine)
            && OthersStay(g.requests, after.requests, id) && after.reloads == g.reloads
  {
    RequestStep(g, id, now, Failed, parse);
  }

  /** Both requests raise the flag, with a reload's reset in between, before either writes its line. */
  function LateLines(first: nat, second: nat, reload: nat, request: Request, disk: Disk, loaded: i64,
                     t0: i64, t1: i64): seq<Action>
  {
    FindsAndRaises(first, request, t0)
      + (WholeReloadActions(reload, disk, loaded)
         + (FindsAndRaises(second, request, t1) + [Proceed(first, t0, Failed), Proceed(second, t1, Failed)]))
  }

  /** So two lines may follow each other after the last reset: it is raises that have a reset in between, not lines. */
  lemma TwoLinesAfterReset(g: Gateway, first: nat, second: nat, reload: nat, request: Request, disk: Disk, loaded: i64,
                           t0: i64, t1: i64, parse: FloatParser)
    requires CanLose(g, first, second, reload, request, disk, loaded, t0, t1)
    ensures var after := Run(g, LateLines(first, second, reload, request, disk, loaded, t0, t1), parse);
            var store := Load(disk, loaded).value;
            && reload in after.reloads && after.reloads[reload].Reloaded?
            && after.shared.log == g.shared.log
                 + [StoreReloadedLine(store.ViewCount(), store.ManifestSequence()),
                    ManifestExpiredLine, ManifestExpiredLine]
  {
    var a, b := FindsAndRaises(first, request, t0), WholeReloadActions(reload, disk, loaded);
    var rest := FindsAndRaises(second, request, t1) + [Proceed(first, t0, Failed), Proceed(second, t1, Failed)];
    RunConcat(g, a, b + rest, parse);
    ReachesLogging(g, first, request, t0, parse);
    var g1 := Run(g, a, parse);
    StillNew(g.requests, g1.requests, first, second);
    RunConcat(g1, b, rest, parse);
    WholeReloadRun(g1, reload, disk, loaded, parse);
    BothWrite(Run(g1, b, parse), first, second, request, t0, t1, parse);
  }

  lemma BothWrite(g: Gateway, first: nat, second: nat, request: Request, t0: i64, t1: i64, parse: FloatParser)
    requires AboutToLog(g, first, t0) && first != second && second !in g.requests
    requires AsksForManifest(request) && !g.shared.expiryLogged
    requires g.shared.store.Some? && IsExpired(g.shared.store.value, t1)
    ensures var after := Run(g, FindsAndRaises(second, request, t1)
                                + [Proceed(first, t0, Failed), Proceed(second, t1, Failed)], parse);
            && after.reloads == g.reloads
            && after.shared.log == g.shared.log + [ManifestExpiredLine, ManifestExpiredLine]
  {
    var a, x, y := FindsAndRaises(second, request, t1), Proceed(first, t0, Failed), Proceed(second, t1, Failed);
    ReachesLogging(g, second, request, t1, parse);
    var g1 := Run(g, a, parse);
    OtherKept(g.requests, g1.requests, second, first);
    RunOneMore(g, a, x, parse);
    WritesLine(g1, first, t0, parse);
    var g2 := Run(g, a + [x], parse);
    OtherKept(g1.requests, g2.requests, first, second);
    RunOneMore(g, a + [x], y, parse);
    WritesLine(g2, second, t1, parse);
    assert a + [x] + [y] == a + [x, y];
  }

  // --------------------------------------------------------------- no order of calls

  /** Played in this order, every request is answered that its store has expired, and there is one more expiry line. */
  ghost predicate GivesOneLine(s: Shared, calls: seq<Call>, parse: FloatParser) {
    var (t, replies) := Play(s, calls, parse);
    && ExpiryLines(t.log) == ExpiryLines(s.log) + 1
    && forall k :: 0 <= k < |calls| && calls[k].RequestCall? ==> replies[k] == RequestReply(EXPIRED)
  }

  /**
   So the log, unlike the answers, is not that of any order of whole calls. The second
   request begins after everything else has ended. No sequence of the three calls that ends
   with it gives what the losing run gives, when the new store is still unexpired at the
   first request's reading: with that request first there are two lines, and with the reload
   first the request gets content.
   */
  lemma LogIsNotLinearizable(g: Gateway, first: nat, second: nat, reload: nat, request: Request, disk: Disk,
                             loaded: i64, t0: i64, t1: i64, calls: seq<Call>, parse: FloatParser)
    requires CanLose(g, first, second, reload, request, disk, loaded, t0, t1)
    requires !IsExpired(Load(disk, loaded).value, t0)
    requires var one, two := RequestCall(first, request, t0, Failed), RequestCall(second, request, t1, Failed);
             && multiset(calls) == multiset{one, ReloadCall(reload, disk, loaded), two}
             && calls != [] && calls[|calls| - 1] == two
    ensures !GivesOneLine(g.shared, calls, parse)
  {
    var one, two := RequestCall(first, request, t0, Failed), RequestCall(second, request, t1, Failed);
    var swap := ReloadCall(reload, disk, loaded);
    ThreeEndingWith(calls, one, swap, two);
    if calls == [one, swap, two] {
      RequestFirst(g.shared, one, swap, two, parse);
    } else {
      ReloadFirst(g.shared, one, swap, two, parse);
    }
  }

  lemma ThreeEndingWith(calls: seq<Call>, x: Call, y: Call, z: Call)
    requires multiset(calls) == multiset{x, y, z} && calls != [] && calls[|calls| - 1] == z
    ensures calls == [x, y, z] || calls == [y, x, z]
  {
    assert |calls| == |multiset(calls)| == 3;
    assert calls == [calls[0], calls[1], z];
    assert multiset{calls[0], calls[1], z} - multiset{z} == multiset{x, y, z} - multiset{z};
    assert multiset{calls[0], calls[1]} == multiset{x, y};
    assert calls[0] in multiset{x, y} && calls[1] in multiset{x, y};
    assert x in multiset{calls[0], calls[1]} && y in multiset{calls[0], calls[1]};
  }

  lemma RequestFirst(s: Shared, one: Call, swap: Call, two: Call, parse: FloatParser)
    requires one.RequestCall? && swap.ReloadCall? && two.RequestCall? && !s.expiryLogged
    requires AsksForManifest(one.request) && AsksForManifest(two.request)
    requires s.store.Some? && IsExpired(s.store.value, one.now)
    requires Load(swap.disk, swap.now).Success? && Accepts(s, Load(swap.disk, swap.now).value)
    requires IsExpired(Load(swap.disk, swap.now).value, two.now)
    ensures !GivesOneLine(s, [one, swap, two], parse)
  {
    var store := Load(swap.disk, swap.now).value;
    var s1 := s.Bump(RequestsTotal).LogExpiredOnce();
    ExpiredCall(s, one, parse);
    ReloadCallSwaps(s1, swap, parse);
    ExpiredCall(AfterReload(s1, store), two, parse);
    PlayThree(s, one, swap, two, parse);
    ThreeLines(s, store);
  }

  lemma ReloadFirst(s: Shared, one: Call, swap: Call, two: Call, parse: FloatParser)
    requires one.RequestCall? && swap.ReloadCall? && AsksForManifest(one.request)
    requires Load(swap.disk, swap.now).Success? && Accepts(s, Load(swap.disk, swap.now).value)
    requires !IsExpired(Load(swap.disk, swap.now).value, one.now)
    ensures !GivesOneLine(s, [swap, one, two], parse)
  {
    var s1 := AfterReload(s, Load(swap.disk, swap.now).value);
    ReloadCallSwaps(s, swap, parse);
    PlayThree(s, swap, one, two, parse);
    WholeRequest(s1.Bump(RequestsTotal), one.request, one.now, one.origin, parse);
    assert Play(s, [swap, one, two], parse).1[1] != RequestReply(EXPIRED);
  }

  lemma ExpiredCall(s: Shared, c: Call, parse: FloatParser)
    requires c.RequestCall? && AsksForManifest(c.request) && s.store.Some? && IsExpired(s.store.value, c.now)
    ensures Apply(s, c, parse) == (s.Bump(RequestsTotal).LogExpiredOnce(), RequestReply(EXPIRED))
  {
    WholeRequest(s.Bump(RequestsTotal), c.request, c.now, c.origin, parse);
  }

  lemma ReloadCallSwaps(s: Shared, c: Call, parse: FloatParser)
    requires c.ReloadCall? && Load(c.disk, c.now).Success? && Accepts(s, Load(c.disk, c.now).value)
    ensures Apply(s, c, parse).0 == AfterReload(s, Load(c.disk, c.now).value)
  {
    WholeReload(s, Load(c.disk, c.now).value, c.disk, c.now);
  }

  lemma PlayNext(s: Shared, calls: seq<Call>, replies: seq<Reply>, before: Shared, c: Call, after: Shared, reply: Reply,
                 parse: FloatParser)
    requires Play(s, calls, parse) == (before, replies) && Apply(before, c, parse) == (after, reply)
    ensures Play(s, calls + [c], parse) == (after, replies + [reply])
  {
    PlayOneMore(s, calls, c, parse);
  }

  lemma PlayThree(s: Shared, x: Call, y: Call, z: Call, parse: FloatParser)
    ensures var (s1, r1) := Apply(s, x, parse);
            var (s2, r2) := Apply(s1, y, parse);
            var (s3, r3) := Apply(s2, z, parse);
            Play(s, [x, y, z], parse) == (s3, [r1, r2, r3])
  {
    var (s1, r1) := Apply(s, x, parse);
    var (s2, r2) := Apply(s1, y, parse);
    var (s3, r3) := Apply(s2, z, parse);
    var none: seq<Reply> := [];
    PlayNext(s, [], none, s, x, s1, r1, parse);
    assert [] + [x] == [x] && none + [r1] == [r1];
    PlayNext(s, [x], [r1], s1, y, s2, r2, parse);
    assert [x] + [y] == [x, y] && [r1] + [r2] == [r1, r2];
    PlayNext(s, [x, y], [r1, r2], s2, z, s3, r3, parse);
    assert [x, y] + [z] == [x, y, z] && [r1, r2] + [r3] == [r1, r2, r3];
  }

  lemma ThreeLines(s: Shared, store: PreparedContentStore)
    requires !s.expiryLogged
    ensures ExpiryLines(AfterReload(s.Bump(RequestsTotal).LogExpiredOnce(), store)
                          .Bump(RequestsTotal).LogExpiredOnce().log) == ExpiryLines(s.log) + 2
  {
    var line := StoreReloadedLine(store.ViewCount(), store.ManifestSequence());
    ExpiryLinesAppend(s.log, ManifestExpiredLine);
    ExpiryLinesAppend(s.log + [ManifestExpiredLine], line);
    ExpiryLinesAppend(s.log + [ManifestExpiredLine] + [line], ManifestExpiredLine);
  }
}
