/** The asynchronous delete pipeline as a state machine: any number of callers, five workers and
    Shutdown, called once or again after it returned. Each mutex section, each channel operation and each
    repository call is one step. The event carries every choice the scheduler, the tickers, the contexts
    and the repository make. */
module DeletePipeline {
  import opened Model
  import opened DeleteQueue

  const WORKERS := 5
  const CAPACITY := 10

  datatype Refusal = ShuttingDown | ContextDone | NoUserID

  /** A caller of DeleteUserURLs; `Selecting` is one that has passed the flag check and not returned. */
  datatype Caller =
    | Entering(user: Option<string>, shorts: seq<string>)
    | Selecting(req: Request)
    | Accepted
    | Refused(why: Refusal)

  /** A flush in progress: users not handled yet, and a failed request about to be put back. */
  datatype Flush = Flush(rest: Items, failed: Option<Request>)

  datatype Worker =
    | Idle
    | Queuing(req: Request, draining: bool)
    | Flushing(flush: Flush)
    | Draining
    | Exited

  datatype Shutdown =
    | NotCalled
    | FlagSet
    | Waiting
    | Checking
    | Emptying(flush: Flush)
    | Counting
    | Sleeping
    | Returned(ok: bool)

  /** `accepted`, `taken`, `early` and `served` are history: the requests sent, how many of them were
      received, how many were sent before the stop channel was closed, and the successful calls. */
  datatype State = State(
    callers: seq<Caller>,
    channel: seq<Request>,
    queue: Items,
    workers: seq<Worker>,
    shutdown: Shutdown,
    accepted: seq<Request>,
    taken: nat,
    early: nat,
    served: seq<Request>)

  predicate FlagIsSet(s: State) {
    !s.shutdown.NotCalled?
  }

  predicate Stopped(s: State) {
    !s.shutdown.NotCalled? && !s.shutdown.FlagSet?
  }

  datatype Flusher = ByWorker(w: nat) | ByShutdown

  datatype Event =
    | Enter(c: nat, done: bool)
    | Send(c: nat)
    | Withdraw(c: nat, stop: bool)
    | Receive(w: nat)
    | Put(w: nat)
    | Pop(who: Flusher)
    | Call(who: Flusher, user: string, ok: bool)
    | PutBack(who: Flusher)
    | FlushEnds(who: Flusher)
    | SeeStop(w: nat)
    | Exit(w: nat)
    | SetFlag
    | CloseStop
    | WorkersDone
    | GiveUp
    | Count
    | Wake
    | Again

  // ---- The two places that flush ----

  predicate HasFlush(s: State, who: Flusher) {
    match who
    case ByWorker(w) => w < |s.workers| && s.workers[w].Flushing?
    case ByShutdown => s.shutdown.Emptying?
  }

  function FlushOf(s: State, who: Flusher): Flush
    requires HasFlush(s, who)
  {
    match who
    case ByWorker(w) => s.workers[w].flush
    case ByShutdown => s.shutdown.flush
  }

  predicate MayPop(s: State, who: Flusher) {
    match who
    case ByWorker(w) => w < |s.workers| && s.workers[w].Idle?
    case ByShutdown => s.shutdown.Checking?
  }

  function WithFlush(s: State, who: Flusher, f: Flush): State
    requires HasFlush(s, who) || MayPop(s, who)
  {
    match who
    case ByWorker(w) => s.(workers := s.workers[w := Flushing(f)])
    case ByShutdown => s.(shutdown := Emptying(f))
  }

  // ---- Steps ----

  predicate Enabled(s: State, e: Event) {
    match e
    case Enter(c, _) => c < |s.callers| && s.callers[c].Entering?
    case Send(c) => c < |s.callers| && s.callers[c].Selecting? && |s.channel| < CAPACITY
    case Withdraw(c, stop) => c < |s.callers| && s.callers[c].Selecting? && (stop ==> Stopped(s))
    case Receive(w) => w < |s.workers| && (s.workers[w].Idle? || s.workers[w].Draining?) && s.channel != []
    case Put(w) => w < |s.workers| && s.workers[w].Queuing?
    case Pop(who) => MayPop(s, who)
    case Call(who, user, _) => HasFlush(s, who) && FlushOf(s, who).failed.None? && user in FlushOf(s, who).rest
    case PutBack(who) => HasFlush(s, who) && FlushOf(s, who).failed.Some?
    case FlushEnds(who) => HasFlush(s, who) && FlushOf(s, who) == Flush(map[], None)
    case SeeStop(w) => w < |s.workers| && s.workers[w].Idle? && Stopped(s)
    case Exit(w) => w < |s.workers| && s.workers[w].Draining? && s.channel == []
    case SetFlag => s.shutdown.NotCalled?
    case CloseStop => s.shutdown.FlagSet?
    case WorkersDone => s.shutdown.Waiting? && forall w :: 0 <= w < |s.workers| ==> s.workers[w].Exited?
    case GiveUp => s.shutdown.Waiting? || s.shutdown.Checking? || s.shutdown.Sleeping?
    case Count => s.shutdown.Counting?
    case Wake => s.shutdown.Sleeping?
    case Again => s.shutdown.Returned?
  }

  function Entered(s: State, caller: Caller, done: bool): Caller
    requires caller.Entering?
  {
    if FlagIsSet(s) then Refused(ShuttingDown)
    else if done then Refused(ContextDone)
    else if caller.user.None? then Refused(NoUserID)
    else Selecting(Request(caller.user.value, caller.shorts))
  }

  function Step(s: State, e: Event): State
    requires Enabled(s, e)
  {
    match e
    case Enter(c, done) => s.(callers := s.callers[c := Entered(s, s.callers[c], done)])
    case Send(c) =>
      var req := s.callers[c].req;
      s.(callers := s.callers[c := Accepted],
         channel := s.channel + [req],
         accepted := s.accepted + [req],
         early := if Stopped(s) then s.early else s.early + 1)
    case Withdraw(c, stop) => s.(callers := s.callers[c := Refused(if stop then ShuttingDown else ContextDone)])
    case Receive(w) =>
      s.(workers := s.workers[w := Queuing(s.channel[0], s.workers[w].Draining?)],
         channel := s.channel[1..],
         taken := s.taken + 1)
    case Put(w) =>
      s.(queue := Enqueue(s.queue, s.workers[w].req),
         workers := s.workers[w := if s.workers[w].draining then Draining else Idle])
    case Pop(who) => WithFlush(s, who, Flush(s.queue, None)).(queue := map[])
    case Call(who, user, ok) =>
      var f := FlushOf(s, who);
      var req := Request(user, f.rest[user]);
      var rest := f.rest - {user};
      if ok then WithFlush(s, who, Flush(rest, None)).(served := s.served + [req])
      else WithFlush(s, who, Flush(rest, Some(req)))
    case PutBack(who) =>
      var f := FlushOf(s, who);
      WithFlush(s, who, Flush(f.rest, None)).(queue := Enqueue(s.queue, f.failed.value))
    case FlushEnds(who) =>
      (match who
       case ByWorker(w) => s.(workers := s.workers[w := Idle])
       case ByShutdown => s.(shutdown := Counting))
    case SeeStop(w) => s.(workers := s.workers[w := Draining])
    case Exit(w) => s.(workers := s.workers[w := Exited])
    case SetFlag => s.(shutdown := FlagSet)
    case CloseStop => s.(shutdown := Waiting)
    case WorkersDone => s.(shutdown := Checking)
    case GiveUp => s.(shutdown := Returned(false))
    case Count => s.(shutdown := if Total(s.queue) == 0 then Returned(true) else Sleeping)
    case Wake => s.(shutdown := Checking)
    case Again => s.(shutdown := Waiting)
  }

  ghost predicate Init(s: State) {
    && (forall c :: 0 <= c < |s.callers| ==> s.callers[c].Entering?)
    && s.workers == seq(WORKERS, i => Idle)
    && s == State(s.callers, [], map[], s.workers, NotCalled, [], 0, 0, [])
  }

  /** `after` is reached from `s` by these events, in this order. */
  predicate Runs(s: State, events: seq<Event>, after: State)
    decreases |events|
  {
    if events == [] then s == after
    else Enabled(s, events[0]) && Runs(Step(s, events[0]), events[1..], after)
  }

  ghost predicate Reachable(s: State) {
    exists start, events :: Init(start) && Runs(start, events, s)
  }

  // ---- Where accepted work can be ----

  function InFlush(f: Flush, p: Pair): nat {
    InItems(f.rest, p) + if f.failed.Some? then InRequest(f.failed.value, p) else 0
  }

  function Held(worker: Worker, p: Pair): nat {
    match worker
    case Queuing(req, _) => InRequest(req, p)
    case Flushing(f) => InFlush(f, p)
    case _ => 0
  }

  function HeldByWorkers(workers: seq<Worker>, p: Pair): nat {
    if workers == [] then 0
    else HeldByWorkers(workers[..|workers| - 1], p) + Held(workers[|workers| - 1], p)
  }

  function HeldByShutdown(shutdown: Shutdown, p: Pair): nat {
    if shutdown.Emptying? then InFlush(shutdown.flush, p) else 0
  }

  /** Work accepted but not yet part of a successful call. */
  function InFlight(s: State, p: Pair): nat {
    InRequests(s.channel, p) + HeldByWorkers(s.workers, p) + InItems(s.queue, p) + HeldByShutdown(s.shutdown, p)
  }

  ghost predicate Conserved(s: State) {
    forall p :: InRequests(s.accepted, p) == InFlight(s, p) + InRequests(s.served, p)
  }

  lemma {:induction false} ReplaceWorker(workers: seq<Worker>, w: nat, x: Worker, p: Pair)
    requires w < |workers|
    ensures HeldByWorkers(workers[w := x], p) + Held(workers[w], p) == HeldByWorkers(workers, p) + Held(x, p)
  {
    var n := |workers| - 1;
    if w < n {
      ReplaceWorker(workers[..n], w, x, p);
      assert workers[w := x][..n] == workers[..n][w := x];
    } else {
      assert workers[w := x][..n] == workers[..n];
    }
  }

  lemma WithFlushCounts(s: State, who: Flusher, f: Flush, p: Pair)
    requires HasFlush(s, who) || MayPop(s, who)
    ensures InFlight(WithFlush(s, who, f), p) + (if HasFlush(s, who) then InFlush(FlushOf(s, who), p) else 0)
      == InFlight(s, p) + InFlush(f, p)
  {
    match who {
      case ByWorker(w) => ReplaceWorker(s.workers, w, Flushing(f), p);
      case ByShutdown =>
    }
  }

  ghost predicate Balanced(s: State, t: State, p: Pair) {
    InFlight(t, p) + InRequests(t.served, p) + InRequests(s.accepted, p)
    == InFlight(s, p) + InRequests(s.served, p) + InRequests(t.accepted, p)
  }

  lemma ReceiveCounts(s: State, w: nat, p: Pair)
    requires Enabled(s, Receive(w))
    ensures Balanced(s, Step(s, Receive(w)), p)
  {
    ReplaceWorker(s.workers, w, Step(s, Receive(w)).workers[w], p);
    InRequestsConcat([s.channel[0]], s.channel[1..], p);
    assert [s.channel[0]] + s.channel[1..] == s.channel;
    InRequestsAppend([], s.channel[0], p);
    assert [] + [s.channel[0]] == [s.channel[0]];
  }

  lemma CallCounts(s: State, who: Flusher, user: string, ok: bool, p: Pair)
    requires Enabled(s, Call(who, user, ok))
    ensures Balanced(s, Step(s, Call(who, user, ok)), p)
  {
    var f := FlushOf(s, who);
    var req := Request(user, f.rest[user]);
    TakeOutCounts(f.rest, user, p);
    InRequestsAppend(s.served, req, p);
    WithFlushCounts(s, who, Flush(f.rest - {user}, if ok then None else Some(req)), p);
  }

  lemma WorkerCounts(s: State, w: nat, e: Event, p: Pair)
    requires e == Put(w) || e == SeeStop(w) || e == Exit(w) || e == FlushEnds(ByWorker(w))
    requires Enabled(s, e)
    ensures Balanced(s, Step(s, e), p)
  {
    ReplaceWorker(s.workers, w, Step(s, e).workers[w], p);
  }

  lemma FlushCounts(s: State, who: Flusher, e: Event, p: Pair)
    requires e == Pop(who) || e == PutBack(who)
    requires Enabled(s, e)
    ensures Balanced(s, Step(s, e), p)
  {
    if e.Pop? {
      WithFlushCounts(s, who, Flush(s.queue, None), p);
    } else {
      WithFlushCounts(s, who, Flush(FlushOf(s, who).rest, None), p);
    }
  }

  /** Sending adds a request to the work in flight, a successful call removes its own, and nothing
      else changes the amount: a failing call loses and duplicates nothing. */
  lemma StepCounts(s: State, e: Event, p: Pair)
    requires Enabled(s, e)
    ensures Balanced(s, Step(s, e), p)
  {
    match e {
      case Send(c) =>
        InRequestsAppend(s.channel, s.callers[c].req, p);
        InRequestsAppend(s.accepted, s.callers[c].req, p);
      case Receive(w) => ReceiveCounts(s, w, p);
      case Pop(who) => FlushCounts(s, who, e, p);
      case Call(who, user, ok) => CallCounts(s, who, user, ok, p);
      case PutBack(who) => FlushCounts(s, who, e, p);
      case Put(w) => WorkerCounts(s, w, e, p);
      case FlushEnds(ByWorker(w)) => WorkerCounts(s, w, e, p);
      case SeeStop(w) => WorkerCounts(s, w, e, p);
      case Exit(w) => WorkerCounts(s, w, e, p);
      case _ =>
    }
  }

  // ---- The invariant ----

  predicate WorkersAwaited(shutdown: Shutdown) {
    shutdown.Checking? || shutdown.Emptying? || shutdown.Counting? || shutdown.Sleeping? || shutdown == Returned(true)
  }

  /** The channel is first in, first out: it holds exactly the requests accepted but not received. */
  predicate ChannelInOrder(s: State) {
    && |s.channel| <= CAPACITY
    && s.taken <= |s.accepted|
    && s.channel == s.accepted[s.taken..]
    && s.early <= |s.accepted|
    && (!Stopped(s) ==> s.early == |s.accepted|)
  }

  /** A worker leaves only after it saw the channel empty, and Shutdown waits for all of them. */
  predicate WorkersInOrder(s: State) {
    && |s.workers| == WORKERS
    && (forall w :: 0 <= w < |s.workers| && s.workers[w].Draining? ==> Stopped(s))
    && (forall w :: 0 <= w < |s.workers| && s.workers[w].Queuing? && s.workers[w].draining ==> Stopped(s))
    && (forall w :: 0 <= w < |s.workers| && s.workers[w].Exited? ==> Stopped(s) && s.early <= s.taken)
    && (WorkersAwaited(s.shutdown) ==> forall w :: 0 <= w < |s.workers| ==> s.workers[w].Exited?)
    && (s.shutdown == Returned(true) ==> Total(s.queue) == 0)
  }

  ghost predicate Inv(s: State) {
    Conserved(s) && ChannelInOrder(s) && WorkersInOrder(s)
  }

  lemma StepConserves(s: State, e: Event)
    requires Conserved(s) && Enabled(s, e)
    ensures Conserved(Step(s, e))
  {
    forall p ensures InRequests(Step(s, e).accepted, p) == InFlight(Step(s, e), p) + InRequests(Step(s, e).served, p) {
      StepCounts(s, e, p);
    }
  }

  lemma ChannelUntouched(s: State, e: Event)
    requires !e.Send? && !e.Receive? && Enabled(s, e)
    ensures var t := Step(s, e);
      && t.channel == s.channel && t.accepted == s.accepted && t.taken == s.taken && t.early == s.early
      && (Stopped(s) ==> Stopped(t))
  {
  }

  lemma StepKeepsChannel(s: State, e: Event)
    requires ChannelInOrder(s) && Enabled(s, e)
    ensures ChannelInOrder(Step(s, e))
  {
    if !e.Send? && !e.Receive? {
      ChannelUntouched(s, e);
    }
  }

  lemma CallerKeepsWorkers(s: State, e: Event)
    requires e.Enter? || e.Send? || e.Withdraw?
    requires ChannelInOrder(s) && WorkersInOrder(s) && Enabled(s, e)
    ensures WorkersInOrder(Step(s, e))
  {
    var t := Step(s, e);
    assert t.workers == s.workers && t.shutdown == s.shutdown && t.queue == s.queue && t.taken == s.taken;
  }

  lemma WorkerKeepsWorkers(s: State, e: Event)
    requires e.Receive? || e.Put? || e.SeeStop? || e.Exit?
    requires ChannelInOrder(s) && WorkersInOrder(s) && Enabled(s, e)
    ensures WorkersInOrder(Step(s, e))
  {
    assert !WorkersAwaited(s.shutdown);
    assert Step(s, e).workers == s.workers[e.w := Step(s, e).workers[e.w]];
  }

  lemma FlushKeepsWorkers(s: State, e: Event)
    requires e.Pop? || e.Call? || e.PutBack? || e.FlushEnds?
    requires ChannelInOrder(s) && WorkersInOrder(s) && Enabled(s, e)
    ensures WorkersInOrder(Step(s, e))
  {
    var t := Step(s, e);
    if e.who.ByWorker? {
      assert !WorkersAwaited(s.shutdown);
      assert t.workers == s.workers[e.who.w := t.workers[e.who.w]];
    } else {
      assert t.workers == s.workers;
    }
  }

  lemma ShutdownKeepsWorkers(s: State, e: Event)
    requires e.SetFlag? || e.CloseStop? || e.WorkersDone? || e.GiveUp? || e.Count? || e.Wake? || e.Again?
    requires ChannelInOrder(s) && WorkersInOrder(s) && Enabled(s, e)
    ensures WorkersInOrder(Step(s, e))
  {
    assert Step(s, e) == s.(shutdown := Step(s, e).shutdown);
  }

  lemma StepKeepsWorkers(s: State, e: Event)
    requires ChannelInOrder(s) && WorkersInOrder(s) && Enabled(s, e)
    ensures WorkersInOrder(Step(s, e))
  {
    if e.Enter? || e.Send? || e.Withdraw? {
      CallerKeepsWorkers(s, e);
    } else if e.Receive? || e.Put? || e.SeeStop? || e.Exit? {
      WorkerKeepsWorkers(s, e);
    } else if e.Pop? || e.Call? || e.PutBack? || e.FlushEnds? {
      FlushKeepsWorkers(s, e);
    } else {
      ShutdownKeepsWorkers(s, e);
    }
  }

  lemma InitInv(s: State)
    requires Init(s)
    ensures Inv(s)
  {
    forall p ensures HeldByWorkers(s.workers, p) == 0 {
      AllIdle(s.workers, p);
    }
  }

  lemma {:induction false} AllIdle(workers: seq<Worker>, p: Pair)
    requires forall w :: 0 <= w < |workers| ==> workers[w].Idle? || workers[w].Exited?
    ensures HeldByWorkers(workers, p) == 0
  {
    if workers != [] {
      AllIdle(workers[..|workers| - 1], p);
    }
  }

  lemma {:induction false} RunsInv(s: State, events: seq<Event>, after: State)
    requires Inv(s) && Runs(s, events, after)
    ensures Inv(after)
    decreases |events|
  {
    if events != [] {
      StepConserves(s, events[0]);
      StepKeepsChannel(s, events[0]);
      StepKeepsWorkers(s, events[0]);
      RunsInv(Step(s, events[0]), events[1..], after);
    }
  }

  // ---- Main results ----

  lemma ReachableInv(s: State)
    requires Reachable(s)
    ensures Inv(s)
  {
    var start, events :| Init(start) && Runs(start, events, s);
    InitInv(start);
    RunsInv(start, events, s);
  }

  /** Conservation: in every reachable state the accepted pairs are exactly those still in flight
      plus those in successful calls, each counted as often as it was accepted. */
  lemma AcceptedWorkIsConserved(s: State, p: Pair)
    requires Reachable(s)
    ensures InRequests(s.accepted, p) ==
      InRequests(s.channel, p) + HeldByWorkers(s.workers, p) + InItems(s.queue, p) + HeldByShutdown(s.shutdown, p)
      + InRequests(s.served, p)
  {
    ReachableInv(s);
  }

  /** After a Shutdown that returned nil, only the channel can hold work, and only work that was
      sent after the stop channel was closed. */
  lemma ShutdownSettles(s: State, p: Pair)
    requires Reachable(s) && s.shutdown == Returned(true)
    ensures s.early <= s.taken <= |s.accepted| && s.channel == s.accepted[s.taken..]
    ensures InRequests(s.served, p) == InRequests(s.accepted[..s.taken], p)
    ensures InRequests(s.accepted[..s.early], p) <= InRequests(s.served, p)
  {
    ReachableInv(s);
    assert s.workers[0].Exited?;
    AllIdle(s.workers, p);
    TotalZero(s.queue);
    SplitCount(s.accepted, s.taken, p);
    SplitCount(s.accepted[..s.taken], s.early, p);
    assert s.accepted[..s.taken][..s.early] == s.accepted[..s.early];
  }

  lemma SplitCount(reqs: seq<Request>, n: nat, p: Pair)
    requires n <= |reqs|
    ensures InRequests(reqs, p) == InRequests(reqs[..n], p) + InRequests(reqs[n..], p)
  {
    InRequestsConcat(reqs[..n], reqs[n..], p);
    assert reqs[..n] + reqs[n..] == reqs;
  }

  /** Completeness: every short of every request sent before the stop channel was closed is part of
      a successful call for its user. */
  lemma ShutdownCompletes(s: State, i: nat, short: string)
    requires Reachable(s) && s.shutdown == Returned(true)
    requires i < s.early && s.early <= |s.accepted| && short in s.accepted[i].shorts
    ensures exists k :: 0 <= k < |s.served| && s.served[k].user == s.accepted[i].user && short in s.served[k].shorts
  {
    var p := Pair(s.accepted[i].user, short);
    ShutdownSettles(s, p);
    assert s.accepted[..s.early][i] == s.accepted[i];
    InRequestsMeans(s.accepted[..s.early], p);
    InRequestsMeans(s.served, p);
  }

  /** A caller that has not entered when the flag is set is never accepted. */
  lemma {:induction false} LateCallersAreRefused(s: State, events: seq<Event>, after: State, c: nat)
    requires Runs(s, events, after) && FlagIsSet(s)
    requires c < |s.callers| && (s.callers[c].Entering? || s.callers[c] == Refused(ShuttingDown))
    ensures c < |after.callers| && (after.callers[c] == s.callers[c] || after.callers[c] == Refused(ShuttingDown))
    decreases |events|
  {
    if events != [] {
      LateCallersAreRefused(Step(s, events[0]), events[1..], after, c);
    }
  }
}
