/** What the delete pipeline can always do: answer its callers, serve everything while it runs, and finish
    a Shutdown. These are statements about some continuation, not about fairness. */
module DeleteProgress {
  import opened Model
  import opened DeleteQueue
  import opened DeletePipeline
  import opened DeleteShutdown

  // ---- What callers are told ----

  /** What the answer so far says about a call, given how the call began. */
  ghost predicate Answers(began: Caller, now: Caller, s: State) {
    began.Entering? &&
    match now
    case Entering(_, _) => now == began
    case Selecting(req) => began == Entering(Some(req.user), req.shorts)
    case Accepted => began.user.Some? && Request(began.user.value, began.shorts) in s.accepted
    case Refused(why) => (why.ShuttingDown? ==> FlagIsSet(s)) && (why.NoUserID? ==> began.user == None)
  }

  lemma StepAnswers(s: State, e: Event, began: Caller, c: nat)
    requires Enabled(s, e) && c < |s.callers| && Answers(began, s.callers[c], s)
    ensures var t := Step(s, e);
      |t.callers| == |s.callers| && Answers(began, t.callers[c], t)
  {
    var t := Step(s, e);
    assert forall req :: req in s.accepted ==> req in t.accepted;
    assert FlagIsSet(s) ==> FlagIsSet(t);
  }

  /** Every call is answered as its own arguments and the state say: accepted with exactly its user and
      shorts, refused for shutting down only once the flag is set, refused for a missing user only
      without one. */
  lemma {:induction false} CallersAreAnswered(s: State, events: seq<Event>, after: State, began: Caller, c: nat)
    requires Runs(s, events, after) && c < |s.callers| && Answers(began, s.callers[c], s)
    ensures |after.callers| == |s.callers| && Answers(began, after.callers[c], after)
    decreases |events|
  {
    if events != [] {
      StepAnswers(s, events[0], began, c);
      CallersAreAnswered(Step(s, events[0]), events[1..], after, began, c);
    }
  }

  function AcceptedCalls(callers: seq<Caller>): nat {
    if callers == [] then 0
    else AcceptedCalls(callers[..|callers| - 1]) + if callers[|callers| - 1].Accepted? then 1 else 0
  }

  lemma {:induction false} AnotherAccepted(callers: seq<Caller>, c: nat, now: Caller)
    requires c < |callers| && !callers[c].Accepted?
    ensures AcceptedCalls(callers[c := now]) == AcceptedCalls(callers) + if now.Accepted? then 1 else 0
  {
    var n := |callers| - 1;
    if c < n {
      AnotherAccepted(callers[..n], c, now);
      assert callers[c := now][..n] == callers[..n][c := now];
    } else {
      assert callers[c := now][..n] == callers[..n];
    }
  }

  lemma StepAccepts(s: State, e: Event)
    requires Enabled(s, e) && |s.accepted| == AcceptedCalls(s.callers)
    ensures |Step(s, e).accepted| == AcceptedCalls(Step(s, e).callers)
  {
    match e {
      case Enter(c, done) => AnotherAccepted(s.callers, c, Entered(s, s.callers[c], done));
      case Send(c) => AnotherAccepted(s.callers, c, Accepted);
      case Withdraw(c, stop) => AnotherAccepted(s.callers, c, Refused(if stop then ShuttingDown else ContextDone));
      case _ => assert Step(s, e).callers == s.callers && Step(s, e).accepted == s.accepted;
    }
  }

  /** There are as many accepted requests as calls that were told so. */
  lemma {:induction false} AcceptedAreCounted(s: State, events: seq<Event>, after: State)
    requires Runs(s, events, after) && |s.accepted| == AcceptedCalls(s.callers)
    ensures |after.accepted| == AcceptedCalls(after.callers)
    decreases |events|
  {
    if events != [] {
      StepAccepts(s, events[0]);
      AcceptedAreCounted(Step(s, events[0]), events[1..], after);
    }
  }

  /** A context that is done already is the reason given, with or without a user. */
  lemma DoneContextComesFirst(s: State, c: nat)
    requires c < |s.callers| && s.callers[c].Entering? && s.shutdown.NotCalled?
    ensures Enabled(s, Enter(c, true)) && Step(s, Enter(c, true)).callers[c] == Refused(ContextDone)
  {
  }

  /** No call needs to wait for ever: it is accepted while the channel has room, its context can end it,
      and so can the closed stop channel. */
  lemma NoCallIsStuck(s: State, c: nat)
    requires c < |s.callers| && s.callers[c].Selecting?
    ensures |s.channel| < 10 ==>
      exists t :: Leads(s, t) && t.callers == s.callers[c := Accepted] && t.channel == s.channel + [s.callers[c].req]
    ensures exists t :: Leads(s, t) && t.callers == s.callers[c := Refused(ContextDone)] && t.accepted == s.accepted
    ensures s.shutdown.Waiting? || s.shutdown.Returned? ==>
      exists t :: Leads(s, t) && t.callers == s.callers[c := Refused(ShuttingDown)] && t.accepted == s.accepted
  {
    assert Runs(s, [], s);
    if |s.channel| < 10 {
      var t := Onward(s, s, Send(c));
    }
    var t := Onward(s, s, Withdraw(c, false));
    if s.shutdown.Waiting? || s.shutdown.Returned? {
      var u := Onward(s, s, Withdraw(c, true));
    }
  }

  // ---- Sizes ----

  lemma TenRequestsFiveWorkers(s: State)
    requires Reachable(s)
    ensures |s.channel| <= 10 && |s.workers| == 5
  {
    ReachableInv(s);
  }

  /** The channel takes ten requests that nobody receives. */
  lemma {:induction false} ChannelFills(user: string, n: nat) returns (s: State)
    requires n <= 10
    ensures Reachable(s) && s.shutdown.NotCalled? && |s.channel| == n
    ensures s.callers == seq(10, i => if i < n then Accepted else Entering(Some(user), []))
    decreases n
  {
    if n == 0 {
      var callers := seq(10, i => Entering(Some(user), []));
      s := State(callers, [], map[], seq(WORKERS, i => Idle), NotCalled, [], 0, 0, []);
      assert Runs(s, [], s);
      assert callers == seq(10, i => if i < n then Accepted else Entering(Some(user), []));
    } else {
      s := ChannelFills(user, n - 1);
      s := Advance(s, Enter(n - 1, false));
      s := Advance(s, Send(n - 1));
      assert s.callers == seq(10, i => if i < n then Accepted else Entering(Some(user), []));
    }
  }

  // ---- Serving while the service runs ----

  /** A worker that is not idle, finishing what it has. */
  ghost function Finishing(s: State, w: nat): (e: Event)
    requires w < |s.workers| && (s.workers[w].Queuing? || s.workers[w].Flushing?)
  {
    match s.workers[w]
    case Queuing(_, _) => Put(w)
    case Flushing(f) =>
      if f.failed.Some? then PutBack(ByWorker(w))
      else if f.rest == map[] then FlushEnds(ByWorker(w))
      else var user :| user in f.rest; Call(ByWorker(w), user, true)
  }

  /** Nothing but the worker, the queue and the record of calls has changed. */
  ghost predicate OnlyWorker(s: State, t: State, w: nat) {
    w < |s.workers| == |t.workers| &&
    t == s.(workers := s.workers[w := t.workers[w]], queue := t.queue, served := t.served)
  }

  lemma FinishingStep(s: State, w: nat)
    requires w < |s.workers|
    requires s.workers[w].Flushing? || (s.workers[w].Queuing? && !s.workers[w].draining)
    ensures Enabled(s, Finishing(s, w))
    ensures var t := Step(s, Finishing(s, w));
      && OnlyWorker(s, t, w) && (t.workers[w].Flushing? || t.workers[w].Idle?)
      && Steps(t.workers[w]) < Steps(s.workers[w])
  {
    var e := Finishing(s, w);
    if e.Call? {
      SmallerRest(s.workers[w].flush.rest, e.user);
    }
  }

  lemma {:induction false} BecomeIdle(from: State, s: State, w: nat) returns (t: State)
    requires Leads(from, s) && w < |s.workers|
    requires s.workers[w].Idle? || s.workers[w].Flushing? || (s.workers[w].Queuing? && !s.workers[w].draining)
    ensures Leads(from, t) && OnlyWorker(s, t, w) && t.workers[w].Idle?
    decreases Steps(s.workers[w])
  {
    if s.workers[w].Idle? {
      t := s;
      assert s.workers[w := s.workers[w]] == s.workers;
    } else {
      FinishingStep(s, w);
      t := Onward(from, s, Finishing(s, w));
      t := BecomeIdle(from, t, w);
    }
  }

  /** No worker has been told to stop. */
  ghost predicate AllWorking(s: State) {
    forall w :: 0 <= w < |s.workers| ==>
      s.workers[w].Idle? || s.workers[w].Flushing? || (s.workers[w].Queuing? && !s.workers[w].draining)
  }

  lemma {:induction false} AllBecomeIdle(from: State, s: State, n: nat) returns (t: State)
    requires Leads(from, s) && n <= |s.workers| && AllWorking(s)
    requires forall w :: 0 <= w < n ==> s.workers[w].Idle?
    ensures Leads(from, t) && |t.workers| == |s.workers| && forall w :: 0 <= w < |t.workers| ==> t.workers[w].Idle?
    ensures t == s.(workers := t.workers, queue := t.queue, served := t.served)
    decreases |s.workers| - n
  {
    t := s;
    if n < |s.workers| {
      t := BecomeIdle(from, s, n);
      t := AllBecomeIdle(from, t, n + 1);
    }
  }

  /** An idle worker takes everything out of the channel. */
  lemma {:induction false} EmptyChannel(from: State, s: State, w: nat) returns (t: State)
    requires Leads(from, s) && w < |s.workers| && s.workers[w].Idle?
    ensures Leads(from, t) && t.channel == []
    ensures t == s.(channel := [], queue := t.queue, taken := t.taken)
    decreases |s.channel|
  {
    t := s;
    if s.channel != [] {
      t := Onward(from, s, Receive(w));
      t := Onward(from, t, Put(w));
      assert t.workers == s.workers;
      t := EmptyChannel(from, t, w);
    }
  }

  /** An idle worker flushes the queue on a tick of its own, and every call succeeds. */
  lemma {:induction false} FlushByWorker(from: State, s: State, w: nat) returns (t: State)
    requires Leads(from, s) && w < |s.workers| && s.workers[w].Flushing? && s.workers[w].flush.failed.None?
    requires s.queue == map[]
    ensures Leads(from, t) && t == s.(workers := s.workers[w := Idle], served := t.served)
    decreases |s.workers[w].flush.rest|
  {
    var rest := s.workers[w].flush.rest;
    if rest == map[] {
      t := Onward(from, s, FlushEnds(ByWorker(w)));
    } else {
      var user :| user in rest;
      SmallerRest(rest, user);
      t := Onward(from, s, Call(ByWorker(w), user, true));
      t := FlushByWorker(from, t, w);
    }
  }

  lemma TickFlushes(from: State, s: State, w: nat) returns (t: State)
    requires Leads(from, s) && w < |s.workers| && s.workers[w].Idle?
    ensures Leads(from, t) && t == s.(queue := map[], served := t.served)
  {
    t := Onward(from, s, Pop(ByWorker(w)));
    t := FlushByWorker(from, t, w);
    assert t.workers == s.workers;
  }

  lemma LeadsReachable(s: State, t: State)
    requires Reachable(s) && Leads(s, t)
    ensures Reachable(t)
  {
    var events :| Runs(s, events, t);
    ReachableThen(s, events, t);
  }

  /** While the service runs, the tick of any idle worker can serve the whole queue, each pair as often
      as it was queued. */
  lemma IdleWorkerCanServeQueue(s: State, w: nat, p: Pair) returns (t: State)
    requires Reachable(s) && w < |s.workers| && s.workers[w].Idle?
    ensures Leads(s, t) && t == s.(queue := map[], served := t.served)
    ensures InRequests(t.served, p) == InRequests(s.served, p) + InItems(s.queue, p)
  {
    assert Runs(s, [], s);
    t := TickFlushes(s, s, w);
    LeadsReachable(s, t);
    AcceptedWorkIsConserved(s, p);
    AcceptedWorkIsConserved(t, p);
  }

  /** From every state of a running service all accepted work can be served without a Shutdown: nothing
      is left in flight, nothing more was accepted. */
  lemma ServiceCanServeAll(s: State) returns (t: State)
    requires Reachable(s) && s.shutdown.NotCalled?
    ensures Leads(s, t) && t.shutdown.NotCalled? && t.callers == s.callers && t.accepted == s.accepted
    ensures forall p :: InFlight(t, p) == 0
    ensures forall p :: InRequests(t.served, p) == InRequests(s.accepted, p)
  {
    ReachableInv(s);
    assert Runs(s, [], s);
    t := AllBecomeIdle(s, s, 0);
    t := EmptyChannel(s, t, 0);
    t := TickFlushes(s, t, 0);
    LeadsReachable(s, t);
    forall p ensures InFlight(t, p) == 0 && InRequests(t.served, p) == InRequests(s.accepted, p) {
      AllIdle(t.workers, p);
      AcceptedWorkIsConserved(t, p);
    }
  }

  // ---- Finishing a Shutdown ----

  /** The context can end each of the three waits; a round that left work behind is followed by another;
      a call that returned can be made again. */
  lemma ShutdownMoves(s: State)
    ensures s.shutdown.Waiting? || s.shutdown.Checking? || s.shutdown.Sleeping? ==>
      Leads(s, s.(shutdown := Returned(false)))
    ensures s.shutdown.Sleeping? ==> Leads(s, s.(shutdown := Checking))
    ensures s.shutdown.Returned? ==> Leads(s, s.(shutdown := Waiting))
  {
    assert Runs(s, [], s);
    if s.shutdown.Waiting? || s.shutdown.Checking? || s.shutdown.Sleeping? {
      var t := Onward(s, s, GiveUp);
    }
    if s.shutdown.Sleeping? {
      var t := Onward(s, s, Wake);
    }
    if s.shutdown.Returned? {
      var t := Onward(s, s, Again);
    }
  }

  lemma {:induction false} ExitRemaining(from: State, s: State, n: nat) returns (t: State)
    requires Leads(from, s) && s.shutdown.Waiting? && n <= |s.workers|
    requires forall w :: 0 <= w < n ==> s.workers[w].Exited?
    ensures Leads(from, t) && t.shutdown.Waiting? && |t.workers| == |s.workers|
    ensures forall w :: 0 <= w < |t.workers| ==> t.workers[w].Exited?
    decreases |s.workers| - n
  {
    t := s;
    if n < |s.workers| {
      if !s.workers[n].Exited? {
        t := ExitWorker(from, s, n);
      }
      t := ExitRemaining(from, t, n + 1);
    }
  }

  /** A flush in progress ends, whatever its failures were. */
  lemma {:induction false} EndFlush(from: State, s: State) returns (t: State)
    requires Leads(from, s) && s.shutdown.Emptying?
    ensures Leads(from, t) && t.shutdown.Counting? && t.workers == s.workers
    decreases |s.shutdown.flush.rest|, if s.shutdown.flush.failed.Some? then 1 else 0
  {
    var f := s.shutdown.flush;
    if f.failed.Some? {
      t := Onward(from, s, PutBack(ByShutdown));
      t := EndFlush(from, t);
    } else if f.rest == map[] {
      t := Onward(from, s, FlushEnds(ByShutdown));
    } else {
      var user :| user in f.rest;
      SmallerRest(f.rest, user);
      t := Onward(from, s, Call(ByShutdown, user, true));
      t := EndFlush(from, t);
    }
  }

  lemma CheckingFinishes(from: State, s: State) returns (t: State)
    requires Leads(from, s) && s.shutdown.Checking?
    ensures Leads(from, t) && t.shutdown == Returned(true)
  {
    t := Onward(from, s, Pop(ByShutdown));
    t := FlushAll(from, t);
    TotalZero(t.queue);
    t := Onward(from, t, Count);
  }

  lemma CountingFinishes(from: State, s: State) returns (t: State)
    requires Leads(from, s) && s.shutdown.Counting?
    ensures Leads(from, t) && t.shutdown == Returned(true)
  {
    t := Onward(from, s, Count);
    if t.shutdown.Sleeping? {
      t := Onward(from, t, Wake);
      t := CheckingFinishes(from, t);
    }
  }

  lemma WaitingFinishes(from: State, s: State) returns (t: State)
    requires Leads(from, s) && s.shutdown.Waiting?
    ensures Leads(from, t) && t.shutdown == Returned(true)
  {
    t := ExitRemaining(from, s, 0);
    t := FinishShutdown(from, t);
  }

  /** Once Shutdown was called, a nil result can always still be reached, after a timeout by calling it
      again. */
  lemma ShutdownCanFinish(s: State) returns (t: State)
    requires Reachable(s) && FlagIsSet(s)
    ensures Leads(s, t) && t.shutdown == Returned(true)
  {
    assert Runs(s, [], s);
    match s.shutdown {
      case FlagSet =>
        t := Onward(s, s, CloseStop);
        t := WaitingFinishes(s, t);
      case Waiting => t := WaitingFinishes(s, s);
      case Checking => t := CheckingFinishes(s, s);
      case Emptying(_) =>
        t := EndFlush(s, s);
        t := CountingFinishes(s, t);
      case Counting => t := CountingFinishes(s, s);
      case Sleeping =>
        t := Onward(s, s, Wake);
        t := CheckingFinishes(s, t);
      case Returned(_) =>
        t := Onward(s, s, Again);
        t := WaitingFinishes(s, t);
    }
  }
}
