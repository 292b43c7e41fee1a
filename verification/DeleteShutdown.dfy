/** What a Shutdown that returned nil does not guarantee, and exactly when: requests without shorts, and
    requests sent while the workers leave. */
module DeleteShutdown {
  import opened Model
  import opened DeleteQueue
  import opened DeletePipeline

  // ---- What the pending count does not see ----

  ghost predicate UserServed(s: State, user: string) {
    exists k :: 0 <= k < |s.served| && s.served[k].user == user
  }

  /** Every clean Shutdown leaves behind a successful call for the user of this request. */
  ghost predicate AlwaysServed(req: Request) {
    forall s, i ::
      Reachable(s) && s.shutdown == Returned(true) && 0 <= i < s.early && i < |s.accepted| && s.accepted[i] == req
      ==> UserServed(s, req.user)
  }

  lemma Advance(s: State, e: Event) returns (t: State)
    requires Reachable(s) && Enabled(s, e)
    ensures t == Step(s, e) && Reachable(t)
  {
    t := Step(s, e);
    var start, events :| Init(start) && Runs(start, events, s);
    RunsThen(start, events, s, e);
  }

  lemma {:induction false} RunsThen(s: State, events: seq<Event>, mid: State, e: Event)
    requires Runs(s, events, mid) && Enabled(mid, e)
    ensures Runs(s, events + [e], Step(mid, e))
    decreases |events|
  {
    if events != [] {
      RunsThen(Step(s, events[0]), events[1..], mid, e);
      assert (events + [e])[1..] == events[1..] + [e];
    } else {
      assert events + [e] == [e];
      assert Runs(Step(mid, e), [e][1..], Step(mid, e));
    }
  }

  /** Stopping five workers that have nothing left to receive. */
  lemma {:induction false} StopWorkers(s: State, n: nat) returns (t: State)
    requires Reachable(s) && s.shutdown.Waiting? && s.channel == [] && n <= WORKERS == |s.workers|
    requires forall w :: 0 <= w < WORKERS ==> s.workers[w] == if w < n then Exited else Idle
    ensures Reachable(t)
    ensures t == s.(workers := t.workers) && |t.workers| == WORKERS
    ensures forall w :: 0 <= w < WORKERS ==> t.workers[w].Exited?
    decreases WORKERS - n
  {
    t := s;
    if n < WORKERS {
      t := Advance(t, SeeStop(n));
      t := Advance(t, Exit(n));
      t := StopWorkers(t, n + 1);
    }
  }

  lemma EmptyRequestQueued(user: string) returns (s: State)
    ensures Reachable(s)
    ensures s == State([Accepted], [], map[user := []], seq(WORKERS, i => Idle), Waiting, [Request(user, [])], 1, 1, [])
  {
    s := EmptyRequestSent(user);
    s := Advance(s, Receive(0));
    s := Advance(s, Put(0));
    assert s.workers == seq(WORKERS, i => Idle);
    assert s.queue == map[user := []];
    s := Advance(s, SetFlag);
    s := Advance(s, CloseStop);
  }

  lemma EmptyRequestSent(user: string) returns (s: State)
    ensures Reachable(s)
    ensures var req := Request(user, []);
      s == State([Accepted], [req], map[], seq(WORKERS, i => Idle), NotCalled, [req], 0, 1, [])
  {
    s := State([Entering(Some(user), [])], [], map[], seq(WORKERS, i => Idle), NotCalled, [], 0, 0, []);
    assert Runs(s, [], s);
    s := Advance(s, Enter(0, false));
    s := Advance(s, Send(0));
  }

  /** A failing flush of a lone empty list, then the count. */
  lemma EmptyListFlushed(s: State, user: string) returns (t: State)
    requires Reachable(s) && s.shutdown.Checking? && s.queue == map[user := []]
    ensures Reachable(t) && t == s.(shutdown := Returned(true))
  {
    var req := Request(user, []);
    t := Advance(s, Pop(ByShutdown));
    t := Advance(t, Call(ByShutdown, user, false));
    assert s.queue - {user} == map[];
    assert t == s.(shutdown := Emptying(Flush(map[], Some(req))), queue := map[]);
    t := PutBackAlone(t, req);
    TotalZero(t.queue);
    t := Advance(t, Count);
  }

  lemma PutBackAlone(s: State, req: Request) returns (t: State)
    requires Reachable(s) && s.shutdown == Emptying(Flush(map[], Some(req))) && s.queue == map[]
    ensures Reachable(t) && t == s.(shutdown := Counting, queue := map[req.user := req.shorts])
  {
    t := Advance(s, PutBack(ByShutdown));
    assert [] + req.shorts == req.shorts;
    assert t.queue == map[req.user := req.shorts];
    t := Advance(t, FlushEnds(ByShutdown));
  }

  /** A request without shorts, whose only call failed: the count of pending shorts is zero. */
  lemma EmptyRequestUnserved(user: string) returns (s: State)
    ensures Reachable(s) && s.shutdown == Returned(true) && s.early == 1
    ensures s.accepted == [Request(user, [])] && s.served == []
  {
    s := EmptyRequestQueued(user);
    s := StopWorkers(s, 0);
    s := Advance(s, WorkersDone);
    s := EmptyListFlushed(s, user);
  }

  /** A clean Shutdown guarantees a successful call for a request exactly when the request names
      at least one short. */
  lemma ServedExactlyWhenNonEmpty(req: Request)
    ensures AlwaysServed(req) <==> req.shorts != []
  {
    if req.shorts != [] {
      forall s, i |
        Reachable(s) && s.shutdown == Returned(true) && 0 <= i < s.early && i < |s.accepted| && s.accepted[i] == req
        ensures UserServed(s, req.user)
      {
        ReachableInv(s);
        ShutdownCompletes(s, i, req.shorts[0]);
      }
    } else {
      var s := EmptyRequestUnserved(req.user);
      assert s.accepted[0] == req && !UserServed(s, req.user);
    }
  }

  // ---- What a late send does ----

  /** A request sent after the last worker left stays in the channel, and Shutdown returns nil. */
  lemma LateRequestStranded(user: string, shorts: seq<string>) returns (s: State)
    ensures Reachable(s) && s.shutdown == Returned(true) && s.early == 0
    ensures s.callers == [Accepted] && s.accepted == [Request(user, shorts)]
    ensures s.channel == [Request(user, shorts)] && s.served == []
  {
    s := CallerCaughtByStop(user, shorts);
    s := StopWorkers(s, 0);
    s := Advance(s, Send(0));
    s := Advance(s, WorkersDone);
    s := NothingToFlush(s);
  }

  lemma NothingToFlush(s: State) returns (t: State)
    requires Reachable(s) && s.shutdown.Checking? && s.queue == map[]
    ensures Reachable(t) && t == s.(shutdown := Returned(true))
  {
    t := Advance(s, Pop(ByShutdown));
    t := Advance(t, FlushEnds(ByShutdown));
    TotalZero(t.queue);
    t := Advance(t, Count);
  }

  lemma CallerCaughtByStop(user: string, shorts: seq<string>) returns (s: State)
    ensures Reachable(s)
    ensures s == State([Selecting(Request(user, shorts))], [], map[], seq(WORKERS, i => Idle), Waiting, [], 0, 0, [])
  {
    s := State([Entering(Some(user), shorts)], [], map[], seq(WORKERS, i => Idle), NotCalled, [], 0, 0, []);
    assert Runs(s, [], s);
    s := Advance(s, Enter(0, false));
    s := Advance(s, SetFlag);
    s := Advance(s, CloseStop);
  }

  predicate SomeSelecting(s: State) {
    exists c :: 0 <= c < |s.callers| && s.callers[c].Selecting?
  }

  /** With the flag set and no caller past its check, nothing is accepted any more. */
  lemma {:induction false} NothingMoreAccepted(s: State, events: seq<Event>, after: State)
    requires Runs(s, events, after) && FlagIsSet(s) && !SomeSelecting(s)
    ensures after.accepted == s.accepted && after.early == s.early
    decreases |events|
  {
    if events != [] {
      var t := Step(s, events[0]);
      assert forall c :: 0 <= c < |t.callers| ==> !t.callers[c].Selecting?;
      NothingMoreAccepted(t, events[1..], after);
    }
  }

  /** When every caller past the flag check has returned before the stop channel is closed, a nil result means that
      all accepted work has been served. */
  lemma QuietShutdownServesAll(s: State, events: seq<Event>, after: State, p: Pair)
    requires Reachable(s) && s.shutdown.FlagSet? && !SomeSelecting(s)
    requires Runs(s, events, after) && after.shutdown == Returned(true)
    ensures after.channel == [] && InRequests(after.served, p) == InRequests(after.accepted, p)
  {
    ReachableInv(s);
    NothingMoreAccepted(s, events, after);
    ReachableThen(s, events, after);
    ShutdownSettles(after, p);
    assert after.accepted[..after.taken] == after.accepted;
  }

  lemma ReachableThen(s: State, events: seq<Event>, after: State)
    requires Reachable(s) && Runs(s, events, after)
    ensures Reachable(after)
  {
    var start, before :| Init(start) && Runs(start, before, s);
    RunsConcat(start, before, s, events, after);
  }

  lemma {:induction false} RunsConcat(s: State, a: seq<Event>, mid: State, b: seq<Event>, after: State)
    requires Runs(s, a, mid) && Runs(mid, b, after)
    ensures Runs(s, a + b, after)
    decreases |a|
  {
    if a == [] {
      assert a + b == b;
    } else {
      RunsConcat(Step(s, a[0]), a[1..], mid, b, after);
      assert (a + b)[1..] == a[1..] + b;
    }
  }

  // ---- From any state a late send can be stranded ----

  ghost predicate Leads(s: State, t: State) {
    exists events :: Runs(s, events, t)
  }

  lemma Onward(s: State, mid: State, e: Event) returns (t: State)
    requires Leads(s, mid) && Enabled(mid, e)
    ensures t == Step(mid, e) && Leads(s, t)
  {
    t := Step(mid, e);
    var events :| Runs(s, events, mid);
    RunsThen(s, events, mid, e);
  }

  function Steps(worker: Worker): nat {
    match worker
    case Exited => 0
    case Draining => 1
    case Idle => 2
    case Queuing(_, _) => 3
    case Flushing(f) => 4 + 2 * |f.rest| + if f.failed.Some? then 1 else 0
  }

  /** What a stopped worker can do next, when its calls succeed. */
  ghost function NextOf(s: State, w: nat): (e: Event)
    requires w < |s.workers| && !s.workers[w].Exited?
  {
    match s.workers[w]
    case Idle => SeeStop(w)
    case Queuing(_, _) => Put(w)
    case Draining => if s.channel == [] then Exit(w) else Receive(w)
    case Flushing(f) =>
      if f.failed.Some? then PutBack(ByWorker(w))
      else if f.rest == map[] then FlushEnds(ByWorker(w))
      else var user :| user in f.rest; Call(ByWorker(w), user, true)
  }

  lemma SmallerRest(rest: Items, user: string)
    requires user in rest
    ensures |rest - {user}| < |rest|
  {
    assert (rest - {user}).Keys == rest.Keys - {user};
  }

  lemma WorkerProgress(s: State, w: nat)
    requires s.shutdown.Waiting? && w < |s.workers| && !s.workers[w].Exited?
    ensures Enabled(s, NextOf(s, w))
    ensures var t := Step(s, NextOf(s, w));
      && t.callers == s.callers && t.shutdown == s.shutdown && |t.workers| == |s.workers|
      && t.workers == s.workers[w := t.workers[w]]
      && |t.channel| <= |s.channel|
      && (t.workers[w].Exited? ==> t.channel == [])
      && (|t.channel| == |s.channel| ==> Steps(t.workers[w]) < Steps(s.workers[w]))
  {
    var e := NextOf(s, w);
    if e.Call? {
      SmallerRest(s.workers[w].flush.rest, e.user);
    }
  }

  lemma {:induction false} ExitWorker(from: State, s: State, w: nat) returns (t: State)
    requires Leads(from, s) && s.shutdown.Waiting? && w < |s.workers| && !s.workers[w].Exited?
    ensures Leads(from, t) && t.shutdown.Waiting? && t.callers == s.callers
    ensures t.workers == s.workers[w := Exited] && t.channel == []
    decreases |s.channel|, Steps(s.workers[w])
  {
    WorkerProgress(s, w);
    t := Onward(from, s, NextOf(s, w));
    if !t.workers[w].Exited? {
      t := ExitWorker(from, t, w);
    }
  }

  lemma {:induction false} ExitAll(from: State, s: State, n: nat) returns (t: State)
    requires Leads(from, s) && s.shutdown.Waiting? && n < |s.workers|
    requires forall w :: 0 <= w < |s.workers| ==> (s.workers[w].Exited? <==> w < n)
    ensures Leads(from, t) && t.shutdown.Waiting? && t.callers == s.callers && t.channel == []
    ensures |t.workers| == |s.workers| && forall w :: 0 <= w < |t.workers| ==> t.workers[w].Exited?
    decreases |s.workers| - n
  {
    t := ExitWorker(from, s, n);
    if n + 1 < |s.workers| {
      t := ExitAll(from, t, n + 1);
    }
  }

  /** The final flush, when its calls succeed. */
  lemma {:induction false} FlushAll(from: State, s: State) returns (t: State)
    requires Leads(from, s) && s.shutdown.Emptying? && s.shutdown.flush.failed.None? && s.queue == map[]
    ensures Leads(from, t) && t == s.(shutdown := Counting, served := t.served)
    decreases |s.shutdown.flush.rest|
  {
    var rest := s.shutdown.flush.rest;
    if rest == map[] {
      t := Onward(from, s, FlushEnds(ByShutdown));
    } else {
      var user :| user in rest;
      SmallerRest(rest, user);
      t := Onward(from, s, Call(ByShutdown, user, true));
      t := FlushAll(from, t);
    }
  }

  lemma FinishShutdown(from: State, s: State) returns (t: State)
    requires Leads(from, s) && s.shutdown.Waiting? && forall w :: 0 <= w < |s.workers| ==> s.workers[w].Exited?
    ensures Leads(from, t) && t.shutdown == Returned(true) && t.channel == s.channel
  {
    t := Onward(from, s, WorkersDone);
    t := Onward(from, t, Pop(ByShutdown));
    t := FlushAll(from, t);
    TotalZero(t.queue);
    t := Onward(from, t, Count);
  }

  /** A nil result may leave accepted work behind in the channel. */
  ghost predicate MayStrand(s: State) {
    exists after :: Leads(s, after) && after.shutdown == Returned(true) && after.channel != []
  }

  lemma StrandFrom(s: State, c: nat)
    requires Reachable(s) && s.shutdown.FlagSet? && c < |s.callers| && s.callers[c].Selecting?
    ensures MayStrand(s)
  {
    ReachableInv(s);
    assert Runs(s, [], s);
    var t := Onward(s, s, CloseStop);
    t := ExitAll(s, t, 0);
    t := Onward(s, t, Send(c));
    t := FinishShutdown(s, t);
  }

  /** Exactly when a nil result can leave accepted work behind: when some caller past the
      flag check has not returned at the moment the stop channel is closed. */
  lemma StrandsExactly(s: State)
    requires Reachable(s) && s.shutdown.FlagSet?
    ensures MayStrand(s) <==> SomeSelecting(s)
  {
    if SomeSelecting(s) {
      var c :| 0 <= c < |s.callers| && s.callers[c].Selecting?;
      StrandFrom(s, c);
    } else if MayStrand(s) {
      var after :| Leads(s, after) && after.shutdown == Returned(true) && after.channel != [];
      var events :| Runs(s, events, after);
      QuietShutdownServesAll(s, events, after, Pair("", ""));
    }
  }

  /** What is stranded stays so: after a nil result no continuation receives another request, calling
      Shutdown again included. */
  lemma {:induction false} StrandedForGood(s: State, events: seq<Event>, after: State)
    requires Runs(s, events, after) && forall w :: 0 <= w < |s.workers| ==> s.workers[w].Exited?
    ensures after.taken == s.taken && s.channel <= after.channel
    decreases |events|
  {
    if events != [] {
      StrandedForGood(Step(s, events[0]), events[1..], after);
    }
  }
}
