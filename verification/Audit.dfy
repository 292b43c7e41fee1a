/** The audit service as a state machine: any number of callers of Notify, one consumer that passes
    each event to every observer, and Close. Each channel operation and each observer call is a step. */
module Audit {

  const QUEUE_SIZE := 1024

  datatype Action = Shorten | Follow

  datatype Event = Event(timestamp: int, action: Action, userID: string, url: string)

  datatype Consumer =
    | Selecting
    | Notifying(event: Event, next: nat, draining: bool)
    | Draining
    | Gone

  datatype Closer = Open | DoneClosed | Closed

  /** A call of Notify: not returned yet, its event queued, or its event discarded. */
  datatype Caller = Calling(event: Event) | Queued | Discarded

  /** `callers` are all calls of Notify there will be. `received` holds, observer by observer, the events
      it was notified of. `accepted`, `taken` and `early` are history: the events queued, how many were
      taken out, and how many were queued before the done channel was closed. */
  datatype State = State(
    callers: seq<Caller>,
    queue: seq<Event>,
    consumer: Consumer,
    closer: Closer,
    received: seq<seq<Event>>,
    accepted: seq<Event>,
    taken: nat,
    early: nat)

  datatype Move =
    | Send(c: nat)
    | Discard(c: nat)
    | Take
    | NotifyNext(ok: bool)
    | AllNotified
    | SeeDone
    | Leave
    | Close
    | Return

  predicate Done(s: State) {
    !s.closer.Open?
  }

  predicate Enabled(s: State, m: Move) {
    match m
    case Send(c) => c < |s.callers| && s.callers[c].Calling? && |s.queue| < QUEUE_SIZE
    case Discard(c) => c < |s.callers| && s.callers[c].Calling? && Done(s)
    case Take => (s.consumer.Selecting? || s.consumer.Draining?) && s.queue != []
    case NotifyNext(_) => s.consumer.Notifying? && s.consumer.next < |s.received|
    case AllNotified => s.consumer.Notifying? && s.consumer.next == |s.received|
    case SeeDone => s.consumer.Selecting? && Done(s)
    case Leave => s.consumer.Draining? && s.queue == []
    case Close => s.closer.Open?
    case Return => s.closer.DoneClosed? && s.consumer.Gone?
  }

  /** An observer's error is logged and changes nothing. */
  function Step(s: State, m: Move): State
    requires Enabled(s, m)
  {
    match m
    case Send(c) =>
      var event := s.callers[c].event;
      s.(callers := s.callers[c := Queued],
         queue := s.queue + [event],
         accepted := s.accepted + [event],
         early := if Done(s) then s.early else s.early + 1)
    case Discard(c) => s.(callers := s.callers[c := Discarded])
    case Take =>
      s.(queue := s.queue[1..],
         consumer := Notifying(s.queue[0], 0, s.consumer.Draining?),
         taken := s.taken + 1)
    case NotifyNext(_) =>
      var i := s.consumer.next;
      s.(received := s.received[i := s.received[i] + [s.consumer.event]],
         consumer := s.consumer.(next := i + 1))
    case AllNotified => s.(consumer := if s.consumer.draining then Draining else Selecting)
    case SeeDone => s.(consumer := Draining)
    case Leave => s.(consumer := Gone)
    case Close => s.(closer := DoneClosed)
    case Return => s.(closer := Closed)
  }

  ghost predicate Init(s: State) {
    && (forall i :: 0 <= i < |s.received| ==> s.received[i] == [])
    && (forall c :: 0 <= c < |s.callers| ==> s.callers[c].Calling?)
    && s == State(s.callers, [], Selecting, Open, s.received, [], 0, 0)
  }

  predicate Runs(s: State, moves: seq<Move>, after: State)
    decreases |moves|
  {
    if moves == [] then s == after
    else Enabled(s, moves[0]) && Runs(Step(s, moves[0]), moves[1..], after)
  }

  ghost predicate Reachable(s: State) {
    exists start, moves :: Init(start) && Runs(start, moves, s)
  }

  // ---- The invariant ----

  /** How many events observer `i` has been notified of. */
  function Progress(s: State, i: nat): int {
    if s.consumer.Notifying? && s.consumer.next <= i then s.taken - 1 else s.taken
  }

  ghost predicate Inv(s: State) {
    && |s.queue| <= QUEUE_SIZE
    && s.early <= |s.accepted|
    && (!Done(s) ==> s.early == |s.accepted|)
    && s.taken <= |s.accepted|
    && s.queue == s.accepted[s.taken..]
    && (s.consumer.Notifying? ==>
          && 0 < s.taken
          && s.consumer.next <= |s.received|
          && s.consumer.event == s.accepted[s.taken - 1]
          && (s.consumer.draining ==> Done(s)))
    && (s.consumer.Draining? ==> Done(s))
    && (s.consumer.Gone? ==> Done(s) && s.early <= s.taken)
    && (s.closer.Closed? ==> s.consumer.Gone?)
    && (forall i :: 0 <= i < |s.received| ==> DeliveredTo(s, i))
  }

  ghost predicate DeliveredTo(s: State, i: nat)
    requires i < |s.received|
  {
    0 <= Progress(s, i) <= |s.accepted| && s.received[i] == s.accepted[..Progress(s, i)]
  }

  lemma StepDelivers(s: State, m: Move, i: nat)
    requires Inv(s) && Enabled(s, m) && i < |s.received|
    ensures i < |Step(s, m).received| && DeliveredTo(Step(s, m), i)
  {
    assert DeliveredTo(s, i);
    if m.NotifyNext? && i == s.consumer.next {
      assert s.accepted[..s.taken] == s.accepted[..s.taken - 1] + [s.accepted[s.taken - 1]];
    }
  }

  lemma StepInv(s: State, m: Move)
    requires Inv(s) && Enabled(s, m)
    ensures Inv(Step(s, m))
  {
    var t := Step(s, m);
    forall i | 0 <= i < |t.received| ensures DeliveredTo(t, i) {
      StepDelivers(s, m, i);
    }
  }

  lemma {:induction false} RunsInv(s: State, moves: seq<Move>, after: State)
    requires Inv(s) && Runs(s, moves, after)
    ensures Inv(after)
    ensures |after.received| == |s.received|
    decreases |moves|
  {
    if moves != [] {
      StepInv(s, moves[0]);
      RunsInv(Step(s, moves[0]), moves[1..], after);
    }
  }

  lemma ReachableInv(s: State)
    requires Reachable(s)
    ensures Inv(s)
  {
    var start, moves :| Init(start) && Runs(start, moves, s);
    RunsInv(start, moves, s);
  }

  // ---- Main results ----

  /** In every reachable state each observer has been notified of a prefix of the accepted events, in
      acceptance order, and what it has not seen yet is at most the one in hand and the queue. */
  lemma DeliveryInOrder(s: State, i: nat)
    requires Reachable(s) && i < |s.received|
    ensures |s.queue| <= QUEUE_SIZE
    ensures s.accepted ==
      s.received[i] + (if s.consumer.Notifying? && s.consumer.next <= i then [s.consumer.event] else []) + s.queue
  {
    ReachableInv(s);
    assert DeliveredTo(s, i);
    if s.consumer.Notifying? && s.consumer.next <= i {
      assert s.accepted == s.accepted[..s.taken - 1] + [s.accepted[s.taken - 1]] + s.accepted[s.taken..];
    } else {
      assert s.accepted == s.accepted[..s.taken] + [] + s.accepted[s.taken..];
    }
  }

  /** After Close returned, every observer has been notified of each event accepted before the done
      channel was closed, exactly once and in order; whatever else it saw came after those. */
  lemma CloseDelivers(s: State, i: nat)
    requires Reachable(s) && s.closer.Closed? && i < |s.received|
    ensures s.early <= |s.received[i]| && s.early <= |s.accepted|
    ensures s.received[i][..s.early] == s.accepted[..s.early]
    ensures s.accepted == s.received[i] + s.queue
  {
    ReachableInv(s);
    assert DeliveredTo(s, i);
  }

  /** Work left for the consumer once the done channel is closed. */
  function Remaining(s: State): nat {
    |s.queue| * (|s.received| + 3) +
    match s.consumer
    case Selecting => 2
    case Draining => 1
    case Gone => 0
    case Notifying(_, next, _) => 3 + if next <= |s.received| then |s.received| - next else 0
  }

  predicate ByConsumer(m: Move) {
    m.Take? || m.NotifyNext? || m.AllNotified? || m.SeeDone? || m.Leave?
  }

  /** Close waits for finitely much: after it closed the done channel the consumer always has a
      step to take until it is gone, and each step leaves less work. Without new events it is gone
      after at most that many steps. */
  lemma DrainEnds(s: State)
    requires Reachable(s) && Done(s) && !s.consumer.Gone?
    ensures exists m :: ByConsumer(m) && Enabled(s, m)
    ensures forall m :: ByConsumer(m) && Enabled(s, m) ==> Remaining(Step(s, m)) < Remaining(s)
  {
    ReachableInv(s);
    ConsumerProgress(s, NextMove(s));
    forall m | ByConsumer(m) && Enabled(s, m) ensures Remaining(Step(s, m)) < Remaining(s) {
      ConsumerProgress(s, m);
    }
  }

  /** What the consumer can do next once the done channel is closed. */
  function NextMove(s: State): Move {
    match s.consumer
    case Selecting => SeeDone
    case Draining => if s.queue == [] then Leave else Take
    case Gone => Leave
    case Notifying(_, next, _) => if next < |s.received| then NotifyNext(true) else AllNotified
  }

  lemma ConsumerProgress(s: State, m: Move)
    requires Inv(s) && Done(s) && !s.consumer.Gone? && ByConsumer(m)
    ensures Enabled(s, NextMove(s)) && ByConsumer(NextMove(s))
    ensures Enabled(s, m) ==> Remaining(Step(s, m)) < Remaining(s)
  {
    if m.Take? && Enabled(s, m) {
      assert |s.queue| * (|s.received| + 3) == (|s.queue| - 1) * (|s.received| + 3) + |s.received| + 3;
    }
  }

  // ---- What a late call does ----

  ghost predicate Leads(s: State, t: State) {
    exists moves :: Runs(s, moves, t)
  }

  lemma Onward(s: State, mid: State, m: Move) returns (t: State)
    requires Leads(s, mid) && Enabled(mid, m)
    ensures t == Step(mid, m) && Leads(s, t)
  {
    t := Step(mid, m);
    var moves :| Runs(s, moves, mid);
    RunsThen(s, moves, mid, m);
  }

  lemma {:induction false} RunsThen(s: State, moves: seq<Move>, mid: State, m: Move)
    requires Runs(s, moves, mid) && Enabled(mid, m)
    ensures Runs(s, moves + [m], Step(mid, m))
    decreases |moves|
  {
    if moves != [] {
      RunsThen(Step(s, moves[0]), moves[1..], mid, m);
      assert (moves + [m])[1..] == moves[1..] + [m];
    } else {
      assert moves + [m] == [m];
      assert Runs(Step(mid, m), [m][1..], Step(mid, m));
    }
  }

  /** An event queued after the consumer left stays in the queue, and Close returns. */
  lemma LateEventLost(event: Event) returns (s: State)
    ensures Reachable(s) && s.closer.Closed? && s.callers == [Queued]
    ensures s.accepted == [event] && s.queue == [event] && s.received == [[]]
  {
    var start := State([Calling(event)], [], Selecting, Open, [[]], [], 0, 0);
    assert Init(start) && Runs(start, [], start);
    s := Onward(start, start, Close);
    s := Onward(start, s, SeeDone);
    s := Onward(start, s, Leave);
    s := Onward(start, s, Send(0));
    s := Onward(start, s, Return);
  }

  predicate SomeCalling(s: State) {
    exists c :: 0 <= c < |s.callers| && s.callers[c].Calling?
  }

  /** When every call of Notify has returned, nothing is accepted any more. */
  lemma {:induction false} NothingMoreAccepted(s: State, moves: seq<Move>, after: State)
    requires Runs(s, moves, after) && !SomeCalling(s)
    ensures after.accepted == s.accepted && after.early == s.early
    decreases |moves|
  {
    if moves != [] {
      var t := Step(s, moves[0]);
      assert t.callers == s.callers;
      NothingMoreAccepted(t, moves[1..], after);
    }
  }

  /** When every call of Notify has returned before Close, then after Close every observer has been
      notified of exactly the accepted events, once each and in order. */
  lemma QuietCloseDelivers(s: State, moves: seq<Move>, after: State, i: nat)
    requires Reachable(s) && s.closer.Open? && !SomeCalling(s)
    requires Runs(s, moves, after) && after.closer.Closed? && i < |after.received|
    ensures after.queue == [] && after.received[i] == after.accepted
  {
    ReachableInv(s);
    RunsInv(s, moves, after);
    NothingMoreAccepted(s, moves, after);
    assert DeliveredTo(after, i);
  }

  lemma QuietCloseEmpties(s: State, moves: seq<Move>, after: State)
    requires Reachable(s) && s.closer.Open? && !SomeCalling(s)
    requires Runs(s, moves, after) && after.closer.Closed?
    ensures after.queue == []
  {
    ReachableInv(s);
    RunsInv(s, moves, after);
    NothingMoreAccepted(s, moves, after);
  }

  /** The consumer on its own, until it is gone. */
  lemma {:induction false} Drain(from: State, s: State) returns (t: State)
    requires Leads(from, s) && Inv(s) && s.closer.DoneClosed? && !s.consumer.Gone?
    ensures Leads(from, t) && t.consumer.Gone? && t.queue == [] && t.callers == s.callers && t.closer.DoneClosed?
    decreases Remaining(s)
  {
    ConsumerProgress(s, NextMove(s));
    StepInv(s, NextMove(s));
    t := Onward(from, s, NextMove(s));
    if !t.consumer.Gone? {
      t := Drain(from, t);
    }
  }

  /** Close may return with an accepted event that no observer will ever see. */
  ghost predicate MayLose(s: State) {
    exists after :: Leads(s, after) && after.closer.Closed? && after.queue != []
  }

  lemma LoseFrom(s: State, c: nat)
    requires Reachable(s) && s.closer.Open? && c < |s.callers| && s.callers[c].Calling?
    ensures MayLose(s)
  {
    ReachableInv(s);
    assert Runs(s, [], s);
    StepInv(s, Close);
    var t := Onward(s, s, Close);
    t := Drain(s, t);
    t := Onward(s, t, Send(c));
    t := Onward(s, t, Return);
  }

  /** Exactly when Close can lose an accepted event: when some call of Notify has not returned before. */
  lemma LosesExactly(s: State)
    requires Reachable(s) && s.closer.Open?
    ensures MayLose(s) <==> SomeCalling(s)
  {
    if SomeCalling(s) {
      var c :| 0 <= c < |s.callers| && s.callers[c].Calling?;
      LoseFrom(s, c);
    } else if MayLose(s) {
      var after :| Leads(s, after) && after.closer.Closed? && after.queue != [];
      var moves :| Runs(s, moves, after);
      QuietCloseEmpties(s, moves, after);
    }
  }

  /** What is lost stays so: without the consumer nothing is taken from the queue again. */
  lemma {:induction false} LostForGood(s: State, moves: seq<Move>, after: State)
    requires Runs(s, moves, after) && s.consumer.Gone?
    ensures after.received == s.received && s.queue <= after.queue
    decreases |moves|
  {
    if moves != [] {
      LostForGood(Step(s, moves[0]), moves[1..], after);
    }
  }

  // ---- What callers of Notify are told ----

  /** What has become of a call, given its event. */
  ghost predicate Answers(event: Event, now: Caller, s: State) {
    match now
    case Calling(e) => e == event
    case Queued => event in s.accepted
    case Discarded => !s.closer.Open?
  }

  lemma StepAnswers(s: State, m: Move, event: Event, c: nat)
    requires Enabled(s, m) && c < |s.callers| && Answers(event, s.callers[c], s)
    ensures var t := Step(s, m);
      |t.callers| == |s.callers| && Answers(event, t.callers[c], t)
  {
    var t := Step(s, m);
    assert forall e :: e in s.accepted ==> e in t.accepted;
  }

  /** An event given to Notify is queued, or discarded once the service is being closed, and only then. */
  lemma {:induction false} CallersAreAnswered(s: State, moves: seq<Move>, after: State, event: Event, c: nat)
    requires Runs(s, moves, after) && c < |s.callers| && Answers(event, s.callers[c], s)
    ensures |after.callers| == |s.callers| && Answers(event, after.callers[c], after)
    decreases |moves|
  {
    if moves != [] {
      StepAnswers(s, moves[0], event, c);
      CallersAreAnswered(Step(s, moves[0]), moves[1..], after, event, c);
    }
  }

  /** No open service discards an event. */
  lemma OpenServiceDiscardsNothing(s: State, c: nat)
    requires Reachable(s) && s.closer.Open? && c < |s.callers|
    ensures !s.callers[c].Discarded?
  {
    var start, moves :| Init(start) && Runs(start, moves, s);
    SameCallers(start, moves, s);
    CallersAreAnswered(start, moves, s, start.callers[c].event, c);
  }

  lemma {:induction false} SameCallers(s: State, moves: seq<Move>, after: State)
    requires Runs(s, moves, after)
    ensures |after.callers| == |s.callers|
    decreases |moves|
  {
    if moves != [] {
      SameCallers(Step(s, moves[0]), moves[1..], after);
    }
  }

  /** When every call of Notify has returned before Close, every observer gets the event of every call. */
  lemma EveryCallIsDelivered(start: State, before: seq<Move>, s: State, moves: seq<Move>, after: State, c: nat, i: nat)
    requires Init(start) && Runs(start, before, s) && s.closer.Open? && !SomeCalling(s)
    requires Runs(s, moves, after) && after.closer.Closed? && c < |start.callers| && i < |after.received|
    ensures start.callers[c].event in after.received[i]
  {
    SameCallers(start, before, s);
    CallersAreAnswered(start, before, s, start.callers[c].event, c);
    OpenServiceDiscardsNothing(s, c);
    QuietCloseDelivers(s, moves, after, i);
    NothingMoreAccepted(s, moves, after);
  }

  // ---- What the service can always do ----

  /** A call of Notify is accepted while the queue holds fewer than 1024 events, and let go once the
      service is being closed. */
  lemma NoCallIsStuck(s: State, c: nat)
    requires c < |s.callers| && s.callers[c].Calling?
    ensures |s.queue| < 1024 ==>
      exists t :: Leads(s, t) && t.callers == s.callers[c := Queued] && t.queue == s.queue + [s.callers[c].event]
    ensures !s.closer.Open? ==>
      exists t :: Leads(s, t) && t.callers == s.callers[c := Discarded] && t.queue == s.queue
  {
    assert Runs(s, [], s);
    if |s.queue| < 1024 {
      var t := Onward(s, s, Send(c));
    }
    if !s.closer.Open? {
      var t := Onward(s, s, Discard(c));
    }
  }

  lemma AtMost1024(s: State)
    requires Reachable(s)
    ensures |s.queue| <= 1024
  {
    ReachableInv(s);
  }

  /** The event in hand goes to the remaining observers, whatever they answer. */
  lemma {:induction false} FinishNotifying(from: State, s: State, ok: bool) returns (t: State)
    requires Leads(from, s) && s.consumer.Notifying? && !s.consumer.draining && s.consumer.next <= |s.received|
    ensures Leads(from, t) && t == s.(consumer := Selecting, received := t.received) && |t.received| == |s.received|
    decreases |s.received| - s.consumer.next
  {
    if s.consumer.next == |s.received| {
      t := Onward(from, s, AllNotified);
    } else {
      t := Onward(from, s, NotifyNext(ok));
      t := FinishNotifying(from, t, ok);
    }
  }

  lemma {:induction false} EmptyQueue(from: State, s: State, ok: bool) returns (t: State)
    requires Leads(from, s) && s.consumer.Selecting?
    ensures Leads(from, t) && t.consumer.Selecting? && t.queue == [] && t.closer == s.closer
    ensures t.callers == s.callers && t.accepted == s.accepted && |t.received| == |s.received|
    decreases |s.queue|
  {
    t := s;
    if s.queue != [] {
      t := Onward(from, s, Take);
      t := FinishNotifying(from, t, ok);
      t := EmptyQueue(from, t, ok);
    }
  }

  /** From every state of an open service each observer can be notified of every accepted event without
      a Close, with all observers answering with errors or all without. */
  lemma OpenServiceCanDeliverAll(s: State, ok: bool) returns (t: State)
    requires Reachable(s) && s.closer.Open?
    ensures Leads(s, t) && t.closer.Open? && t.callers == s.callers && t.accepted == s.accepted
    ensures |t.received| == |s.received| && forall i :: 0 <= i < |t.received| ==> t.received[i] == s.accepted
  {
    ReachableInv(s);
    assert Runs(s, [], s);
    t := s;
    if s.consumer.Notifying? {
      t := FinishNotifying(s, s, ok);
    }
    t := EmptyQueue(s, t, ok);
    var moves :| Runs(s, moves, t);
    RunsInv(s, moves, t);
    forall i | 0 <= i < |t.received| ensures t.received[i] == s.accepted {
      assert DeliveredTo(t, i);
    }
  }

  /** The queue takes 1024 events that nobody takes out. */
  lemma {:induction false} QueueFills(event: Event, n: nat) returns (s: State)
    requires n <= 1024
    ensures Reachable(s) && s.closer.Open? && |s.queue| == n
    ensures s.callers == seq(1024, i => if i < n then Queued else Calling(event))
    decreases n
  {
    if n == 0 {
      var callers := seq(1024, i => Calling(event));
      s := State(callers, [], Selecting, Open, [], [], 0, 0);
      assert Init(s) && Runs(s, [], s);
      assert callers == seq(1024, i => if i < n then Queued else Calling(event));
    } else {
      s := QueueFills(event, n - 1);
      var start, moves :| Init(start) && Runs(start, moves, s);
      s := Onward(start, s, Send(n - 1));
      assert s.callers == seq(1024, i => if i < n then Queued else Calling(event));
    }
  }
}
