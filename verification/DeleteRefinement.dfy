/** The pipeline over the in-memory index refines a synchronous delete: `store` is what the flushes
    really did, `ideal` is what a delete applied at acceptance would have done. */
module DeleteRefinement {
  import opened Model
  import opened InMemory
  import opened DeleteQueue
  import P = DeletePipeline
  import DeleteProgress

  datatype System = System(pipe: P.State, store: Index, ideal: Index)

  /** A pipeline step, or a save. A call that reports failure may have applied any prefix of its
      list before failing. */
  datatype Event =
    | Pipe(e: P.Event, applied: nat)
    | Save(url: URL)

  predicate Enabled(s: System, e: Event) {
    match e
    case Pipe(pe, applied) =>
      && P.Enabled(s.pipe, pe)
      && (pe.Call? ==> applied <= |P.FlushOf(s.pipe, pe.who).rest[pe.user]|)
    case Save(_) => true
  }

  function Step(s: System, e: Event): System
    requires Enabled(s, e)
  {
    match e
    case Save(u) => System(s.pipe, SaveURL(s.store, u), SaveURL(s.ideal, u))
    case Pipe(pe, applied) =>
      var pipe := P.Step(s.pipe, pe);
      match pe
      case Send(c) =>
        var req := s.pipe.callers[c].req;
        System(pipe, s.store, MarkDeleted(s.ideal, req.user, req.shorts))
      case Call(who, user, ok) =>
        var shorts := P.FlushOf(s.pipe, who).rest[user];
        System(pipe, MarkDeleted(s.store, user, if ok then shorts else shorts[..applied]), s.ideal)
      case _ => s.(pipe := pipe)
  }

  ghost predicate Pending(s: System, user: string, short: string) {
    0 < P.InFlight(s.pipe, Pair(user, short))
  }

  /** A short is deleted ideally exactly when it is deleted really or its owner's delete is in flight. */
  ghost predicate AheadAt(s: System, short: string) {
    Deleted(s.ideal, short) <==>
    Deleted(s.store, short) || (short in s.store.userIDByShort && Pending(s, s.store.userIDByShort[short], short))
  }

  ghost predicate Ahead(s: System) {
    && s.ideal.(deletedByShort := s.store.deletedByShort) == s.store
    && forall short :: AheadAt(s, short)
  }

  /** Who owns the short before the save is asked for deletion, and who owns it after the save is
      asked for deletion: a save is harmless when these agree, or the short is deleted anyway. */
  ghost predicate Harmless(s: System, u: URL) {
    || u.deletedFlag
    || Deleted(s.store, u.short)
    || (Pending(s, u.userID, u.short) <==>
        u.short in s.store.userIDByShort && Pending(s, s.store.userIDByShort[u.short], u.short))
  }

  /** Exactly when a save keeps the real store in step with the ideal one. */
  lemma SaveKeepsAheadExactly(s: System, u: URL)
    requires Ahead(s)
    ensures Ahead(Step(s, Save(u))) <==> Harmless(s, u)
  {
    var t := Step(s, Save(u));
    assert AheadAt(s, u.short);
    assert AheadAt(t, u.short) <==> Harmless(s, u);
    forall short | short != u.short ensures AheadAt(t, short) {
      assert AheadAt(s, short);
    }
  }

  /** Saving a short that is neither stored nor named in pending work is harmless. */
  lemma NewShortIsHarmless(s: System, u: URL)
    requires u.short !in s.store.userIDByShort && !Pending(s, u.userID, u.short)
    ensures Harmless(s, u)
  {
  }

  /** The list a call is about to delete is work in flight. */
  lemma CallIsInFlight(s: P.State, who: P.Flusher, user: string, short: string)
    requires P.HasFlush(s, who) && user in P.FlushOf(s, who).rest && short in P.FlushOf(s, who).rest[user]
    ensures 0 < P.InFlight(s, Pair(user, short))
  {
    var p := Pair(user, short);
    match who {
      case ByWorker(w) => HeldAtMost(s.workers, w, p);
      case ByShutdown =>
    }
  }

  lemma {:induction false} HeldAtMost(workers: seq<P.Worker>, w: nat, p: Pair)
    requires w < |workers|
    ensures P.Held(workers[w], p) <= P.HeldByWorkers(workers, p)
  {
    var n := |workers| - 1;
    if w < n {
      HeldAtMost(workers[..n], w, p);
    }
  }

  lemma SendKeepsAhead(s: System, c: nat, applied: nat)
    requires Ahead(s) && Enabled(s, Pipe(P.Send(c), applied))
    ensures Ahead(Step(s, Pipe(P.Send(c), applied)))
  {
    var t := Step(s, Pipe(P.Send(c), applied));
    var req := s.pipe.callers[c].req;
    forall short ensures AheadAt(t, short) {
      assert AheadAt(s, short);
      if short in s.store.userIDByShort {
        var p := Pair(s.store.userIDByShort[short], short);
        P.StepCounts(s.pipe, P.Send(c), p);
        InRequestsAppend(s.pipe.accepted, req, p);
      }
    }
  }

  lemma CallKeepsAhead(s: System, who: P.Flusher, user: string, ok: bool, applied: nat)
    requires Ahead(s) && Enabled(s, Pipe(P.Call(who, user, ok), applied))
    ensures Ahead(Step(s, Pipe(P.Call(who, user, ok), applied)))
  {
    var e := P.Call(who, user, ok);
    var t := Step(s, Pipe(e, applied));
    var shorts := P.FlushOf(s.pipe, who).rest[user];
    forall short ensures AheadAt(t, short) {
      assert AheadAt(s, short);
      if short in s.store.userIDByShort {
        var p := Pair(s.store.userIDByShort[short], short);
        P.StepCounts(s.pipe, e, p);
        InRequestsAppend(s.pipe.served, Request(user, shorts), p);
        if short in shorts {
          CallIsInFlight(s.pipe, who, user, short);
        }
      }
    }
  }

  lemma OtherKeepsAhead(s: System, e: P.Event, applied: nat)
    requires !e.Send? && !e.Call?
    requires Ahead(s) && Enabled(s, Pipe(e, applied))
    ensures Ahead(Step(s, Pipe(e, applied)))
  {
    var t := Step(s, Pipe(e, applied));
    forall short ensures AheadAt(t, short) {
      assert AheadAt(s, short);
      if short in s.store.userIDByShort {
        P.StepCounts(s.pipe, e, Pair(s.store.userIDByShort[short], short));
      }
    }
  }

  // ---- Whole runs ----

  /** A run in which every save is harmless at the moment it happens. */
  ghost predicate Runs(s: System, events: seq<Event>, after: System)
    decreases |events|
  {
    if events == [] then s == after
    else
      && Enabled(s, events[0])
      && (events[0].Save? ==> Harmless(s, events[0].url))
      && Runs(Step(s, events[0]), events[1..], after)
  }

  lemma {:induction false} RunsAhead(s: System, events: seq<Event>, after: System)
    requires Ahead(s) && Runs(s, events, after)
    ensures Ahead(after)
    decreases |events|
  {
    if events != [] {
      match events[0] {
        case Save(u) => SaveKeepsAheadExactly(s, u);
        case Pipe(e, applied) =>
          match e {
            case Send(c) => SendKeepsAhead(s, c, applied);
            case Call(who, user, ok) => CallKeepsAhead(s, who, user, ok, applied);
            case _ => OtherKeepsAhead(s, e, applied);
          }
      }
      RunsAhead(Step(s, events[0]), events[1..], after);
    }
  }

  lemma InitAhead(pipe: P.State, ix: Index)
    requires P.Init(pipe)
    ensures Ahead(System(pipe, ix, ix))
  {
    forall short ensures AheadAt(System(pipe, ix, ix), short) {
      if short in ix.userIDByShort {
        P.AllIdle(pipe.workers, Pair(ix.userIDByShort[short], short));
      }
    }
  }

  /** Refinement: from a common index, whatever the batching, the reordering, the retries and the
      half-applied failures, once nothing is in flight every short is answered as if each accepted
      request had been applied at the moment it was accepted. */
  lemma AsynchronousDeleteRefinesSynchronous(pipe: P.State, ix: Index, events: seq<Event>, after: System, short: string)
    requires P.Init(pipe)
    requires Runs(System(pipe, ix, ix), events, after)
    requires forall p :: P.InFlight(after.pipe, p) == 0
    ensures Lookup(after.store, short) == Lookup(after.ideal, short)
    ensures after.store.shortByOrig == after.ideal.shortByOrig
  {
    var s := System(pipe, ix, ix);
    InitAhead(pipe, ix);
    RunsAhead(s, events, after);
    assert AheadAt(after, short);
  }

  /** While work is in flight the real store only lags: it never deletes what the ideal one kept. */
  lemma StoreOnlyLags(pipe: P.State, ix: Index, events: seq<Event>, after: System, short: string)
    requires P.Init(pipe)
    requires Runs(System(pipe, ix, ix), events, after)
    ensures Deleted(after.store, short) ==> Deleted(after.ideal, short)
    ensures Lookup(after.ideal, short).Ok? ==> Lookup(after.store, short) == Lookup(after.ideal, short)
  {
    var s := System(pipe, ix, ix);
    InitAhead(pipe, ix);
    RunsAhead(s, events, after);
    assert AheadAt(after, short);
  }

  function PipeEvents(events: seq<Event>): seq<P.Event> {
    if events == [] then []
    else (if events[0].Pipe? then [events[0].e] else []) + PipeEvents(events[1..])
  }

  /** Forgetting the stores, a run of the system is a run of the pipeline. */
  lemma {:induction false} PipelineRuns(s: System, events: seq<Event>, after: System)
    requires Runs(s, events, after)
    ensures P.Runs(s.pipe, PipeEvents(events), after.pipe)
    decreases |events|
  {
    if events != [] {
      PipelineRuns(Step(s, events[0]), events[1..], after);
      if events[0].Pipe? {
        assert PipeEvents(events)[1..] == PipeEvents(events[1..]);
      } else {
        assert PipeEvents(events) == PipeEvents(events[1..]);
      }
    }
  }

  /** After a clean Shutdown that left the channel empty, the store answers every lookup as the
      synchronous delete would. */
  lemma CleanShutdownIsSynchronous(pipe: P.State, ix: Index, events: seq<Event>, after: System, short: string)
    requires P.Init(pipe)
    requires Runs(System(pipe, ix, ix), events, after)
    requires after.pipe.shutdown == P.Returned(true) && after.pipe.channel == []
    ensures Lookup(after.store, short) == Lookup(after.ideal, short)
  {
    PipelineRuns(System(pipe, ix, ix), events, after);
    assert P.Reachable(after.pipe);
    forall p ensures P.InFlight(after.pipe, p) == 0 {
      P.ShutdownSettles(after.pipe, p);
      P.AcceptedWorkIsConserved(after.pipe, p);
      InRequestsConcat(after.pipe.accepted[..after.pipe.taken], after.pipe.channel, p);
      assert after.pipe.accepted[..after.pipe.taken] + after.pipe.channel == after.pipe.accepted;
    }
    AsynchronousDeleteRefinesSynchronous(pipe, ix, events, after, short);
  }

  // ---- The service catches up by itself ----

  /** A run of the pipeline is a run of the system; without new requests the ideal index stays. */
  lemma {:induction false} PipelineLifts(s: System, events: seq<P.Event>, t: P.State)
    returns (run: seq<Event>, after: System)
    requires P.Runs(s.pipe, events, t)
    ensures Runs(s, run, after) && after.pipe == t && |s.pipe.accepted| <= |t.accepted|
    ensures forall e :: e in run ==> e.Pipe?
    ensures |t.accepted| == |s.pipe.accepted| ==> after.ideal == s.ideal
    decreases |events|
  {
    run, after := [], s;
    if events != [] {
      var first := Pipe(events[0], 0);
      var others;
      others, after := PipelineLifts(Step(s, first), events[1..], t);
      run := [first] + others;
      assert run[1..] == others;
    }
  }

  /** From every state of a running service there is a continuation without a Shutdown, without saves and
      without new requests, after which every lookup is answered as the synchronous delete would now. */
  lemma RunningServiceCatchesUp(pipe: P.State, ix: Index, events: seq<Event>, s: System)
    returns (run: seq<Event>, after: System)
    requires P.Init(pipe) && Runs(System(pipe, ix, ix), events, s) && s.pipe.shutdown.NotCalled?
    ensures Runs(s, run, after) && after.pipe.shutdown.NotCalled? && after.ideal == s.ideal
    ensures forall e :: e in run ==> e.Pipe?
    ensures forall short :: Lookup(after.store, short) == Lookup(s.ideal, short)
  {
    PipelineRuns(System(pipe, ix, ix), events, s);
    assert P.Reachable(s.pipe);
    var t := DeleteProgress.ServiceCanServeAll(s.pipe);
    var steps :| P.Runs(s.pipe, steps, t);
    run, after := PipelineLifts(s, steps, t);
    InitAhead(pipe, ix);
    RunsAhead(System(pipe, ix, ix), events, s);
    RunsAhead(s, run, after);
    forall short ensures Lookup(after.store, short) == Lookup(s.ideal, short) {
      assert AheadAt(after, short);
    }
  }

  /** A call that reports failure may have applied any beginning of its list, a successful one has applied
      all of it. */
  lemma AnyPrefixMayBeApplied(s: System, who: P.Flusher, user: string, k: nat)
    requires P.HasFlush(s.pipe, who) && P.FlushOf(s.pipe, who).failed.None? && user in P.FlushOf(s.pipe, who).rest
    requires k <= |P.FlushOf(s.pipe, who).rest[user]|
    ensures var shorts := P.FlushOf(s.pipe, who).rest[user];
      && Enabled(s, Pipe(P.Call(who, user, false), k)) && Enabled(s, Pipe(P.Call(who, user, true), k))
      && Step(s, Pipe(P.Call(who, user, false), k)).store == MarkDeleted(s.store, user, shorts[..k])
      && Step(s, Pipe(P.Call(who, user, true), k)).store == MarkDeleted(s.store, user, shorts)
  {
  }
}
