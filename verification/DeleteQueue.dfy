/** The shared map of pending deletions, and the flush loops that empty it. */
module DeleteQueue {
  import opened Model

  /** One accepted call: the user and the shorts to delete. */
  datatype Request = Request(user: string, shorts: seq<string>)

  /** A single piece of work: one short of one user. */
  datatype Pair = Pair(user: string, short: string)

  type Items = map<string, seq<string>>

  function ListOf(items: Items, user: string): seq<string> {
    if user in items then items[user] else []
  }

  function Enqueue(items: Items, req: Request): Items {
    items[req.user := ListOf(items, req.user) + req.shorts]
  }

  // ---- Counting work: how often a pair occurs ----

  function InRequest(req: Request, p: Pair): nat {
    if req.user == p.user then multiset(req.shorts)[p.short] else 0
  }

  function InItems(items: Items, p: Pair): nat {
    multiset(ListOf(items, p.user))[p.short]
  }

  function InRequests(reqs: seq<Request>, p: Pair): nat {
    if reqs == [] then 0 else InRequests(reqs[..|reqs| - 1], p) + InRequest(reqs[|reqs| - 1], p)
  }

  lemma EnqueueCounts(items: Items, req: Request, p: Pair)
    ensures InItems(Enqueue(items, req), p) == InItems(items, p) + InRequest(req, p)
  {
  }

  lemma TakeOutCounts(items: Items, user: string, p: Pair)
    requires user in items
    ensures InItems(items, p) == InItems(items - {user}, p) + InRequest(Request(user, items[user]), p)
  {
  }

  lemma InRequestsAppend(reqs: seq<Request>, req: Request, p: Pair)
    ensures InRequests(reqs + [req], p) == InRequests(reqs, p) + InRequest(req, p)
  {
    assert (reqs + [req])[..|reqs|] == reqs;
  }

  lemma {:induction false} InRequestsConcat(a: seq<Request>, b: seq<Request>, p: Pair)
    ensures InRequests(a + b, p) == InRequests(a, p) + InRequests(b, p)
  {
    if b == [] {
      assert a + b == a;
    } else {
      var n := |b| - 1;
      assert (a + b)[..|a + b| - 1] == a + b[..n];
      InRequestsConcat(a, b[..n], p);
    }
  }

  /** A pair is counted exactly when some request of its user names its short. */
  lemma {:induction false} InRequestsMeans(reqs: seq<Request>, p: Pair)
    ensures 0 < InRequests(reqs, p) <==>
      exists i :: 0 <= i < |reqs| && reqs[i].user == p.user && p.short in reqs[i].shorts
  {
    if reqs != [] {
      var n := |reqs| - 1;
      InRequestsMeans(reqs[..n], p);
      if 0 < InRequests(reqs[..n], p) {
        var i :| 0 <= i < n && reqs[..n][i].user == p.user && p.short in reqs[..n][i].shorts;
        assert reqs[i] == reqs[..n][i];
      }
      if i :| 0 <= i < |reqs| && reqs[i].user == p.user && p.short in reqs[i].shorts {
        if i < n {
          assert reqs[..n][i] == reqs[i];
        }
      }
    }
  }

  // ---- The pending count ----

  /** All positions of all lists of the given users. */
  function Positions(items: Items, users: set<string>): set<(string, int)> {
    set u, i | u in users && u in items && 0 <= i < |items[u]| :: (u, i)
  }

  function Total(items: Items): nat {
    |Positions(items, items.Keys)|
  }

  lemma {:induction false} RowSize(user: string, n: nat)
    ensures |set i | 0 <= i < n :: (user, i)| == n
  {
    if 0 < n {
      RowSize(user, n - 1);
      assert (set i | 0 <= i < n :: (user, i)) == (set i | 0 <= i < n - 1 :: (user, i)) + {(user, n - 1)};
    }
  }

  lemma PositionsAdd(items: Items, users: set<string>, user: string)
    requires user in items && user !in users
    ensures |Positions(items, users + {user})| == |Positions(items, users)| + |items[user]|
  {
    var row := set i | 0 <= i < |items[user]| :: (user, i);
    RowSize(user, |items[user]|);
    assert Positions(items, users + {user}) == Positions(items, users) + row;
    assert Positions(items, users) !! row;
  }

  /** The count is zero exactly when no pair is left, even though users with empty lists may remain. */
  lemma TotalZero(items: Items)
    ensures Total(items) == 0 <==> forall p :: InItems(items, p) == 0
  {
    if p :| InItems(items, p) != 0 {
      assert (p.user, 0) in Positions(items, items.Keys);
    }
    if Positions(items, items.Keys) != {} {
      var x :| x in Positions(items, items.Keys);
      assert InItems(items, Pair(x.0, items[x.0][x.1])) != 0;
    }
  }

  // ---- A repository that may fail ----

  datatype Faults = AtMost(k: nat) | Unbounded

  ghost predicate FewerFaults(before: Faults, after: Faults) {
    before.AtMost? ==> after.AtMost? && after.k < before.k
  }

  ghost predicate NoMoreFaults(before: Faults, after: Faults) {
    if before.AtMost? then after.AtMost? && after.k <= before.k else after.Unbounded?
  }

  class FaultyRepository {
    /** How many more calls may fail. */
    var faults: Faults
    /** The calls that succeeded, in order. */
    var served: seq<Request>

    constructor (faults: Faults)
      ensures this.faults == faults && served == []
    {
      this.faults, served := faults, [];
    }

    method DeleteUserURLs(user: string, shorts: seq<string>) returns (ok: bool)
      modifies this
      ensures ok ==> served == old(served) + [Request(user, shorts)] && faults == old(faults)
      ensures !ok ==> served == old(served) && NoMoreFaults(old(faults), faults) && FewerFaults(old(faults), faults)
    {
      var fails: bool := *;
      if fails && faults != AtMost(0) {
        if faults.AtMost? {
          faults := AtMost(faults.k - 1);
        }
        return false;
      }
      served := served + [Request(user, shorts)];
      return true;
    }
  }

  /** What one user's part of a flush conserves, whether the call succeeded or the list was put back. */
  lemma FlushOneUser(items: Items, batch: Items, unseen: set<string>, served: seq<Request>, user: string, p: Pair)
    requires user in unseen && unseen <= batch.Keys
    ensures var req := Request(user, batch[user]);
      var left := InUsers(batch, unseen - {user}, p);
      && InItems(items, p) + left + InRequests(served + [req], p)
        == InItems(items, p) + InUsers(batch, unseen, p) + InRequests(served, p)
      && InItems(Enqueue(items, req), p) + left + InRequests(served, p)
        == InItems(items, p) + InUsers(batch, unseen, p) + InRequests(served, p)
  {
    InRequestsAppend(served, Request(user, batch[user]), p);
    EnqueueCounts(items, Request(user, batch[user]), p);
  }

  function InUsers(items: Items, users: set<string>, p: Pair): nat {
    if p.user in users then InItems(items, p) else 0
  }

  /** The context is still live when the last of these rounds begins; a round polls it twice. */
  predicate LastsRounds(deadline: Deadline, rounds: nat) {
    deadline.After? ==> 2 * rounds < deadline.polls + 2
  }

  predicate FewFaults(faults: Faults, limit: nat) {
    faults.AtMost? && faults.k < limit
  }

  // ---- The queue ----

  class Queue {
    var items: Items

    constructor ()
      ensures items == map[]
    {
      items := map[];
    }

    method EnqueueDelete(req: Request)
      modifies this
      ensures items == Enqueue(old(items), req)
    {
      var list := if req.user in items then items[req.user] else [];
      items := items[req.user := list + req.shorts];
    }

    method PopDeleteBatch() returns (batch: Items)
      modifies this
      ensures batch == old(items) && items == map[]
    {
      batch := items;
      items := map[];
    }

    method PendingDeleteCount() returns (count: nat)
      ensures count == Total(items)
      ensures count == 0 <==> forall p :: InItems(items, p) == 0
    {
      count := 0;
      var unseen := items.Keys;
      while unseen != {}
        invariant unseen <= items.Keys
        invariant count == |Positions(items, items.Keys - unseen)|
        decreases unseen
      {
        var user :| user in unseen;
        PositionsAdd(items, items.Keys - unseen, user);
        assert items.Keys - unseen + {user} == items.Keys - (unseen - {user});
        count := count + |items[user]|;
        unseen := unseen - {user};
      }
      assert items.Keys - unseen == items.Keys;
      TotalZero(items);
    }

    /** One pass over everything queued. A user's list is either served by one successful call or
        back in the queue unchanged, and work left over means the repository failed. */
    method FlushDeleteQueueOnce(repo: FaultyRepository)
      modifies this, repo
      ensures forall u :: u in items ==> u in old(items) && items[u] == old(items)[u]
      ensures forall p ::
        InItems(items, p) + InRequests(repo.served, p) == old(InItems(items, p) + InRequests(repo.served, p))
      ensures NoMoreFaults(old(repo.faults), repo.faults)
      ensures items != map[] ==> FewerFaults(old(repo.faults), repo.faults)
    {
      var batch := PopDeleteBatch();
      var unseen := batch.Keys;
      while unseen != {}
        invariant unseen <= batch.Keys && items.Keys <= batch.Keys - unseen
        invariant forall u :: u in items ==> items[u] == batch[u]
        invariant forall p ::
          InItems(items, p) + InUsers(batch, unseen, p) + InRequests(repo.served, p)
          == old(InItems(items, p) + InRequests(repo.served, p))
        invariant NoMoreFaults(old(repo.faults), repo.faults)
        invariant items != map[] ==> FewerFaults(old(repo.faults), repo.faults)
        decreases unseen
      {
        var user :| user in unseen;
        ghost var itemsBefore, servedBefore := items, repo.served;
        var ok := repo.DeleteUserURLs(user, batch[user]);
        if !ok {
          EnqueueDelete(Request(user, batch[user]));
        }
        forall p ensures
          InItems(items, p) + InUsers(batch, unseen - {user}, p) + InRequests(repo.served, p)
          == InItems(itemsBefore, p) + InUsers(batch, unseen, p) + InRequests(servedBefore, p)
        {
          FlushOneUser(itemsBefore, batch, unseen, servedBefore, user, p);
        }
        unseen := unseen - {user};
      }
    }

    /** Flushing until nothing is pending, observed for at most `limit` rounds; with a context that
        never ends and a repository that always fails, no number of rounds is enough. With a live
        context and at most `k` failing calls it succeeds within `k + 1` rounds; it gives up only once
        the context is done. */
    method FlushDeleteQueueUntilEmpty(repo: FaultyRepository, ctx: Context, limit: nat)
      returns (ended: bool, err: Option<Error>, rounds: nat)
      modifies this, repo, ctx
      ensures rounds <= limit && (!ended ==> rounds == limit)
      ensures ended && err == None ==> Total(items) == 0
      ensures ended && err != None ==> err == Some(Canceled) && ctx.deadline.Done()
      ensures FewFaults(old(repo.faults), limit) && LastsRounds(old(ctx.deadline), old(repo.faults).k + 1) ==>
        ended && err == None
      ensures old(repo.faults).AtMost? ==> repo.faults.AtMost? && rounds + repo.faults.k <= old(repo.faults).k + 1
      ensures 0 < limit && !LastsRounds(old(ctx.deadline), limit) ==> ended
      ensures forall p ::
        InItems(items, p) + InRequests(repo.served, p) == old(InItems(items, p) + InRequests(repo.served, p))
    {
      rounds := 0;
      ghost var start, faults := ctx.deadline, repo.faults;
      while rounds < limit
        invariant rounds <= limit
        invariant ctx.deadline == start.Skip(2 * rounds)
        invariant 0 < rounds ==> LastsRounds(start, rounds)
        invariant NoMoreFaults(faults, repo.faults)
        invariant faults.AtMost? ==> rounds + repo.faults.k <= faults.k
        invariant forall p ::
          InItems(items, p) + InRequests(repo.served, p) == old(InItems(items, p) + InRequests(repo.served, p))
      {
        SkipStep(start, 2 * rounds);
        SkipStep(start, 2 * rounds + 1);
        var begun;
        begun, ended, err := FlushRound(repo, ctx);
        rounds := if begun then rounds + 1 else rounds;
        if ended {
          return;
        }
      }
      return false, None, rounds;
    }

    /** One turn of the loop: a look at the context, a flush, a look at what is pending, and a wait
        that the context may cut short. */
    method FlushRound(repo: FaultyRepository, ctx: Context) returns (begun: bool, ended: bool, err: Option<Error>)
      modifies this, repo, ctx
      ensures begun <==> !old(ctx.deadline).Done()
      ensures ended && err == None ==> begun && Total(items) == 0
      ensures ended && err != None ==> err == Some(Canceled) && ctx.deadline.Done()
      ensures ended && err != None && begun ==> old(ctx.deadline).Next().Done()
      ensures !ended ==> begun && ctx.deadline == old(ctx.deadline).Next().Next()
      ensures NoMoreFaults(old(repo.faults), repo.faults)
      ensures begun && !(ended && err == None) ==> FewerFaults(old(repo.faults), repo.faults)
      ensures !begun ==> ended && err != None
      ensures forall p ::
        InItems(items, p) + InRequests(repo.served, p) == old(InItems(items, p) + InRequests(repo.served, p))
    {
      var done := ctx.Poll();
      if done {
        return false, true, Some(Canceled);
      }
      FlushDeleteQueueOnce(repo);
      var count := PendingDeleteCount();
      if count == 0 {
        return true, true, None;
      }
      done := ctx.Poll();
      // The timer may fire at the same moment as the cancellation, and either may win.
      var cancelWins: bool := *;
      if done && cancelWins {
        return true, true, Some(Canceled);
      }
      return true, false, None;
    }
  }
}
