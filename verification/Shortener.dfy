/** Batch shortening: deduplicate, look up, create, save, scatter back into the input order. */
module Shortener {
  import opened Model
  import opened InMemory
  import Base64Url

  // ---- Deduplication ----

  /** The distinct originals, in order of first occurrence. */
  function Uniques(originals: seq<string>): seq<string> {
    if originals == [] then []
    else
      var u, o := Uniques(originals[..|originals| - 1]), originals[|originals| - 1];
      if o in u then u else u + [o]
  }

  /** Deduplication keeps every original, adds none, and repeats none. */
  lemma {:induction false} UniquesAreTheOriginals(originals: seq<string>)
    ensures forall o :: o in Uniques(originals) <==> o in originals
    ensures forall i, j :: 0 <= i < j < |Uniques(originals)| ==> Uniques(originals)[i] != Uniques(originals)[j]
    ensures |Uniques(originals)| <= |originals|
  {
    if originals != [] {
      var n := |originals| - 1;
      UniquesAreTheOriginals(originals[..n]);
      assert originals == originals[..n] + [originals[n]];
    }
  }

  function Position(u: seq<string>, o: string): (i: nat)
    requires o in u
    ensures i < |u| && u[i] == o
  {
    if u[|u| - 1] == o then |u| - 1 else assert u == u[..|u| - 1] + [u[|u| - 1]]; Position(u[..|u| - 1], o)
  }

  function AbsoluteShortURL(baseURL: string, short: string): string {
    baseURL + "/" + short
  }

  ghost predicate IndexOf(m: map<string, nat>, u: seq<string>) {
    && (forall o :: o in m ==> m[o] < |u| && u[m[o]] == o)
    && (forall k :: 0 <= k < |u| ==> u[k] in m)
  }

  /** Each index leads from an input position to its original. */
  ghost predicate PointsTo(indices: seq<nat>, u: seq<string>, originals: seq<string>) {
    && |indices| <= |originals|
    && (forall j :: 0 <= j < |indices| ==> indices[j] < |u| && u[indices[j]] == originals[j])
  }

  lemma DeduplicateStep(originals: seq<string>, i: nat, m: map<string, nat>, indices: seq<nat>)
    requires i < |originals| && |indices| == i
    requires IndexOf(m, Uniques(originals[..i])) && PointsTo(indices, Uniques(originals[..i]), originals)
    ensures var u, o := Uniques(originals[..i]), originals[i];
      if o in m then Uniques(originals[..i + 1]) == u && PointsTo(indices + [m[o]], u, originals)
      else
        && Uniques(originals[..i + 1]) == u + [o]
        && IndexOf(m[o := |u|], u + [o])
        && PointsTo(indices + [|u|], u + [o], originals)
  {
    assert originals[..i + 1][..i] == originals[..i];
  }

  // ---- What a batch plans to do ----

  /** The short of each distinct original, and the records to create. */
  datatype Plan = Plan(shorts: seq<string>, toSave: seq<URL>)

  /** One lookup per original: a done context makes it look unknown, and every unknown original gets
      the next generated id. */
  function PlanFor(known: map<string, string>, deadline: Deadline, ids: nat -> string, next: nat, user: string,
                   u: seq<string>): (p: Plan)
    ensures |p.shorts| == |u| && |p.toSave| <= |u|
  {
    if u == [] then Plan([], [])
    else
      var n := |u| - 1;
      var p := PlanFor(known, deadline, ids, next, user, u[..n]);
      if deadline.Skip(n).Done() || u[n] !in known then
        var id := ids(next + |p.toSave|);
        Plan(p.shorts + [id], p.toSave + [URL("", id, u[n], user, false)])
      else
        Plan(p.shorts + [known[u[n]]], p.toSave)
  }

  /** One more lookup. */
  lemma PlanStep(known: map<string, string>, deadline: Deadline, ids: nat -> string, next: nat, user: string,
                 u: seq<string>, i: nat, plan: Plan, short: string, created: Option<URL>)
    returns (longer: Plan)
    requires i < |u| && plan == PlanFor(known, deadline, ids, next, user, u[..i])
    requires if deadline.Skip(i).Done() || u[i] !in known then
        short == ids(next + |plan.toSave|) && created == Some(URL("", short, u[i], user, false))
      else short == known[u[i]] && created == None
    ensures longer == Plan(plan.shorts + [short], if created.Some? then plan.toSave + [created.value] else plan.toSave)
    ensures longer == PlanFor(known, deadline, ids, next, user, u[..i + 1])
  {
    longer := PlanFor(known, deadline, ids, next, user, u[..i + 1]);
    assert u[..i + 1][..i] == u[..i];
  }

  // ---- The service ----

  /** Six random bytes. */
  type Draw = s: seq<Base64Url.Byte> | |s| == 6 witness [0, 0, 0, 0, 0, 0]

  /** The ids made of successive draws. */
  function IdsOf(draws: nat -> Draw): nat -> string {
    (i: nat) => Base64Url.Encode(draws(i))
  }

  /** An id has eight characters of the URL alphabet, and ids repeat exactly when draws do. */
  lemma IdsDiffer(draws: nat -> Draw, i: nat, j: nat)
    ensures |IdsOf(draws)(i)| == 8 && forall c :: c in IdsOf(draws)(i) ==> Base64Url.IsDigit(c)
    ensures IdsOf(draws)(i) == IdsOf(draws)(j) <==> draws(i) == draws(j)
  {
    Base64Url.EncodeShape(draws(i));
    Base64Url.EncodeDiffers(draws(i), draws(j));
  }

  class IdSource {
    const draws: nat -> Draw
    var next: nat

    constructor (draws: nat -> Draw)
      ensures this.draws == draws && next == 0
    {
      this.draws := draws;
      next := 0;
    }

    function Ids(): nat -> string {
      IdsOf(draws)
    }

    method GenerateID() returns (id: string)
      modifies this
      ensures id == Ids()(old(next)) && next == old(next) + 1
      ensures |id| == 8 && forall c :: c in id ==> Base64Url.IsDigit(c)
    {
      id := Base64Url.Encode(draws(next));
      IdsDiffer(draws, next, next);
      next := next + 1;
    }
  }

  class ShortenerService {
    const repo: InMemoryStorage
    const source: IdSource
    const baseURL: string

    constructor (repo: InMemoryStorage, source: IdSource, baseURL: string)
      ensures this.repo == repo && this.source == source && this.baseURL == baseURL
    {
      this.repo, this.source, this.baseURL := repo, source, baseURL;
    }

    method GetAbsoluteShortURL(short: string) returns (url: string)
      ensures url == AbsoluteShortURL(baseURL, short)
    {
      url := baseURL + ['/'] + short;
    }

    /** A single original always gets a new short, known or not. */
    method Shorten(user: Option<string>, orig: string) returns (url: string)
      modifies repo, source
      ensures source.next == old(source.next) + 1
      ensures url == AbsoluteShortURL(baseURL, source.Ids()(old(source.next)))
      ensures repo.Contents()
        == SaveURL(old(repo.Contents()), URL("", source.Ids()(old(source.next)), orig, UserOf(user), false))
      ensures var id := source.Ids()(old(source.next));
        && id in repo.userIDByShort
        && repo.userIDByShort[id] == (match user case None => "" case Some(name) => name)
    {
      var model := CreateModel(user, orig);
      repo.Save(model);
      url := GetAbsoluteShortURL(model.short);
    }

    method CreateModel(user: Option<string>, orig: string) returns (u: URL)
      modifies source
      ensures source.next == old(source.next) + 1
      ensures u == URL("", source.Ids()(old(source.next)), orig, UserOf(user), false)
      ensures u.userID == (match user case None => "" case Some(name) => name)
    {
      var short := source.GenerateID();
      var userID := if user.Some? then user.value else "";
      u := URL("", short, orig, userID, false);
    }

    method Deduplicate(originals: seq<string>) returns (uniques: seq<string>, indices: array<nat>)
      ensures uniques == Uniques(originals)
      ensures fresh(indices) && indices.Length == |originals|
      ensures PointsTo(indices[..], uniques, originals)
    {
      var uniqMap: map<string, nat> := map[];
      uniques := [];
      indices := new nat[|originals|];
      ghost var filled: seq<nat> := [];
      for i := 0 to |originals|
        invariant |filled| == i && forall j :: 0 <= j < i ==> indices[j] == filled[j]
        invariant uniques == Uniques(originals[..i])
        invariant IndexOf(uniqMap, uniques) && PointsTo(filled, uniques, originals)
      {
        DeduplicateStep(originals, i, uniqMap, filled);
        var orig := originals[i];
        var idx := |uniques|;
        if orig in uniqMap {
          idx := uniqMap[orig];
        } else {
          uniqMap := uniqMap[orig := idx];
          uniques := uniques + [orig];
        }
        indices[i] := idx;
        filled := filled + [idx];
      }
      assert originals[..|originals|] == originals;
      assert indices[..] == filled;
    }

    /** The short of one original: known, or newly created with its record. */
    method ShortFor(ctx: Context, user: Option<string>, orig: string) returns (short: string, created: Option<URL>)
      modifies ctx, source
      ensures ctx.deadline == old(ctx.deadline).Next()
      ensures if old(ctx.deadline).Done() || orig !in repo.shortByOrig then
          && source.next == old(source.next) + 1
          && short == source.Ids()(old(source.next))
          && created == Some(URL("", short, orig, UserOf(user), false))
        else
          source.next == old(source.next) && short == repo.shortByOrig[orig] && created == None
    {
      var known := repo.GetShort(ctx, orig);
      if known.Some? {
        return known.value, None;
      }
      var model := CreateModel(user, orig);
      return model.short, Some(model);
    }

    method LookUp(ctx: Context, user: Option<string>, uniques: seq<string>)
      returns (shorts: seq<string>, toSave: seq<URL>)
      modifies ctx, source
      ensures ctx.deadline == old(ctx.deadline).Skip(|uniques|)
      ensures Plan(shorts, toSave) ==
        PlanFor(repo.shortByOrig, old(ctx.deadline), source.Ids(), old(source.next), UserOf(user), uniques)
      ensures source.next == old(source.next) + |toSave|
    {
      shorts, toSave := [], [];
      var i := 0;
      ghost var known, start, first, ids, name := repo.shortByOrig, ctx.deadline, source.next, source.Ids(),
        UserOf(user);
      ghost var plan := Plan([], []);
      while i < |uniques|
        invariant i <= |uniques|
        invariant ctx.deadline == start.Skip(i)
        invariant plan == Plan(shorts, toSave)
        invariant plan == PlanFor(known, start, ids, first, name, uniques[..i])
        invariant source.next == first + |toSave|
      {
        SkipStep(start, i);
        var short, created := ShortFor(ctx, user, uniques[i]);
        plan := PlanStep(known, start, ids, first, name, uniques, i, plan, short, created);
        shorts := shorts + [short];
        if created.Some? {
          toSave := toSave + [created.value];
        }
        i := i + 1;
      }
      assert uniques[..i] == uniques;
    }

    /** Every short the batch creates belongs to the user of the context, or to the empty name. */
    method ShortenBatch(ctx: Context, user: Option<string>, originals: seq<string>) returns (r: Result<seq<string>>)
      modifies repo, ctx, source
      ensures r == Err(EmptyBatch) <==> originals == []
      ensures forall s :: s in repo.userIDByShort && s !in old(repo.userIDByShort) ==>
        repo.userIDByShort[s] == (match user case None => "" case Some(name) => name)
      ensures Outcome(repo.Contents(), r) ==
        BatchOutcome(old(repo.Contents()), old(ctx.deadline), source.Ids(), old(source.next), UserOf(user), baseURL,
          originals)
    {
      if |originals| == 0 {
        return Err(EmptyBatch);
      }
      var uniques, indices := Deduplicate(originals);
      ghost var ix, deadline, next := repo.Contents(), ctx.deadline, source.next;
      var shortForUnique, toSave := LookUp(ctx, user, uniques);
      BatchOwners(ix, deadline, source.Ids(), next, UserOf(user), baseURL, originals);
      var err := repo.SaveBatch(ctx, toSave);
      if err.Some? {
        return Err(err.value);
      }
      var result := Restore(Plan(shortForUnique, toSave), originals, indices, shortForUnique);
      return Ok(result);
    }

    /** The shorts back in the order of the input. */
    method Restore(ghost plan: Plan, originals: seq<string>, indices: array<nat>, shorts: seq<string>)
      returns (result: seq<string>)
      requires |plan.shorts| == |Uniques(originals)| && shorts == plan.shorts
      requires indices.Length == |originals| && PointsTo(indices[..], Uniques(originals), originals)
      ensures result == Scatter(baseURL, plan, originals)
    {
      UniquesAreTheOriginals(originals);
      var buffer := new string[|originals|];
      for i := 0 to |originals|
        invariant forall j :: 0 <= j < i ==> buffer[j] == Scatter(baseURL, plan, originals)[j]
      {
        assert indices[..][i] == indices[i];
        buffer[i] := baseURL + "/" + shorts[indices[i]];
      }
      assert buffer[..] == Scatter(baseURL, plan, originals);
      result := buffer[..];
    }
  }

  function UserOf(user: Option<string>): string {
    if user.Some? then user.value else ""
  }

  /** The result in the order of the input. */
  function Scatter(baseURL: string, plan: Plan, originals: seq<string>): seq<string>
    requires |plan.shorts| == |Uniques(originals)|
  {
    UniquesAreTheOriginals(originals);
    seq(|originals|, i requires 0 <= i < |originals| =>
      AbsoluteShortURL(baseURL, plan.shorts[Position(Uniques(originals), originals[i])]))
  }

  /** After a single original was shortened under a new id, that id is its short and resolves to it,
      and every other short still answers what it did, an earlier short of the same original included. */
  lemma ShortenReads(ix: Index, id: string, orig: string, user: string, short: string)
    requires Consistent(ix) && Linked(ix) && id !in ix.origByShort
    ensures var after := SaveURL(ix, URL("", id, orig, user, false));
      && Consistent(after) && Linked(after)
      && orig in after.shortByOrig && after.shortByOrig[orig] == id
      && Lookup(after, short) == if short == id then Ok(URL("", id, orig, "", false)) else Lookup(ix, short)
  {
    SaveKeepsLinkedExactly(ix, URL("", id, orig, user, false));
  }

  // ---- What a batch does ----

  datatype Outcome = Outcome(index: Index, result: Result<seq<string>>)

  function BatchOutcome(ix: Index, deadline: Deadline, ids: nat -> string, next: nat, user: string, baseURL: string,
                        originals: seq<string>): Outcome
  {
    if originals == [] then Outcome(ix, Err(EmptyBatch))
    else
      var u := Uniques(originals);
      var plan := PlanFor(ix.shortByOrig, deadline, ids, next, user, u);
      var k := Saved(deadline.Skip(|u|), |plan.toSave|);
      Outcome(SaveAll(ix, plan.toSave[..k]),
              if k == |plan.toSave| then Ok(Scatter(baseURL, plan, originals)) else Err(Canceled))
  }

  // ---- The plan ----

  /** How the short of the i-th distinct original was chosen: its known short, or the t-th new record. */
  lemma {:induction false} PlanAt(known: map<string, string>, deadline: Deadline, ids: nat -> string, next: nat,
                                  user: string, u: seq<string>, i: nat)
    returns (t: nat)
    requires i < |u|
    ensures var p := PlanFor(known, deadline, ids, next, user, u);
      if u[i] in known && !deadline.Skip(i).Done() then p.shorts[i] == known[u[i]]
      else t < |p.toSave| && p.toSave[t] == URL("", ids(next + t), u[i], user, false) && p.shorts[i] == ids(next + t)
  {
    var n := |u| - 1;
    if i < n {
      t := PlanAt(known, deadline, ids, next, user, u[..n], i);
    } else {
      t := |PlanFor(known, deadline, ids, next, user, u[..n]).toSave|;
    }
  }

  /** Where the t-th new record comes from. */
  lemma {:induction false} PlanCreates(known: map<string, string>, deadline: Deadline, ids: nat -> string, next: nat,
                                       user: string, u: seq<string>, t: nat)
    returns (i: nat)
    requires t < |PlanFor(known, deadline, ids, next, user, u).toSave|
    ensures i < |u| && (u[i] !in known || deadline.Skip(i).Done())
    ensures PlanFor(known, deadline, ids, next, user, u).toSave[t] == URL("", ids(next + t), u[i], user, false)
  {
    var n := |u| - 1;
    if t < |PlanFor(known, deadline, ids, next, user, u[..n]).toSave| {
      i := PlanCreates(known, deadline, ids, next, user, u[..n], t);
    } else {
      i := n;
    }
  }

  lemma {:induction false} PlanOriginalsDiffer(known: map<string, string>, deadline: Deadline, ids: nat -> string,
                                               next: nat, user: string, u: seq<string>)
    requires forall i, j :: 0 <= i < j < |u| ==> u[i] != u[j]
    ensures DistinctOriginals(PlanFor(known, deadline, ids, next, user, u).toSave)
  {
    if u != [] {
      var n := |u| - 1;
      PlanOriginalsDiffer(known, deadline, ids, next, user, u[..n]);
      var s := PlanFor(known, deadline, ids, next, user, u[..n]).toSave;
      forall t | 0 <= t < |s| ensures s[t].original != u[n] {
        var i := PlanCreates(known, deadline, ids, next, user, u[..n], t);
        assert s[t].original == u[i];
      }
      var all := PlanFor(known, deadline, ids, next, user, u).toSave;
      assert all == s || all == s + [URL("", ids(next + |s|), u[n], user, false)];
    }
  }

  /** Polling never un-does a context: live at the end means live at every lookup before. */
  lemma {:induction false} LiveBefore(d: Deadline, i: nat, n: nat)
    requires i <= n && !d.Skip(n).Done()
    ensures !d.Skip(i).Done()
    decreases i
  {
    if 0 < i {
      LiveBefore(d.Next(), i - 1, n - 1);
    }
  }

  /** The next `n` ids are new to the index and pairwise distinct. */
  ghost predicate FreshIds(ix: Index, ids: nat -> string, next: nat, n: nat) {
    && (forall i: nat :: next <= i < next + n ==> ids(i) !in ix.origByShort)
    && (forall i: nat, j: nat :: next <= i < j < next + n ==> ids(i) != ids(j))
  }

  /** The records a batch really stores: they belong to originals the index does not know yet. */
  lemma StoredAreUnknown(ix: Index, deadline: Deadline, ids: nat -> string, next: nat, user: string, u: seq<string>,
                         t: nat)
    requires t < Saved(deadline.Skip(|u|), |PlanFor(ix.shortByOrig, deadline, ids, next, user, u).toSave|)
    ensures PlanFor(ix.shortByOrig, deadline, ids, next, user, u).toSave[t].original in u
    ensures PlanFor(ix.shortByOrig, deadline, ids, next, user, u).toSave[t].original !in ix.shortByOrig
  {
    var i := PlanCreates(ix.shortByOrig, deadline, ids, next, user, u, t);
    LiveBefore(deadline, i, |u|);
  }

  // ---- Main results ----

  /** Cancellation safety: whatever the outcome and whenever the context is cancelled, every original
      that had a short keeps it. */
  lemma KnownOriginalsKeepTheirShort(ix: Index, deadline: Deadline, ids: nat -> string, next: nat, user: string,
                                     baseURL: string, originals: seq<string>, orig: string)
    requires orig in ix.shortByOrig
    ensures var after := BatchOutcome(ix, deadline, ids, next, user, baseURL, originals).index;
      orig in after.shortByOrig && after.shortByOrig[orig] == ix.shortByOrig[orig]
  {
    if originals != [] {
      var u := Uniques(originals);
      var toSave := PlanFor(ix.shortByOrig, deadline, ids, next, user, u).toSave;
      var k := Saved(deadline.Skip(|u|), |toSave|);
      forall x | x in toSave[..k] ensures x.original != orig {
        var t :| 0 <= t < k && toSave[t] == x;
        StoredAreUnknown(ix, deadline, ids, next, user, u, t);
      }
      ShortOfElsewhere(ix, toSave[..k], orig);
    }
  }

  /** The short a successful batch reports for an original. */
  function ReportedShort(ix: Index, deadline: Deadline, ids: nat -> string, next: nat, user: string,
                         originals: seq<string>, i: nat): string
    requires i < |originals|
  {
    UniquesAreTheOriginals(originals);
    var plan := PlanFor(ix.shortByOrig, deadline, ids, next, user, Uniques(originals));
    plan.shorts[Position(Uniques(originals), originals[i])]
  }

  /** After the saves the original's short is this one, and it resolves to the original unless it had
      been deleted. */
  predicate ReadsAs(before: Index, after: Index, o: string, short: string) {
    && o in after.shortByOrig && after.shortByOrig[o] == short
    && Lookup(after, short) == if Deleted(before, short) then Err(IsDeleted) else Ok(URL("", short, o, "", false))
  }

  lemma KnownReads(ix: Index, urls: seq<URL>, o: string)
    requires Linked(ix) && Fresh(ix, urls) && o in ix.shortByOrig && forall u :: u in urls ==> u.original != o
    ensures ReadsAs(ix, SaveAll(ix, urls), o, ix.shortByOrig[o])
  {
    ShortOfElsewhere(ix, urls, o);
    SaveAllElsewhere(ix, urls, ix.shortByOrig[o]);
  }

  lemma NewReads(ix: Index, urls: seq<URL>, t: nat)
    requires Consistent(ix) && Fresh(ix, urls) && DistinctOriginals(urls) && forall u :: u in urls ==> !u.deletedFlag
    requires t < |urls|
    ensures ReadsAs(ix, SaveAll(ix, urls), urls[t].original, urls[t].short)
  {
    ShortOfAt(ix, urls, t);
    SaveAllAt(ix, urls, t);
    PlainRecordsDeleteNothing(ix, urls);
  }

  /** A successful batch stores all its records. */
  lemma SuccessStoresAll(ix: Index, deadline: Deadline, ids: nat -> string, next: nat, user: string, baseURL: string,
                         originals: seq<string>)
    requires BatchOutcome(ix, deadline, ids, next, user, baseURL, originals).result.Ok?
    ensures var plan := PlanFor(ix.shortByOrig, deadline, ids, next, user, Uniques(originals));
      BatchOutcome(ix, deadline, ids, next, user, baseURL, originals) ==
        Outcome(SaveAll(ix, plan.toSave), Ok(Scatter(baseURL, plan, originals)))
  {
    var toSave := PlanFor(ix.shortByOrig, deadline, ids, next, user, Uniques(originals)).toSave;
    assert toSave[..|toSave|] == toSave;
  }

  /** The plan's short for a distinct original, once all its records are stored. */
  lemma PlannedReads(ix: Index, deadline: Deadline, ids: nat -> string, next: nat, user: string, u: seq<string>,
                     pos: nat)
    requires Consistent(ix) && Linked(ix) && FreshIds(ix, ids, next, |u|) && pos < |u|
    requires forall i, j :: 0 <= i < j < |u| ==> u[i] != u[j]
    requires var toSave := PlanFor(ix.shortByOrig, deadline, ids, next, user, u).toSave;
      Saved(deadline.Skip(|u|), |toSave|) == |toSave|
    ensures var plan := PlanFor(ix.shortByOrig, deadline, ids, next, user, u);
      && ReadsAs(ix, SaveAll(ix, plan.toSave), u[pos], plan.shorts[pos])
      && (u[pos] in ix.shortByOrig ==> plan.shorts[pos] == ix.shortByOrig[u[pos]])
  {
    var toSave := PlanFor(ix.shortByOrig, deadline, ids, next, user, u).toSave;
    NewShorts(ix, deadline, ids, next, user, u);
    var t := PlanAt(ix.shortByOrig, deadline, ids, next, user, u, pos);
    if u[pos] in ix.shortByOrig && !deadline.Skip(pos).Done() {
      forall x | x in toSave ensures x.original != u[pos] {
        var j :| 0 <= j < |toSave| && toSave[j] == x;
        StoredAreUnknown(ix, deadline, ids, next, user, u, j);
      }
      KnownReads(ix, toSave, u[pos]);
    } else {
      StoredAreUnknown(ix, deadline, ids, next, user, u, t);
      PlanOriginalsDiffer(ix.shortByOrig, deadline, ids, next, user, u);
      NewReads(ix, toSave, t);
    }
  }

  /** Success, original by original: the reported short is the original's current short, a known one
      is unchanged, and it resolves to the original unless it had been deleted. */
  lemma BatchReports(ix: Index, deadline: Deadline, ids: nat -> string, next: nat, user: string, baseURL: string,
                     originals: seq<string>, i: nat)
    requires Consistent(ix) && Linked(ix) && FreshIds(ix, ids, next, |originals|) && i < |originals|
    requires BatchOutcome(ix, deadline, ids, next, user, baseURL, originals).result.Ok?
    ensures var after := BatchOutcome(ix, deadline, ids, next, user, baseURL, originals);
      var o, short := originals[i], ReportedShort(ix, deadline, ids, next, user, originals, i);
      && |after.result.value| == |originals|
      && after.result.value[i] == AbsoluteShortURL(baseURL, short)
      && o in after.index.shortByOrig && after.index.shortByOrig[o] == short
      && (o in ix.shortByOrig ==> short == ix.shortByOrig[o])
      && Lookup(after.index, short) == if Deleted(ix, short) then Err(IsDeleted) else Ok(URL("", short, o, "", false))
  {
    UniquesAreTheOriginals(originals);
    var u := Uniques(originals);
    var pos := Position(u, originals[i]);
    var plan := PlanFor(ix.shortByOrig, deadline, ids, next, user, u);
    SuccessStoresAll(ix, deadline, ids, next, user, baseURL, originals);
    PlannedReads(ix, deadline, ids, next, user, u, pos);
    ScatterAt(baseURL, plan, originals, i);
  }

  lemma ScatterAt(baseURL: string, plan: Plan, originals: seq<string>, i: nat)
    requires |plan.shorts| == |Uniques(originals)| && i < |originals| && originals[i] in Uniques(originals)
    ensures |Scatter(baseURL, plan, originals)| == |originals|
    ensures Scatter(baseURL, plan, originals)[i]
      == AbsoluteShortURL(baseURL, plan.shorts[Position(Uniques(originals), originals[i])])
  {
  }

  lemma NewShorts(ix: Index, deadline: Deadline, ids: nat -> string, next: nat, user: string, u: seq<string>)
    requires FreshIds(ix, ids, next, |u|)
    ensures var s := PlanFor(ix.shortByOrig, deadline, ids, next, user, u).toSave;
      && Fresh(ix, s)
      && (forall x :: x in s ==> !x.deletedFlag)
  {
    var s := PlanFor(ix.shortByOrig, deadline, ids, next, user, u).toSave;
    forall t | 0 <= t < |s| ensures s[t].short == ids(next + t) && !s[t].deletedFlag {
      var i := PlanCreates(ix.shortByOrig, deadline, ids, next, user, u, t);
    }
  }

  lemma {:induction false} PlainRecordsDeleteNothing(ix: Index, urls: seq<URL>)
    requires forall x :: x in urls ==> !x.deletedFlag
    ensures SaveAll(ix, urls).deletedByShort == ix.deletedByShort
  {
    if urls != [] {
      assert urls[|urls| - 1] in urls;
      PlainRecordsDeleteNothing(ix, urls[..|urls| - 1]);
    }
  }

  /** Success as a whole: equal originals get equal URLs and distinct ones distinct URLs. */
  lemma BatchIsInjective(ix: Index, deadline: Deadline, ids: nat -> string, next: nat, user: string, baseURL: string,
                         originals: seq<string>, i: nat, j: nat)
    requires Consistent(ix) && Linked(ix) && FreshIds(ix, ids, next, |originals|) && i < |originals| && j < |originals|
    requires BatchOutcome(ix, deadline, ids, next, user, baseURL, originals).result.Ok?
    ensures var r := BatchOutcome(ix, deadline, ids, next, user, baseURL, originals).result.value;
      |r| == |originals| && (r[i] == r[j] <==> originals[i] == originals[j])
  {
    BatchReports(ix, deadline, ids, next, user, baseURL, originals, i);
    BatchReports(ix, deadline, ids, next, user, baseURL, originals, j);
    var si, sj := ReportedShort(ix, deadline, ids, next, user, originals, i),
      ReportedShort(ix, deadline, ids, next, user, originals, j);
    AbsoluteURLsDiffer(baseURL, si, sj);
    BatchKeepsLinked(ix, deadline, ids, next, user, baseURL, originals);
  }

  lemma AbsoluteURLsDiffer(baseURL: string, a: string, b: string)
    ensures AbsoluteShortURL(baseURL, a) == AbsoluteShortURL(baseURL, b) <==> a == b
  {
    assert AbsoluteShortURL(baseURL, a)[|baseURL| + 1..] == a;
    assert AbsoluteShortURL(baseURL, b)[|baseURL| + 1..] == b;
  }

  /** Whatever the outcome, the index stays consistent and linked. */
  lemma BatchKeepsLinked(ix: Index, deadline: Deadline, ids: nat -> string, next: nat, user: string, baseURL: string,
                         originals: seq<string>)
    requires Consistent(ix) && Linked(ix) && FreshIds(ix, ids, next, |originals|)
    ensures var after := BatchOutcome(ix, deadline, ids, next, user, baseURL, originals).index;
      Consistent(after) && Linked(after)
  {
    UniquesAreTheOriginals(originals);
    if originals != [] {
      var u := Uniques(originals);
      NewShorts(ix, deadline, ids, next, user, u);
      var toSave := PlanFor(ix.shortByOrig, deadline, ids, next, user, u).toSave;
      var k := Saved(deadline.Skip(|u|), |toSave|);
      SaveAllLinked(ix, toSave[..k]);
      SaveAllKeeps(ix, toSave[..k]);
    }
  }

  function Unknown(ix: Index, originals: seq<string>): set<string> {
    set o | o in originals && o !in ix.shortByOrig
  }

  function Originals(urls: seq<URL>): set<string> {
    set x | x in urls :: x.original
  }

  lemma {:induction false} OriginalsSize(urls: seq<URL>)
    requires DistinctOriginals(urls)
    ensures |Originals(urls)| == |urls|
  {
    if urls != [] {
      var n := |urls| - 1;
      OriginalsSize(urls[..n]);
      assert urls == urls[..n] + [urls[n]];
      assert Originals(urls) == Originals(urls[..n]) + {urls[n].original};
    }
  }

  /** The store grows by exactly the distinct unknown originals on success, and by at most those
      otherwise. */
  lemma BatchGrowth(ix: Index, deadline: Deadline, ids: nat -> string, next: nat, user: string, baseURL: string,
                    originals: seq<string>)
    requires FreshIds(ix, ids, next, |originals|)
    ensures var after := BatchOutcome(ix, deadline, ids, next, user, baseURL, originals);
      && (after.result.Ok? ==> |after.index.origByShort| == |ix.origByShort| + |Unknown(ix, originals)|)
      && |ix.origByShort| <= |after.index.origByShort| <= |ix.origByShort| + |Unknown(ix, originals)|
  {
    if originals != [] {
      UniquesAreTheOriginals(originals);
      var u := Uniques(originals);
      var toSave := PlanFor(ix.shortByOrig, deadline, ids, next, user, u).toSave;
      var k := Saved(deadline.Skip(|u|), |toSave|);
      NewShorts(ix, deadline, ids, next, user, u);
      SaveFreshSize(ix, toSave[..k]);
      PlanOriginalsDiffer(ix.shortByOrig, deadline, ids, next, user, u);
      OriginalsSize(toSave[..k]);
      StoredOriginals(ix, deadline, ids, next, user, originals);
      SmallerSet(Originals(toSave[..k]), Unknown(ix, originals));
    }
  }

  lemma StoredOriginals(ix: Index, deadline: Deadline, ids: nat -> string, next: nat, user: string,
                        originals: seq<string>)
    ensures var u := Uniques(originals);
      var toSave := PlanFor(ix.shortByOrig, deadline, ids, next, user, u).toSave;
      var k := Saved(deadline.Skip(|u|), |toSave|);
      && Originals(toSave[..k]) <= Unknown(ix, originals)
      && (k == |toSave| ==> Originals(toSave[..k]) == Unknown(ix, originals))
  {
    UniquesAreTheOriginals(originals);
    var u := Uniques(originals);
    var toSave := PlanFor(ix.shortByOrig, deadline, ids, next, user, u).toSave;
    var k := Saved(deadline.Skip(|u|), |toSave|);
    forall x | x in toSave[..k] ensures x.original in Unknown(ix, originals) {
      var t :| 0 <= t < k && toSave[t] == x;
      StoredAreUnknown(ix, deadline, ids, next, user, u, t);
    }
    if k == |toSave| {
      forall o | o in Unknown(ix, originals) ensures o in Originals(toSave[..k]) {
        var t := PlanAt(ix.shortByOrig, deadline, ids, next, user, u, Position(u, o));
        assert toSave[..k][t].original == o;
      }
    }
  }

  // ---- Who owns what a batch creates ----

  lemma BatchOwners(ix: Index, deadline: Deadline, ids: nat -> string, next: nat, user: string, baseURL: string,
                    originals: seq<string>)
    ensures var after := BatchOutcome(ix, deadline, ids, next, user, baseURL, originals).index;
      forall s :: s in after.userIDByShort && s !in ix.userIDByShort ==> after.userIDByShort[s] == user
  {
    if originals != [] {
      var u := Uniques(originals);
      var toSave := PlanFor(ix.shortByOrig, deadline, ids, next, user, u).toSave;
      var saved := toSave[..Saved(deadline.Skip(|u|), |toSave|)];
      forall x | x in saved ensures x.userID == user {
        var t :| 0 <= t < |toSave| && toSave[t] == x;
        var i := PlanCreates(ix.shortByOrig, deadline, ids, next, user, u, t);
      }
      forall s | s in SaveAll(ix, saved).userIDByShort && s !in ix.userIDByShort
        ensures SaveAll(ix, saved).userIDByShort[s] == user
      {
        NewOwners(ix, saved, user, s);
      }
    }
  }

  /** Whoever has a batch shortened can delete what it created, and nobody else can. */
  lemma CreatedCanBeDeleted(ix: Index, deadline: Deadline, ids: nat -> string, next: nat, user: string, baseURL: string,
                            originals: seq<string>, other: string, s: string)
    requires Consistent(ix) && s !in ix.userIDByShort
    requires s in BatchOutcome(ix, deadline, ids, next, user, baseURL, originals).index.userIDByShort
    ensures var after := BatchOutcome(ix, deadline, ids, next, user, baseURL, originals).index;
      && Lookup(after, s).Ok?
      && Lookup(MarkDeleted(after, other, [s]), s) == if other == user then Err(IsDeleted) else Lookup(after, s)
  {
    BatchOwners(ix, deadline, ids, next, user, baseURL, originals);
    var u := Uniques(originals);
    var toSave := PlanFor(ix.shortByOrig, deadline, ids, next, user, u).toSave;
    var saved := toSave[..Saved(deadline.Skip(|u|), |toSave|)];
    forall x | x in saved ensures !x.deletedFlag {
      var t :| 0 <= t < |toSave| && toSave[t] == x;
      var i := PlanCreates(ix.shortByOrig, deadline, ids, next, user, u, t);
    }
    PlainRecordsDeleteNothing(ix, saved);
    SaveAllKeeps(ix, saved);
    assert s in [s];
    LookupAfterDelete(SaveAll(ix, saved), other, [s], s);
  }

  // ---- When a batch succeeds ----

  /** Exactly when a batch succeeds: it is not empty, and the context lasts for one look at each distinct
      original and one at each unknown one. */
  lemma BatchSucceedsExactly(ix: Index, deadline: Deadline, ids: nat -> string, next: nat, user: string,
                             baseURL: string, originals: seq<string>)
    ensures BatchOutcome(ix, deadline, ids, next, user, baseURL, originals).result.Ok? <==>
      originals != [] && (deadline.Never? || |Uniques(originals)| + |Unknown(ix, originals)| <= deadline.polls)
  {
    if originals != [] {
      var u := Uniques(originals);
      if deadline.After? && deadline.polls < |u| {
        DonePlanFails(ix, deadline, ids, next, user, u);
      } else {
        LivePlan(ix, deadline, ids, next, user, originals);
      }
    }
  }

  /** A context that is done at a lookup makes a record, and is done when that is saved. */
  lemma DonePlanFails(ix: Index, deadline: Deadline, ids: nat -> string, next: nat, user: string, u: seq<string>)
    requires deadline.After? && deadline.polls < |u|
    ensures var toSave := PlanFor(ix.shortByOrig, deadline, ids, next, user, u).toSave;
      Saved(deadline.Skip(|u|), |toSave|) < |toSave|
  {
    var t := PlanAt(ix.shortByOrig, deadline, ids, next, user, u, deadline.polls);
  }

  /** A plan made under a live context creates one record for each unknown original. */
  lemma LivePlan(ix: Index, deadline: Deadline, ids: nat -> string, next: nat, user: string, originals: seq<string>)
    requires deadline.Never? || |Uniques(originals)| <= deadline.polls
    ensures |PlanFor(ix.shortByOrig, deadline, ids, next, user, Uniques(originals)).toSave| == |Unknown(ix, originals)|
  {
    UniquesAreTheOriginals(originals);
    var u := Uniques(originals);
    var toSave := PlanFor(ix.shortByOrig, deadline, ids, next, user, u).toSave;
    PlanOriginalsDiffer(ix.shortByOrig, deadline, ids, next, user, u);
    OriginalsSize(toSave);
    assert Originals(toSave) == Unknown(ix, originals) by {
      forall o | o in Unknown(ix, originals) ensures o in Originals(toSave) {
        var t := PlanAt(ix.shortByOrig, deadline, ids, next, user, u, Position(u, o));
        assert toSave[t].original == o;
      }
      forall o | o in Originals(toSave) ensures o in Unknown(ix, originals) {
        var t :| 0 <= t < |toSave| && toSave[t].original == o;
        var i := PlanCreates(ix.shortByOrig, deadline, ids, next, user, u, t);
      }
    }
  }

  // ---- What an absolute URL shows ----

  /** The text behind the last slash is the short. */
  lemma ShortIsBehindLastSlash(baseURL: string, short: string, before: string, last: string)
    requires '/' !in short && '/' !in last && AbsoluteShortURL(baseURL, short) == before + "/" + last
    ensures before == baseURL && last == short
  {
    LastSeparator('/', baseURL, short, before, last);
  }

  /** A generated id holds no slash, so it can be read off its absolute URL. */
  lemma IdsHoldNoSlash(draws: nat -> Draw, i: nat)
    ensures '/' !in IdsOf(draws)(i)
  {
    IdsDiffer(draws, i, i);
  }
}
