/** The in-memory index: four maps that must stay consistent with each other. */
module InMemory {
  import opened Model

  datatype Index = Index(
    origByShort: map<string, string>,
    shortByOrig: map<string, string>,
    userIDByShort: map<string, string>,
    deletedByShort: map<string, bool>)

  const EMPTY := Index(map[], map[], map[], map[])

  // ---- What each operation does to the index ----

  function SaveURL(ix: Index, u: URL): Index {
    Index(
      ix.origByShort[u.short := u.original],
      ix.shortByOrig[u.original := u.short],
      ix.userIDByShort[u.short := u.userID],
      if u.deletedFlag then ix.deletedByShort[u.short := true] else ix.deletedByShort)
  }

  /** Saving a sequence of records, first to last. */
  function SaveAll(ix: Index, urls: seq<URL>): Index {
    if urls == [] then ix
    else SaveURL(SaveAll(ix, urls[..|urls| - 1]), urls[|urls| - 1])
  }

  predicate Owns(ix: Index, user: string, short: string) {
    short in ix.userIDByShort && ix.userIDByShort[short] == user
  }

  function Marks(ix: Index, user: string, shorts: seq<string>): map<string, bool> {
    map s | s in shorts && Owns(ix, user, s) :: true
  }

  /** Every listed short that `user` owns becomes deleted, all at once. */
  function MarkDeleted(ix: Index, user: string, shorts: seq<string>): Index {
    ix.(deletedByShort := ix.deletedByShort + Marks(ix, user, shorts))
  }

  lemma MarkDeletedStep(ix: Index, user: string, shorts: seq<string>, short: string)
    ensures var before := MarkDeleted(ix, user, shorts);
      MarkDeleted(ix, user, shorts + [short]) ==
        if Owns(ix, user, short) then before.(deletedByShort := before.deletedByShort[short := true]) else before
  {
    var marks, more := Marks(ix, user, shorts), Marks(ix, user, shorts + [short]);
    if Owns(ix, user, short) {
      assert more == marks[short := true];
      assert ix.deletedByShort + marks[short := true] == (ix.deletedByShort + marks)[short := true];
    } else {
      assert more == marks;
    }
  }

  function MarkOne(ix: Index, user: string, short: string): Index {
    if Owns(ix, user, short) then ix.(deletedByShort := ix.deletedByShort[short := true]) else ix
  }

  /** Marking one listed short after the other. */
  function MarkEach(ix: Index, user: string, shorts: seq<string>): Index {
    if shorts == [] then ix else MarkOne(MarkEach(ix, user, shorts[..|shorts| - 1]), user, shorts[|shorts| - 1])
  }

  lemma MarkEachStep(ix: Index, user: string, shorts: seq<string>, i: nat)
    requires i < |shorts|
    ensures MarkEach(ix, user, shorts[..i + 1]) == MarkOne(MarkEach(ix, user, shorts[..i]), user, shorts[i])
  {
    assert shorts[..i + 1][..i] == shorts[..i];
  }

  /** One by one, in list order and with repetitions, is all at once. */
  lemma {:induction false} OneByOneIsAllAtOnce(ix: Index, user: string, shorts: seq<string>)
    ensures MarkEach(ix, user, shorts) == MarkDeleted(ix, user, shorts)
  {
    if shorts == [] {
      assert ix.deletedByShort + Marks(ix, user, []) == ix.deletedByShort;
    } else {
      var n := |shorts| - 1;
      OneByOneIsAllAtOnce(ix, user, shorts[..n]);
      MarkDeletedStep(ix, user, shorts[..n], shorts[n]);
      assert shorts[..n] + [shorts[n]] == shorts;
    }
  }

  predicate Deleted(ix: Index, short: string) {
    short in ix.deletedByShort && ix.deletedByShort[short]
  }

  function Lookup(ix: Index, short: string): Result<URL> {
    if short !in ix.origByShort then Err(NotFound)
    else if Deleted(ix, short) then Err(IsDeleted)
    else Ok(URL("", short, ix.origByShort[short], "", false))
  }

  function NamedUsers(ix: Index): set<string> {
    set s | s in ix.userIDByShort && ix.userIDByShort[s] != "" :: ix.userIDByShort[s]
  }

  /** How many records a batch saves before the context stops it. */
  function Saved(deadline: Deadline, n: nat): (k: nat)
    ensures k <= n
    ensures k < n <==> deadline.After? && deadline.polls < n
  {
    if deadline.After? && deadline.polls < n then deadline.polls else n
  }

  lemma {:induction false} SaveAllAppends(ix: Index, a: seq<URL>, b: seq<URL>)
    ensures SaveAll(ix, a + b) == SaveAll(SaveAll(ix, a), b)
  {
    if b == [] {
      assert a + b == a;
    } else {
      var n := |b| - 1;
      assert (a + b)[..|a + b| - 1] == a + b[..n];
      SaveAllAppends(ix, a, b[..n]);
    }
  }

  lemma SaveOne(ix: Index, urls: seq<URL>, u: URL)
    ensures SaveAll(ix, urls + [u]) == SaveURL(SaveAll(ix, urls), u)
  {
    assert (urls + [u])[..|urls|] == urls;
  }

  // ---- The storage object ----

  class InMemoryStorage {
    var origByShort: map<string, string>
    var shortByOrig: map<string, string>
    var userIDByShort: map<string, string>
    var deletedByShort: map<string, bool>

    ghost function Contents(): Index
      reads this
    {
      Index(origByShort, shortByOrig, userIDByShort, deletedByShort)
    }

    constructor ()
      ensures Contents() == EMPTY
    {
      origByShort, shortByOrig, userIDByShort, deletedByShort := map[], map[], map[], map[];
    }

    method Find(short: string) returns (r: Result<URL>)
      ensures r == Lookup(Contents(), short)
      ensures r == Err(NotFound) <==> short !in origByShort
      ensures r == Err(IsDeleted) <==> short in origByShort && short in deletedByShort && deletedByShort[short]
      ensures r.Ok? ==> r.value.short == short && r.value.original == origByShort[short]
    {
      if short !in origByShort {
        return Err(NotFound);
      }
      if short in deletedByShort && deletedByShort[short] {
        return Err(IsDeleted);
      }
      return Ok(URL("", short, origByShort[short], "", false));
    }

    method Save(u: URL)
      modifies this
      ensures Contents() == SaveURL(old(Contents()), u)
    {
      origByShort := origByShort[u.short := u.original];
      shortByOrig := shortByOrig[u.original := u.short];
      userIDByShort := userIDByShort[u.short := u.userID];
      if u.deletedFlag {
        deletedByShort := deletedByShort[u.short := true];
      }
    }

    /** A done context makes every original look unknown. */
    method GetShort(ctx: Context, orig: string) returns (r: Option<string>)
      modifies ctx
      ensures ctx.deadline == old(ctx.deadline).Next()
      ensures r == if old(ctx.deadline).Done() || orig !in shortByOrig then None else Some(shortByOrig[orig])
    {
      var done := ctx.Poll();
      if done || orig !in shortByOrig {
        return None;
      }
      return Some(shortByOrig[orig]);
    }

    /** The context is polled before each record: what is saved is exactly a prefix. */
    method SaveBatch(ctx: Context, urls: seq<URL>) returns (err: Option<Error>)
      modifies this, ctx
      ensures var k := Saved(old(ctx.deadline), |urls|);
        && Contents() == SaveAll(old(Contents()), urls[..k])
        && err == (if k == |urls| then None else Some(Canceled))
      ensures ctx.deadline == old(ctx.deadline).Skip(|urls|)
    {
      var i := 0;
      ghost var start := ctx.deadline;
      while i < |urls|
        invariant i <= Saved(start, |urls|)
        invariant ctx.deadline == start.Skip(i)
        invariant Contents() == SaveAll(old(Contents()), urls[..i])
      {
        SkipStep(start, i);
        var done := ctx.Poll();
        if done {
          return Some(Canceled);
        }
        Save(urls[i]);
        assert urls[..i + 1][..i] == urls[..i];
        i := i + 1;
      }
      assert urls[..|urls|] == urls;
      return None;
    }

    method DeleteUserURLs(ctx: Context, userID: string, shorts: seq<string>) returns (err: Option<Error>)
      modifies this, ctx
      ensures ctx.deadline == old(ctx.deadline).Next()
      ensures old(ctx.deadline).Done() ==> err == Some(Canceled) && Contents() == old(Contents())
      ensures !old(ctx.deadline).Done() ==> err == None && Contents() == MarkDeleted(old(Contents()), userID, shorts)
    {
      var done := ctx.Poll();
      if done {
        return Some(Canceled);
      }
      var i := 0;
      ghost var start := Contents();
      while i < |shorts|
        invariant i <= |shorts|
        invariant ctx.deadline == old(ctx.deadline).Next()
        invariant Contents() == MarkEach(start, userID, shorts[..i])
      {
        var short := shorts[i];
        MarkEachStep(start, userID, shorts, i);
        if short in userIDByShort {
          if userIDByShort[short] == userID {
            deletedByShort := deletedByShort[short := true];
          }
        }
        i := i + 1;
      }
      assert shorts[..i] == shorts;
      OneByOneIsAllAtOnce(start, userID, shorts);
      return None;
    }

    method GetStats(ctx: Context) returns (r: Result<(nat, nat)>)
      modifies ctx
      ensures old(ctx.deadline).Done() ==> r == Err(Canceled)
      ensures !old(ctx.deadline).Done() ==> r == Ok((|origByShort|, |NamedUsers(Contents())|))
    {
      var done := ctx.Poll();
      if done {
        return Err(Canceled);
      }
      var unseen, users := userIDByShort.Keys, {};
      while unseen != {}
        invariant unseen <= userIDByShort.Keys
        invariant users == set s | s in userIDByShort && s !in unseen && userIDByShort[s] != "" :: userIDByShort[s]
        decreases unseen
      {
        var s :| s in unseen;
        unseen := unseen - {s};
        if userIDByShort[s] != "" {
          users := users + {userIDByShort[s]};
        }
      }
      assert users == NamedUsers(Contents());
      return Ok((|origByShort|, |users|));
    }
  }

  // ---- Consistency over every run ----

  datatype Op = SaveOp(url: URL) | BatchOp(urls: seq<URL>) | DeleteOp(user: string, shorts: seq<string>)

  function Apply(ix: Index, op: Op): Index {
    match op
    case SaveOp(u) => SaveURL(ix, u)
    case BatchOp(us) => SaveAll(ix, us)
    case DeleteOp(user, shorts) => MarkDeleted(ix, user, shorts)
  }

  function Run(ix: Index, ops: seq<Op>): Index
    decreases |ops|
  {
    if ops == [] then ix else Run(Apply(ix, ops[0]), ops[1..])
  }

  /** Ownership is known for exactly the stored shorts, and only stored shorts carry a deletion mark. */
  ghost predicate Consistent(ix: Index) {
    && ix.userIDByShort.Keys == ix.origByShort.Keys
    && ix.deletedByShort.Keys <= ix.origByShort.Keys
    && (forall s :: s in ix.deletedByShort ==> ix.deletedByShort[s])
  }

  /** What was deleted stays deleted, what was stored stays stored. */
  ghost predicate Grows(before: Index, after: Index) {
    && before.origByShort.Keys <= after.origByShort.Keys
    && before.shortByOrig.Keys <= after.shortByOrig.Keys
    && (forall s :: Deleted(before, s) ==> Deleted(after, s))
  }

  lemma {:induction false} SaveAllKeeps(ix: Index, urls: seq<URL>)
    requires Consistent(ix)
    ensures Consistent(SaveAll(ix, urls)) && Grows(ix, SaveAll(ix, urls))
  {
    if urls != [] {
      SaveAllKeeps(ix, urls[..|urls| - 1]);
    }
  }

  lemma {:induction false} RunKeeps(ix: Index, ops: seq<Op>)
    requires Consistent(ix)
    ensures Consistent(Run(ix, ops)) && Grows(ix, Run(ix, ops))
    decreases |ops|
  {
    if ops != [] {
      if ops[0].BatchOp? {
        SaveAllKeeps(ix, ops[0].urls);
      }
      RunKeeps(Apply(ix, ops[0]), ops[1..]);
    }
  }

  /** Every original points at a short that points back at it, and every stored original has an entry. */
  ghost predicate Linked(ix: Index) {
    && (forall o :: o in ix.shortByOrig ==>
      ix.shortByOrig[o] in ix.origByShort && ix.origByShort[ix.shortByOrig[o]] == o)
    && (forall s :: s in ix.origByShort ==> ix.origByShort[s] in ix.shortByOrig)
  }

  /** Some other original is reached through this record's short. */
  ghost predicate Steals(ix: Index, u: URL) {
    exists o :: o in ix.shortByOrig && o != u.original && ix.shortByOrig[o] == u.short
  }

  /** Exactly when one save keeps the two directions in step. */
  lemma SaveKeepsLinkedExactly(ix: Index, u: URL)
    requires Linked(ix)
    ensures Linked(SaveURL(ix, u)) <==> !Steals(ix, u)
  {
    var after := SaveURL(ix, u);
    if Steals(ix, u) {
      var o :| o in ix.shortByOrig && o != u.original && ix.shortByOrig[o] == u.short;
      assert after.shortByOrig[o] == u.short && after.origByShort[u.short] != o;
    }
  }

  /** The shorts an operation may introduce are not stored yet and are pairwise distinct. */
  ghost predicate Fresh(ix: Index, urls: seq<URL>) {
    && (forall i :: 0 <= i < |urls| ==> urls[i].short !in ix.origByShort)
    && (forall i, j :: 0 <= i < j < |urls| ==> urls[i].short != urls[j].short)
  }

  function Shorts(urls: seq<URL>): set<string> {
    set u | u in urls :: u.short
  }

  ghost predicate FreshOp(ix: Index, op: Op) {
    match op
    case SaveOp(u) => u.short !in ix.origByShort
    case BatchOp(us) => Fresh(ix, us)
    case DeleteOp(_, _) => true
  }

  ghost predicate FreshRun(ix: Index, ops: seq<Op>)
    decreases |ops|
  {
    ops == [] || (FreshOp(ix, ops[0]) && FreshRun(Apply(ix, ops[0]), ops[1..]))
  }

  lemma SaveKeys(ix: Index, u: URL)
    ensures SaveURL(ix, u).origByShort.Keys == ix.origByShort.Keys + {u.short}
    ensures SaveURL(ix, u).userIDByShort.Keys == ix.userIDByShort.Keys + {u.short}
    ensures SaveURL(ix, u).deletedByShort.Keys <= ix.deletedByShort.Keys + {u.short}
  {
  }

  lemma {:induction false} SaveAllKeys(ix: Index, urls: seq<URL>)
    ensures SaveAll(ix, urls).origByShort.Keys == ix.origByShort.Keys + Shorts(urls)
    ensures SaveAll(ix, urls).userIDByShort.Keys == ix.userIDByShort.Keys + Shorts(urls)
  {
    if urls != [] {
      var n := |urls| - 1;
      SaveAllKeys(ix, urls[..n]);
      assert urls == urls[..n] + [urls[n]];
      assert Shorts(urls) == Shorts(urls[..n]) + {urls[n].short};
    }
  }

  /** A batch leaves alone every short it does not name. */
  lemma {:induction false} SaveAllElsewhere(ix: Index, urls: seq<URL>, short: string)
    requires short !in Shorts(urls)
    ensures var after := SaveAll(ix, urls);
      && Lookup(after, short) == Lookup(ix, short)
      && (short in ix.origByShort ==> short in after.origByShort && after.origByShort[short] == ix.origByShort[short])
      && (short in ix.userIDByShort ==>
        short in after.userIDByShort && after.userIDByShort[short] == ix.userIDByShort[short])
  {
    SaveAllKeys(ix, urls);
    if urls != [] {
      var n := |urls| - 1;
      assert urls == urls[..n] + [urls[n]];
      assert urls[n].short in Shorts(urls);
      SaveAllKeys(ix, urls[..n]);
      SaveAllElsewhere(ix, urls[..n], short);
    }
  }

  /** What a record says about its short. */
  predicate Holds(ix: Index, u: URL) {
    && u.short in ix.origByShort && ix.origByShort[u.short] == u.original
    && u.short in ix.userIDByShort && ix.userIDByShort[u.short] == u.userID
  }

  /** The position of the last record of a short. */
  function LastOf(urls: seq<URL>, short: string): (i: nat)
    requires short in Shorts(urls)
    ensures i < |urls| && urls[i].short == short
  {
    var n := |urls| - 1;
    if urls[n].short == short then n
    else assert urls == urls[..n] + [urls[n]]; LastOf(urls[..n], short)
  }

  lemma {:induction false} LastRecord(ix: Index, urls: seq<URL>, short: string)
    requires short in Shorts(urls)
    ensures Holds(SaveAll(ix, urls), urls[LastOf(urls, short)])
  {
    var n := |urls| - 1;
    if urls[n].short != short {
      assert urls == urls[..n] + [urls[n]];
      LastRecord(ix, urls[..n], short);
    }
  }

  /** Exactly the flagged shorts of a batch are deleted besides those that were. */
  lemma {:induction false} SaveAllDeletes(ix: Index, urls: seq<URL>, short: string)
    ensures Deleted(SaveAll(ix, urls), short) <==>
      Deleted(ix, short) || exists u :: u in urls && u.deletedFlag && u.short == short
  {
    if urls != [] {
      var n := |urls| - 1;
      SaveAllDeletes(ix, urls[..n], short);
      assert urls == urls[..n] + [urls[n]];
    }
  }

  lemma {:induction false} SaveAllMarks(ix: Index, urls: seq<URL>)
    ensures SaveAll(ix, urls).deletedByShort.Keys <= ix.deletedByShort.Keys + Shorts(urls)
  {
    if urls != [] {
      var n := |urls| - 1;
      SaveAllMarks(ix, urls[..n]);
      assert urls == urls[..n] + [urls[n]];
    }
  }

  /** With distinct shorts, each record of a batch can be read back. */
  lemma {:induction false} SaveAllAt(ix: Index, urls: seq<URL>, i: nat)
    requires i < |urls|
    requires forall j, k :: 0 <= j < k < |urls| ==> urls[j].short != urls[k].short
    ensures urls[i].short in SaveAll(ix, urls).origByShort
    ensures SaveAll(ix, urls).origByShort[urls[i].short] == urls[i].original
    ensures urls[i].short in SaveAll(ix, urls).userIDByShort
    ensures SaveAll(ix, urls).userIDByShort[urls[i].short] == urls[i].userID
  {
    var n := |urls| - 1;
    if i < n {
      SaveAllAt(ix, urls[..n], i);
      assert urls[..n][i] == urls[i];
    }
  }

  ghost predicate DistinctOriginals(urls: seq<URL>) {
    forall j, k :: 0 <= j < k < |urls| ==> urls[j].original != urls[k].original
  }

  /** The current short of an original: untouched by records of other originals. */
  lemma {:induction false} ShortOfElsewhere(ix: Index, urls: seq<URL>, orig: string)
    requires forall u :: u in urls ==> u.original != orig
    ensures orig in SaveAll(ix, urls).shortByOrig <==> orig in ix.shortByOrig
    ensures orig in ix.shortByOrig ==> SaveAll(ix, urls).shortByOrig[orig] == ix.shortByOrig[orig]
  {
    if urls != [] {
      var n := |urls| - 1;
      assert urls[n] in urls;
      ShortOfElsewhere(ix, urls[..n], orig);
    }
  }

  /** With distinct originals, each record of a batch sets the short of its original. */
  lemma {:induction false} ShortOfAt(ix: Index, urls: seq<URL>, i: nat)
    requires i < |urls|
    requires DistinctOriginals(urls)
    ensures urls[i].original in SaveAll(ix, urls).shortByOrig
    ensures SaveAll(ix, urls).shortByOrig[urls[i].original] == urls[i].short
  {
    var n := |urls| - 1;
    if i < n {
      ShortOfAt(ix, urls[..n], i);
      assert urls[..n][i] == urls[i];
    }
  }

  /** A batch of new shorts grows the store by exactly its length. */
  lemma {:induction false} SaveFreshSize(ix: Index, urls: seq<URL>)
    requires Fresh(ix, urls)
    ensures |SaveAll(ix, urls).origByShort| == |ix.origByShort| + |urls|
  {
    if urls != [] {
      var n := |urls| - 1;
      SaveFreshSize(ix, urls[..n]);
      SaveAllKeys(ix, urls[..n]);
    }
  }

  /** The last short of a fresh batch is still new when it is saved. */
  lemma FreshLast(ix: Index, urls: seq<URL>)
    requires urls != [] && Fresh(ix, urls)
    ensures urls[|urls| - 1].short !in SaveAll(ix, urls[..|urls| - 1]).origByShort
  {
    SaveAllKeys(ix, urls[..|urls| - 1]);
  }

  lemma {:induction false} SaveAllLinked(ix: Index, urls: seq<URL>)
    requires Linked(ix) && Fresh(ix, urls)
    ensures Linked(SaveAll(ix, urls))
  {
    if urls != [] {
      var n := |urls| - 1;
      SaveAllLinked(ix, urls[..n]);
      FreshLast(ix, urls);
      SaveKeepsLinkedExactly(SaveAll(ix, urls[..n]), urls[n]);
    }
  }

  /** Over every run whose generated shorts are new: the two directions agree, so no two originals
      share a current short. */
  lemma {:induction false} RunLinked(ix: Index, ops: seq<Op>)
    requires Linked(ix) && FreshRun(ix, ops)
    ensures Linked(Run(ix, ops))
    ensures var m := Run(ix, ops).shortByOrig; forall o, p :: o in m && p in m && m[o] == m[p] ==> o == p
    decreases |ops|
  {
    if ops != [] {
      match ops[0] {
        case SaveOp(u) => SaveKeepsLinkedExactly(ix, u);
        case BatchOp(us) => SaveAllLinked(ix, us);
        case DeleteOp(_, _) =>
      }
      RunLinked(Apply(ix, ops[0]), ops[1..]);
    }
  }

  /** What a lookup answers after a deletion, in terms of the answer before it. */
  lemma LookupAfterDelete(ix: Index, user: string, shorts: seq<string>, short: string)
    requires Consistent(ix)
    ensures Lookup(MarkDeleted(ix, user, shorts), short) ==
      if short in shorts && short in ix.userIDByShort && ix.userIDByShort[short] == user then Err(IsDeleted)
      else Lookup(ix, short)
  {
  }

  /** What a lookup answers after a save: a saved short that was deleted before stays deleted. */
  lemma LookupAfterSave(ix: Index, u: URL, short: string)
    ensures Lookup(SaveURL(ix, u), short) ==
      if short != u.short then Lookup(ix, short)
      else if u.deletedFlag || Deleted(ix, short) then Err(IsDeleted)
      else Ok(URL("", short, u.original, "", false))
  {
  }

  /** The users counted: those who own something, the empty name aside. */
  lemma NamedUsersMeans(ix: Index, user: string)
    ensures user in NamedUsers(ix) <==> user != "" && exists s :: s in ix.userIDByShort && ix.userIDByShort[s] == user
  {
    if s :| s in ix.userIDByShort && ix.userIDByShort[s] == user && user != "" {
      assert ix.userIDByShort[s] in NamedUsers(ix);
    }
  }

  /** A batch gives its shorts the owner all its records name, and only its shorts are new. */
  lemma NewOwners(ix: Index, urls: seq<URL>, user: string, short: string)
    requires forall u :: u in urls ==> u.userID == user
    requires short in SaveAll(ix, urls).userIDByShort && short !in ix.userIDByShort
    ensures SaveAll(ix, urls).userIDByShort[short] == user
  {
    SaveAllKeys(ix, urls);
    LastRecord(ix, urls, short);
  }

  /** Whoever owns a stored short can delete it. */
  lemma OwnerCanDelete(ix: Index, short: string)
    requires Consistent(ix) && short in ix.userIDByShort
    ensures Lookup(MarkDeleted(ix, ix.userIDByShort[short], [short]), short) == Err(IsDeleted)
  {
    assert short in [short];
    LookupAfterDelete(ix, ix.userIDByShort[short], [short], short);
  }
}
