/** Database storage: the in-memory index as a cache in front of a table of rows. */
module Database {
  import opened Model
  import opened InMemory

  /** A row of the urls table; `userID` is None for SQL NULL. */
  datatype Row = Row(short: string, original: string, userID: Option<string>, isDeleted: bool)

  // ---- What the statements do ----

  /** INSERT INTO urls (short, original, user_id): the deletion mark takes its default. */
  function InsertedBySave(u: URL): Row {
    Row(u.short, u.original, Some(u.userID), false)
  }

  /** INSERT INTO urls (short, original): the owner takes its default, NULL. */
  function InsertedByBatch(u: URL): Row {
    Row(u.short, u.original, None, false)
  }

  function BatchRows(urls: seq<URL>): seq<Row> {
    seq(|urls|, i requires 0 <= i < |urls| => InsertedByBatch(urls[i]))
  }

  function DeletedRow(r: Row, user: string, shorts: seq<string>): Row {
    if r.userID == Some(user) && r.short in shorts then r.(isDeleted := true) else r
  }

  /** UPDATE urls SET is_deleted = TRUE WHERE user_id = user AND short = ANY(shorts). */
  function UpdateDeleted(rows: seq<Row>, user: string, shorts: seq<string>): seq<Row> {
    seq(|rows|, i requires 0 <= i < |rows| => DeletedRow(rows[i], user, shorts))
  }

  /** Scanning a row; a NULL owner cannot be scanned into a string. */
  function Scan(row: Row): Option<URL> {
    if row.userID.None? then None else Some(URL("", row.short, row.original, row.userID.value, row.isDeleted))
  }

  function ScanAll(rows: seq<Row>): Option<seq<URL>> {
    if rows == [] then Some([])
    else match (ScanAll(rows[..|rows| - 1]), Scan(rows[|rows| - 1]))
      case (Some(urls), Some(u)) => Some(urls + [u])
      case _ => None
  }

  /** The index a restart builds when the table returns its rows in this order. */
  function Rebuild(rows: seq<Row>): Option<Index> {
    match ScanAll(rows)
    case None => None
    case Some(urls) => Some(SaveAll(EMPTY, urls))
  }

  function UsersOf(rows: seq<Row>): set<string> {
    set r | r in rows && r.userID.Some? && r.userID.value != "" :: r.userID.value
  }

  // ---- The repository ----

  /** Where the database fails, if it does, is chosen by the environment: before the step of this number
      among the `n` steps, or at the end of them. */
  predicate Fails(failsAt: Option<nat>, n: nat) {
    failsAt.Some? && failsAt.value <= n
  }

  class DataBaseRepository {
    const storage: InMemoryStorage
    var table: seq<Row>

    constructor (storage: InMemoryStorage, table: seq<Row>)
      ensures this.storage == storage && this.table == table
    {
      this.storage, this.table := storage, table;
    }

    /** Loading the cache. The rows come in whatever order the database chooses; `failsAt` is the row
        before which the query or its iteration fails, the number of rows standing for the end. */
    method QueryUrls(rows: seq<Row>, failsAt: Option<nat>) returns (ok: bool)
      requires storage.Contents() == EMPTY && multiset(rows) == multiset(table)
      modifies storage
      ensures ok <==> !Fails(failsAt, |rows|) && Rebuild(rows).Some?
      ensures ok ==> Rebuild(rows) == Some(storage.Contents())
    {
      ghost var urls := [];
      var i := 0;
      while i < |rows|
        invariant i <= |rows| && (failsAt.Some? ==> i <= failsAt.value)
        invariant ScanAll(rows[..i]) == Some(urls)
        invariant storage.Contents() == SaveAll(EMPTY, urls)
      {
        assert rows[..i + 1][..i] == rows[..i];
        if failsAt == Some(i) {
          return false;
        }
        var u := Scan(rows[i]);
        if u.None? {
          ScanFails(rows, i);
          return false;
        }
        storage.Save(u.value);
        SaveOne(EMPTY, urls, u.value);
        urls := urls + [u.value];
        i := i + 1;
      }
      assert rows[..i] == rows;
      return failsAt != Some(i);
    }

    /** Cache first, table second: a failed insert leaves the cache ahead. */
    method Save(u: URL, fails: bool) returns (ok: bool)
      modifies this, storage
      ensures ok <==> !fails
      ensures storage.Contents() == SaveURL(old(storage.Contents()), u)
      ensures table == old(table) + if ok then [InsertedBySave(u)] else []
      ensures ok ==> table == old(table) + [Row(u.short, u.original, Some(u.userID), false)]
    {
      storage.Save(u);
      if !fails {
        table := table + [InsertedBySave(u)];
      }
      ok := !fails;
    }

    /** One transaction, failing before the insert numbered `failsAt`, or at the commit when that is the
        number of records. A failure leaves the table alone but not the cache, which keeps the records
        that came before it. */
    method SaveBatch(urls: seq<URL>, failsAt: Option<nat>) returns (ok: bool)
      modifies this, storage
      ensures ok <==> urls == [] || !Fails(failsAt, |urls|)
      ensures table == old(table) + if ok then BatchRows(urls) else []
      ensures ok ==> |table| == |old(table)| + |urls| && forall i :: 0 <= i < |urls| ==>
        table[|old(table)| + i] == Row(urls[i].short, urls[i].original, None, false)
      ensures storage.Contents() == SaveAll(old(storage.Contents()), if ok then urls else urls[..failsAt.value])
    {
      if |urls| == 0 {
        return true;
      }
      var i := 0;
      var pending: seq<Row> := [];
      ghost var start := storage.Contents();
      while i < |urls|
        invariant i <= |urls| && (failsAt.Some? ==> i <= failsAt.value)
        invariant table == old(table)
        invariant pending == BatchRows(urls[..i])
        invariant storage.Contents() == SaveAll(start, urls[..i])
      {
        if failsAt == Some(i) {
          return false;
        }
        pending := pending + [InsertedByBatch(urls[i])];
        storage.Save(urls[i]);
        SaveOne(start, urls[..i], urls[i]);
        assert urls[..i] + [urls[i]] == urls[..i + 1];
        i := i + 1;
      }
      assert urls[..i] == urls;
      if failsAt == Some(i) {
        return false;
      }
      table := table + pending;
      return true;
    }

    /** Table first, cache second. The cache update polls the context again and its error is dropped. */
    method DeleteUserURLs(ctx: Context, user: string, shorts: seq<string>, fails: bool) returns (ok: bool)
      modifies this, storage, ctx
      ensures ok <==> !old(ctx.deadline).Done() && !fails
      ensures !ok ==> table == old(table) && storage.Contents() == old(storage.Contents())
      ensures ok ==>
        && table == UpdateDeleted(old(table), user, shorts)
        && storage.Contents() == (if old(ctx.deadline).Next().Done() then old(storage.Contents())
                                  else MarkDeleted(old(storage.Contents()), user, shorts))
    {
      var done := ctx.Poll();
      if done || fails {
        return false;
      }
      table := UpdateDeleted(table, user, shorts);
      var err := storage.DeleteUserURLs(ctx, user, shorts);
      return true;
    }

    method GetStats(fails: bool) returns (r: Option<(nat, nat)>)
      ensures r == if fails then None else Some((|table|, |UsersOf(table)|))
    {
      if fails {
        return None;
      }
      var seen: set<string> := {};
      var i := 0;
      while i < |table|
        invariant i <= |table|
        invariant seen == UsersOf(table[..i])
      {
        assert table[..i + 1] == table[..i] + [table[i]];
        if table[i].userID.Some? && table[i].userID.value != "" {
          seen := seen + {table[i].userID.value};
        }
        i := i + 1;
      }
      assert table[..i] == table;
      return Some((|table|, |seen|));
    }
  }

  lemma {:induction false} ScanFails(rows: seq<Row>, i: nat)
    requires i < |rows| && Scan(rows[i]).None?
    ensures ScanAll(rows).None?
  {
    var n := |rows| - 1;
    if i < n {
      ScanFails(rows[..n], i);
    }
  }

  // ---- Restarting ----

  ghost predicate NoNulls(rows: seq<Row>) {
    forall r :: r in rows ==> r.userID.Some?
  }

  lemma {:induction false} ScanAllExactly(rows: seq<Row>)
    ensures ScanAll(rows).Some? <==> NoNulls(rows)
    ensures ScanAll(rows).Some? ==>
      |ScanAll(rows).value| == |rows| && forall i :: 0 <= i < |rows| ==> Some(ScanAll(rows).value[i]) == Scan(rows[i])
  {
    if rows != [] {
      var n := |rows| - 1;
      ScanAllExactly(rows[..n]);
      assert rows == rows[..n] + [rows[n]];
    }
  }

  /** A restart succeeds exactly when no row has a NULL owner; so after a committed batch it succeeds
      only if the batch was empty. */
  lemma RestartExactly(rows: seq<Row>, urls: seq<URL>)
    ensures Rebuild(rows).Some? <==> NoNulls(rows)
    ensures Rebuild(rows + BatchRows(urls)).Some? <==> NoNulls(rows) && urls == []
  {
    var batch := BatchRows(urls);
    ScanAllExactly(rows);
    ScanAllExactly(rows + batch);
    assert NoNulls(rows + batch) ==> NoNulls(rows);
    if urls != [] {
      assert batch[0] in rows + batch;
    } else {
      assert rows + batch == rows;
    }
  }

  // ---- Cache and table ----

  function ShortsOf(rows: seq<Row>): set<string> {
    set r | r in rows :: r.short
  }

  ghost predicate Matches(r: Row, ix: Index) {
    && r.short in ix.origByShort && ix.origByShort[r.short] == r.original
    && r.short in ix.userIDByShort && Some(ix.userIDByShort[r.short]) == r.userID
    && (Deleted(ix, r.short) <==> r.isDeleted)
  }

  /** The table holds exactly what the cache knows, one row per short. */
  ghost predicate Backs(rows: seq<Row>, ix: Index) {
    && |ShortsOf(rows)| == |rows|
    && ix.origByShort.Keys == ShortsOf(rows)
    && ix.userIDByShort.Keys == ShortsOf(rows)
    && ix.deletedByShort.Keys <= ShortsOf(rows)
    && (forall r :: r in rows ==> Matches(r, ix))
  }

  lemma BacksAnyOrder(rows: seq<Row>, other: seq<Row>, ix: Index)
    requires multiset(rows) == multiset(other) && Backs(rows, ix)
    ensures Backs(other, ix)
  {
    SameRows(rows, other);
  }

  /** Every row of a backed table is in the index at its short, so equal shorts are equal rows. */
  lemma BackedAgree(rows: seq<Row>, a: Index, b: Index, short: string)
    requires Backs(rows, a) && Backs(rows, b)
    ensures Lookup(a, short) == Lookup(b, short)
    ensures a.userIDByShort == b.userIDByShort && a.origByShort == b.origByShort
  {
    forall s | s in ShortsOf(rows)
      ensures a.userIDByShort[s] == b.userIDByShort[s] && a.origByShort[s] == b.origByShort[s]
      ensures Deleted(a, s) <==> Deleted(b, s)
    {
      var r :| r in rows && r.short == s;
    }
  }

  lemma BackedStats(rows: seq<Row>, ix: Index)
    requires Backs(rows, ix)
    ensures |rows| == |ix.origByShort| && UsersOf(rows) == NamedUsers(ix)
  {
    assert |ix.origByShort| == |ix.origByShort.Keys|;
    forall s | s in ix.userIDByShort && ix.userIDByShort[s] != "" ensures ix.userIDByShort[s] in UsersOf(rows) {
      var r :| r in rows && r.short == s;
    }
  }

  lemma NewRow(rows: seq<Row>, row: Row)
    ensures ShortsOf(rows + [row]) == ShortsOf(rows) + {row.short}
  {
    assert row in rows + [row];
    forall s | s in ShortsOf(rows) ensures s in ShortsOf(rows + [row]) {
      var r :| r in rows && r.short == s;
      assert r in rows + [row];
    }
  }

  /** Exactly when a successful save keeps table and cache in agreement: when its short is new and it
      does not claim to be deleted. */
  lemma SaveKeepsBacksExactly(rows: seq<Row>, ix: Index, u: URL)
    requires Backs(rows, ix)
    ensures Backs(rows + [InsertedBySave(u)], SaveURL(ix, u)) <==> u.short !in ix.origByShort && !u.deletedFlag
  {
    var row, after := InsertedBySave(u), SaveURL(ix, u);
    if u.short in ix.origByShort {
      NewRow(rows, row);
      assert ShortsOf(rows + [row]) == ShortsOf(rows);
    } else if u.deletedFlag {
      assert row in rows + [row];
      assert !Matches(row, after);
    } else {
      assert SaveURL(ix, Scan(row).value) == after;
      RowAdds(rows, ix, row);
    }
  }

  /** What the cache says already. */
  predicate Known(ix: Index, u: URL) {
    && u.short in ix.origByShort && ix.origByShort[u.short] == u.original
    && u.short in ix.userIDByShort && ix.userIDByShort[u.short] == u.userID
    && (u.deletedFlag ==> Deleted(ix, u.short))
  }

  lemma KnownChangesNothing(ix: Index, u: URL)
    requires Known(ix, u)
    ensures SaveURL(ix, u) == ix.(shortByOrig := ix.shortByOrig[u.original := u.short])
  {
    assert ix.origByShort[u.short := u.original] == ix.origByShort;
    assert ix.userIDByShort[u.short := u.userID] == ix.userIDByShort;
    if u.deletedFlag {
      assert ix.deletedByShort[u.short := true] == ix.deletedByShort;
    }
  }

  /** Exactly when a save whose insert failed leaves table and cache in agreement: when the cache knew
      all of it before. */
  lemma FailedSaveAgreesExactly(rows: seq<Row>, ix: Index, u: URL)
    requires Backs(rows, ix)
    ensures Backs(rows, SaveURL(ix, u)) <==> Known(ix, u)
  {
    if Known(ix, u) {
      KnownChangesNothing(ix, u);
      forall r | r in rows ensures Matches(r, SaveURL(ix, u)) {
        assert Matches(r, ix);
      }
    } else if u.short in ix.origByShort {
      var r :| r in rows && r.short == u.short;
      assert Matches(r, ix);
      assert !Matches(r, SaveURL(ix, u));
    } else {
      assert u.short in SaveURL(ix, u).origByShort.Keys;
    }
  }

  /** Exactly when a committed batch leaves table and cache in agreement: when it was empty. */
  lemma BatchAgreesExactly(rows: seq<Row>, ix: Index, urls: seq<URL>)
    requires Backs(rows, ix)
    ensures Backs(rows + BatchRows(urls), SaveAll(ix, urls)) <==> urls == []
  {
    if urls != [] {
      assert BatchRows(urls)[0] in rows + BatchRows(urls);
      assert !Matches(BatchRows(urls)[0], SaveAll(ix, urls));
    } else {
      assert rows + BatchRows(urls) == rows;
    }
  }

  /** The cache knew of each short what the last of these records says, and every deletion they claim. */
  ghost predicate KnownBatch(ix: Index, urls: seq<URL>) {
    && (forall s :: s in Shorts(urls) ==> Holds(ix, urls[LastOf(urls, s)]))
    && (forall u :: u in urls && u.deletedFlag ==> Deleted(ix, u.short))
  }

  /** Exactly when a failed batch leaves table and cache in agreement: when the cache knew what the saved
      records say before. */
  lemma FailedBatchAgreesExactly(rows: seq<Row>, ix: Index, urls: seq<URL>, saved: nat)
    requires Backs(rows, ix) && saved <= |urls|
    ensures Backs(rows, SaveAll(ix, urls[..saved])) <==> KnownBatch(ix, urls[..saved])
  {
    if KnownBatch(ix, urls[..saved]) {
      KnownBatchAgrees(rows, ix, urls[..saved]);
    } else if Backs(rows, SaveAll(ix, urls[..saved])) {
      AgreeingBatchIsKnown(rows, ix, urls[..saved]);
    }
  }

  lemma KnownBatchAgrees(rows: seq<Row>, ix: Index, urls: seq<URL>)
    requires Backs(rows, ix) && KnownBatch(ix, urls)
    ensures Backs(rows, SaveAll(ix, urls))
  {
    SaveAllKeys(ix, urls);
    SaveAllMarks(ix, urls);
    assert Shorts(urls) <= ShortsOf(rows);
    assert SaveAll(ix, urls).origByShort.Keys == ShortsOf(rows) == SaveAll(ix, urls).userIDByShort.Keys;
    forall r | r in rows ensures Matches(r, SaveAll(ix, urls)) {
      KnownRowMatches(r, ix, urls);
    }
  }

  lemma AgreeingBatchIsKnown(rows: seq<Row>, ix: Index, urls: seq<URL>)
    requires Backs(rows, ix) && Backs(rows, SaveAll(ix, urls))
    ensures KnownBatch(ix, urls)
  {
    SaveAllKeys(ix, urls);
    forall s | s in Shorts(urls) ensures Holds(ix, urls[LastOf(urls, s)]) {
      SameAnswers(rows, ix, SaveAll(ix, urls), s);
      LastRecord(ix, urls, s);
    }
    forall u | u in urls && u.deletedFlag ensures Deleted(ix, u.short) {
      assert u.short in Shorts(urls);
      SameAnswers(rows, ix, SaveAll(ix, urls), u.short);
      SaveAllDeletes(ix, urls, u.short);
    }
  }

  lemma SameAnswers(rows: seq<Row>, a: Index, b: Index, short: string)
    requires Backs(rows, a) && Backs(rows, b) && short in b.origByShort
    ensures short in a.origByShort && a.origByShort[short] == b.origByShort[short]
    ensures short in a.userIDByShort && short in b.userIDByShort && a.userIDByShort[short] == b.userIDByShort[short]
    ensures Deleted(a, short) <==> Deleted(b, short)
  {
    var r :| r in rows && r.short == short;
    assert Matches(r, a) && Matches(r, b);
  }

  lemma KnownRowMatches(r: Row, ix: Index, urls: seq<URL>)
    requires Matches(r, ix) && KnownBatch(ix, urls)
    ensures Matches(r, SaveAll(ix, urls))
  {
    SaveAllDeletes(ix, urls, r.short);
    if r.short in Shorts(urls) {
      LastRecord(ix, urls, r.short);
    } else {
      SaveAllElsewhere(ix, urls, r.short);
    }
  }

  /** For a batch of new shorts: when it failed before its first save. Otherwise the cache answers for
      shorts the table does not have. */
  lemma FailedNewBatchAgreesExactly(rows: seq<Row>, ix: Index, urls: seq<URL>, saved: nat)
    requires Backs(rows, ix) && Fresh(ix, urls) && saved <= |urls|
    ensures Backs(rows, SaveAll(ix, urls[..saved])) <==> saved == 0
    ensures forall i :: 0 <= i < saved ==>
      urls[i].short in SaveAll(ix, urls[..saved]).origByShort && urls[i].short !in ShortsOf(rows)
  {
    SaveAllKeys(ix, urls[..saved]);
    forall i | 0 <= i < saved ensures urls[i].short in Shorts(urls[..saved]) {
      assert urls[..saved][i] == urls[i];
    }
    if saved > 0 {
      assert urls[0].short in SaveAll(ix, urls[..saved]).origByShort;
    }
  }

  lemma UpdateKeepsShorts(rows: seq<Row>, user: string, shorts: seq<string>)
    ensures ShortsOf(UpdateDeleted(rows, user, shorts)) == ShortsOf(rows)
  {
    var after := UpdateDeleted(rows, user, shorts);
    forall s | s in ShortsOf(rows) ensures s in ShortsOf(after) {
      var i :| 0 <= i < |rows| && rows[i].short == s;
      assert after[i] in after && after[i].short == s;
    }
    forall s | s in ShortsOf(after) ensures s in ShortsOf(rows) {
      var i :| 0 <= i < |rows| && after[i].short == s;
      assert rows[i] in rows && rows[i].short == s;
    }
  }

  lemma DeleteKeepsBacks(rows: seq<Row>, ix: Index, user: string, shorts: seq<string>)
    requires Backs(rows, ix)
    ensures Backs(UpdateDeleted(rows, user, shorts), MarkDeleted(ix, user, shorts))
  {
    var after := UpdateDeleted(rows, user, shorts);
    UpdateKeepsShorts(rows, user, shorts);
    forall i | 0 <= i < |rows| ensures Matches(after[i], MarkDeleted(ix, user, shorts)) {
      RowAfterDelete(rows[i], ix, user, shorts);
    }
  }

  lemma RowAfterDelete(r: Row, ix: Index, user: string, shorts: seq<string>)
    requires Matches(r, ix)
    ensures Matches(DeletedRow(r, user, shorts), MarkDeleted(ix, user, shorts))
  {
  }

  /** A delete that reaches both keeps them in agreement; one whose cache update was cancelled keeps
      them in agreement exactly when it had nothing left to delete. */
  lemma DeleteKeepsBacksExactly(rows: seq<Row>, ix: Index, user: string, shorts: seq<string>)
    requires Backs(rows, ix)
    ensures Backs(UpdateDeleted(rows, user, shorts), MarkDeleted(ix, user, shorts))
    ensures Backs(UpdateDeleted(rows, user, shorts), ix) <==> UpdateDeleted(rows, user, shorts) == rows
  {
    DeleteKeepsBacks(rows, ix, user, shorts);
    var after := UpdateDeleted(rows, user, shorts);
    if Backs(after, ix) {
      forall i | 0 <= i < |rows| ensures after[i] == rows[i] {
        assert rows[i] in rows && after[i] in after;
        assert Matches(rows[i], ix) && Matches(after[i], ix);
      }
    }
  }

  // ---- Whole runs ----

  datatype Op = SaveOp(url: URL) | DeleteOp(user: string, shorts: seq<string>)

  datatype Db = Db(rows: seq<Row>, cache: Index)

  /** A successful, uncancelled operation. */
  function Apply(db: Db, op: Op): Db {
    match op
    case SaveOp(u) => Db(db.rows + [InsertedBySave(u)], SaveURL(db.cache, u))
    case DeleteOp(user, shorts) => Db(UpdateDeleted(db.rows, user, shorts), MarkDeleted(db.cache, user, shorts))
  }

  ghost predicate Runs(db: Db, ops: seq<Op>, after: Db)
    decreases |ops|
  {
    if ops == [] then db == after
    else
      && (ops[0].SaveOp? ==> ops[0].url.short !in db.cache.origByShort && !ops[0].url.deletedFlag)
      && Runs(Apply(db, ops[0]), ops[1..], after)
  }

  lemma {:induction false} RunsBacked(db: Db, ops: seq<Op>, after: Db)
    requires Backs(db.rows, db.cache) && Runs(db, ops, after)
    ensures Backs(after.rows, after.cache)
    decreases |ops|
  {
    if ops != [] {
      match ops[0] {
        case SaveOp(u) => SaveKeepsBacksExactly(db.rows, db.cache, u);
        case DeleteOp(user, shorts) => DeleteKeepsBacksExactly(db.rows, db.cache, user, shorts);
      }
      RunsBacked(Apply(db, ops[0]), ops[1..], after);
    }
  }

  function Elements(s: seq<string>): set<string> {
    set x | x in s
  }

  /** A sequence without repetitions is one with as many elements as positions. */
  lemma {:induction false} DistinctCount(s: seq<string>)
    ensures |Elements(s)| <= |s|
    ensures |Elements(s)| == |s| <==> forall i, j :: 0 <= i < j < |s| ==> s[i] != s[j]
  {
    if s != [] {
      var n := |s| - 1;
      DistinctCount(s[..n]);
      assert s == s[..n] + [s[n]];
      assert Elements(s) == Elements(s[..n]) + {s[n]};
      if s[n] in s[..n] {
        var i :| 0 <= i < n && s[..n][i] == s[n];
        assert s[i] == s[n];
      } else {
        assert forall i :: 0 <= i < n ==> s[..n][i] == s[i];
      }
    }
  }

  lemma ShortsCount(rows: seq<Row>)
    ensures |ShortsOf(rows)| <= |rows|
    ensures |ShortsOf(rows)| == |rows| <==> forall i, j :: 0 <= i < j < |rows| ==> rows[i].short != rows[j].short
  {
    var s := seq(|rows|, i requires 0 <= i < |rows| => rows[i].short);
    DistinctCount(s);
    assert Elements(s) == ShortsOf(rows) by {
      forall x | x in ShortsOf(rows) ensures x in Elements(s) {
        var i :| 0 <= i < |rows| && rows[i].short == x;
        assert s[i] == x;
      }
    }
    assert forall i :: 0 <= i < |rows| ==> s[i] == rows[i].short;
  }

  /** A rebuilt index is backed by the rows it was built from. */
  lemma {:induction false} RebuildBacked(rows: seq<Row>)
    requires NoNulls(rows) && |ShortsOf(rows)| == |rows|
    ensures Rebuild(rows).Some? && Backs(rows, Rebuild(rows).value)
  {
    ScanAllExactly(rows);
    if rows != [] {
      var n := |rows| - 1;
      var u := Scan(rows[n]).value;
      assert rows == rows[..n] + [rows[n]];
      ShortsCount(rows[..n]);
      NewRow(rows[..n], rows[n]);
      RebuildBacked(rows[..n]);
      SaveOne(EMPTY, ScanAll(rows[..n]).value, u);
      RowAdds(rows[..n], Rebuild(rows[..n]).value, rows[n]);
    }
  }

  /** Loading one more row with a new short. */
  lemma RowAdds(rows: seq<Row>, ix: Index, row: Row)
    requires Backs(rows, ix) && row.userID.Some? && row.short !in ShortsOf(rows)
    ensures Backs(rows + [row], SaveURL(ix, Scan(row).value))
  {
    var u := Scan(row).value;
    NewRow(rows, row);
    SaveKeys(ix, u);
    forall r | r in rows + [row] ensures Matches(r, SaveURL(ix, u)) {
      if r in rows {
        RowElsewhere(rows, r, ix, u);
      } else {
        NewRowMatches(row, ix);
      }
    }
  }

  lemma NewRowMatches(row: Row, ix: Index)
    requires row.userID.Some? && !Deleted(ix, row.short)
    ensures Matches(row, SaveURL(ix, Scan(row).value))
  {
  }

  lemma RowElsewhere(rows: seq<Row>, r: Row, ix: Index, u: URL)
    requires r in rows && Matches(r, ix) && u.short !in ShortsOf(rows)
    ensures Matches(r, SaveURL(ix, u))
  {
  }

  /** Cache and table agree: after any run of successful operations from agreement (an empty table, say),
      rebuilding from the rows in any order gives the same answers, owners and statistics as the live
      cache. */
  lemma RestartAgrees(start: Db, ops: seq<Op>, after: Db, order: seq<Row>, short: string)
    requires Backs(start.rows, start.cache)
    requires Runs(start, ops, after) && multiset(order) == multiset(after.rows)
    ensures Rebuild(order).Some?
    ensures var back := Rebuild(order).value;
      && Lookup(back, short) == Lookup(after.cache, short)
      && back.userIDByShort == after.cache.userIDByShort
      && |back.origByShort| == |after.cache.origByShort| == |after.rows|
      && NamedUsers(back) == NamedUsers(after.cache) == UsersOf(after.rows)
  {
    RunsBacked(start, ops, after);
    BacksAnyOrder(after.rows, order, after.cache);
    RebuildBacked(order);
    BackedAgree(order, Rebuild(order).value, after.cache, short);
    BackedStats(order, after.cache);
    BackedStats(after.rows, after.cache);
  }

  // ---- What the order of the rows decides ----

  /** The lookup from original to short after a restart does not depend on the order of the rows. */
  ghost predicate OrderBlind(rows: seq<Row>) {
    forall order :: multiset(order) == multiset(rows) ==>
      Rebuild(order).Some? && Rebuild(rows).Some? && Rebuild(order).value.shortByOrig == Rebuild(rows).value.shortByOrig
  }

  function OriginalsOf(rows: seq<Row>): set<string> {
    set r | r in rows :: r.original
  }

  function MoveLast(rows: seq<Row>, i: nat): seq<Row>
    requires i < |rows|
  {
    rows[..i] + rows[i + 1..] + [rows[i]]
  }

  lemma LastRowWins(rows: seq<Row>, i: nat)
    requires NoNulls(rows) && i < |rows|
    ensures multiset(MoveLast(rows, i)) == multiset(rows)
    ensures Rebuild(MoveLast(rows, i)).Some?
    ensures rows[i].original in Rebuild(MoveLast(rows, i)).value.shortByOrig
    ensures Rebuild(MoveLast(rows, i)).value.shortByOrig[rows[i].original] == rows[i].short
  {
    var order := MoveLast(rows, i);
    assert rows == rows[..i] + [rows[i]] + rows[i + 1..];
    assert forall r :: r in order ==> r in rows;
    ScanAllExactly(order);
    var n := |order| - 1;
    assert order[n] == rows[i];
    assert ScanAll(order).value == ScanAll(order[..n]).value + [Scan(rows[i]).value];
    SaveOne(EMPTY, ScanAll(order[..n]).value, Scan(rows[i]).value);
  }

  /** Rows of the same original name the same short. */
  ghost predicate OneShortEach(rows: seq<Row>) {
    forall r, q :: r in rows && q in rows && r.original == q.original ==> r.short == q.short
  }

  /** Records that agree on the short of an original set that short, in any order. */
  lemma {:induction false} AgreedShort(ix: Index, urls: seq<URL>, i: nat)
    requires i < |urls|
    requires forall j :: 0 <= j < |urls| && urls[j].original == urls[i].original ==> urls[j].short == urls[i].short
    ensures urls[i].original in SaveAll(ix, urls).shortByOrig
    ensures SaveAll(ix, urls).shortByOrig[urls[i].original] == urls[i].short
  {
    var n := |urls| - 1;
    if urls[n].original != urls[i].original {
      assert urls[..n][i] == urls[i];
      AgreedShort(ix, urls[..n], i);
    }
  }

  /** With one short each, the lookup is the table read as a relation. */
  lemma ShortsReadOff(rows: seq<Row>)
    requires NoNulls(rows) && OneShortEach(rows)
    ensures Rebuild(rows).Some? && Rebuild(rows).value.shortByOrig.Keys == OriginalsOf(rows)
    ensures forall r :: r in rows ==> Rebuild(rows).value.shortByOrig[r.original] == r.short
  {
    ScanAllExactly(rows);
    var urls, m := ScanAll(rows).value, Rebuild(rows).value.shortByOrig;
    forall i | 0 <= i < |rows| ensures urls[i].original == rows[i].original && urls[i].short == rows[i].short {
      assert Some(urls[i]) == Scan(rows[i]);
    }
    forall i | 0 <= i < |rows| ensures rows[i].original in m && m[rows[i].original] == rows[i].short {
      AgreedShort(EMPTY, urls, i);
    }
    forall o | o in m ensures o in OriginalsOf(rows) {
      if forall u :: u in urls ==> u.original != o {
        ShortOfElsewhere(EMPTY, urls, o);
      } else {
        var i :| 0 <= i < |urls| && urls[i].original == o;
        assert rows[i] in rows;
      }
    }
  }

  /** Exactly when the order of the rows cannot matter for GetShort: when no original has rows with
      different shorts. */
  lemma OrderBlindExactly(rows: seq<Row>)
    requires NoNulls(rows)
    ensures OrderBlind(rows) <==> OneShortEach(rows)
  {
    if OneShortEach(rows) {
      ShortsReadOff(rows);
      forall order | multiset(order) == multiset(rows)
        ensures Rebuild(order).Some? && Rebuild(order).value.shortByOrig == Rebuild(rows).value.shortByOrig
      {
        SameRows(order, rows);
        ShortsReadOff(order);
        forall o | o in OriginalsOf(rows)
          ensures Rebuild(order).value.shortByOrig[o] == Rebuild(rows).value.shortByOrig[o]
        {
          var r :| r in rows && r.original == o;
        }
      }
    } else {
      var r, q :| r in rows && q in rows && r.original == q.original && r.short != q.short;
      var i :| 0 <= i < |rows| && rows[i] == r;
      var j :| 0 <= j < |rows| && rows[j] == q;
      LastRowWins(rows, i);
      LastRowWins(rows, j);
    }
  }

  lemma SameRows(a: seq<Row>, b: seq<Row>)
    requires multiset(a) == multiset(b)
    ensures |a| == |b| && OriginalsOf(a) == OriginalsOf(b) && ShortsOf(a) == ShortsOf(b)
    ensures forall r :: r in a <==> r in b
  {
    assert forall r :: r in a <==> r in multiset(a);
    assert forall r :: r in b <==> r in multiset(b);
    assert |a| == |multiset(a)| && |b| == |multiset(b)|;
  }

  /** Each committed row has its record's short and original, no owner and no deletion mark. */
  lemma CommittedRows(urls: seq<URL>, short: string, original: string)
    ensures |BatchRows(urls)| == |urls|
    ensures Row(short, original, None, false) in BatchRows(urls) <==>
      exists u :: u in urls && u.short == short && u.original == original
    ensures forall r :: r in BatchRows(urls) ==> r.userID == None && !r.isDeleted
  {
    if u :| u in urls && u.short == short && u.original == original {
      var i :| 0 <= i < |urls| && urls[i] == u;
      assert BatchRows(urls)[i] == Row(short, original, None, false);
    }
    if Row(short, original, None, false) in BatchRows(urls) {
      var i :| 0 <= i < |urls| && BatchRows(urls)[i] == Row(short, original, None, false);
      assert urls[i] in urls;
    }
  }

  /** The users the table counts: its owners, NULL and the empty name aside. */
  lemma UsersOfMeans(rows: seq<Row>, user: string)
    ensures user in UsersOf(rows) <==> user != "" && exists r :: r in rows && r.userID == Some(user)
  {
  }
}
