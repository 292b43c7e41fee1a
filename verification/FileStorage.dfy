/** File storage: the in-memory index plus a buffered append-only log that rebuilds it on restart. */
module FileStorage {
  import opened Model
  import opened InMemory
  import opened FileLog

  const BUFFER_SIZE := 4096

  /** Records are written under a fresh UUID, which the index does not keep. */
  function Strip(urls: seq<URL>): seq<URL> {
    seq(|urls|, i requires 0 <= i < |urls| => urls[i].(uuid := ""))
  }

  function Subsequence(a: seq<URL>, b: seq<URL>): bool {
    if a == [] then true
    else if b == [] then false
    else if a[|a| - 1] == b[|b| - 1] && Subsequence(a[..|a| - 1], b[..|b| - 1]) then true
    else Subsequence(a, b[..|b| - 1])
  }

  lemma EmptyLog(c: Codec, bytes: string)
    ensures bytes + "" == bytes + LogText(c, [])
  {
  }

  /** Reading one more line. */
  lemma ReadLine(c: Codec, rest: string, read: seq<URL>)
    requires rest != ""
    ensures var u := c.dec(DropCR(rest[..LineEnd(rest)]));
      (if u.Some? then read + [u.value] else read) + Decoded(c, AfterLine(rest)) == read + Decoded(c, rest)
  {
    DecodedUnfolds(c, rest);
    var u, later := c.dec(DropCR(rest[..LineEnd(rest)])), Decoded(c, AfterLine(rest));
    if u.Some? {
      assert read + [u.value] + later == read + ([u.value] + later);
    } else {
      assert [] + later == later;
    }
  }

  /** Writing one more record. */
  lemma LogGrows(c: Codec, initial: string, written: seq<URL>, record: URL, text: string)
    requires text == initial + LogText(c, written)
    ensures text + (c.enc(record) + "\n") == initial + LogText(c, written + [record])
  {
    LogAppends(c, written, [record]);
    assert LogText(c, [record]) == c.enc(record) + "\n" + LogText(c, []);
    assert text + (c.enc(record) + "\n") == initial + (LogText(c, written) + (c.enc(record) + "\n"));
  }

  class FileStorage {
    const codec: Codec
    const storage: InMemoryStorage
    /** What the file holds, and what the buffered writer still holds. */
    var disk: string
    var buffer: string
    const uuids: nat -> string
    var nextUUID: nat

    /** The file when it was opened, the records applied to the index since, and those encoded since. */
    ghost var initial: string
    ghost var applied: seq<URL>
    ghost var written: seq<URL>
    /** Whether a batch has been cut short. */
    ghost var cancelled: bool

    /** File and buffer together are the log; the file alone is at least what it was. */
    ghost predicate LogInOrder()
      reads this
    {
      && |buffer| <= BUFFER_SIZE
      && |initial| <= |disk| && disk[..|initial|] == initial
      && disk + buffer == initial + LogText(codec, written)
      && Numbered()
    }

    /** The i-th record written since the opening has the i-th UUID. */
    ghost predicate Numbered()
      reads this
    {
      nextUUID == |written| && forall i :: 0 <= i < |written| ==> written[i].uuid == uuids(i)
    }

    ghost predicate Valid()
      reads this, storage
    {
      && LogInOrder()
      && storage.Contents() == SaveAll(Load(codec, initial), applied)
      && Subsequence(Strip(written), Strip(applied))
      && (!cancelled ==> Strip(written) == Strip(applied))
    }

    /** Opening reads every line and skips those that do not decode. */
    constructor (codec: Codec, uuids: nat -> string, bytes: string)
      ensures Valid() && fresh(storage)
      ensures this.codec == codec && disk == bytes && initial == bytes && applied == [] && written == [] && !cancelled
      ensures storage.Contents() == Load(codec, bytes)
    {
      this.codec, this.uuids, nextUUID := codec, uuids, 0;
      disk, buffer := bytes, "";
      initial, applied, written, cancelled := bytes, [], [], false;
      var s := new InMemoryStorage();
      storage := s;
      new;
      LoadFromFile();
      EmptyLog(codec, bytes);
    }

    method LoadFromFile()
      requires storage.Contents() == EMPTY
      modifies storage
      ensures storage.Contents() == Load(codec, disk)
    {
      var rest := disk;
      ghost var read := [];
      while rest != ""
        invariant storage.Contents() == SaveAll(EMPTY, read)
        invariant read + Decoded(codec, rest) == Decoded(codec, disk)
        decreases |rest|
      {
        var line := DropCR(rest[..LineEnd(rest)]);
        ReadLine(codec, rest, read);
        rest := AfterLine(rest);
        var u := codec.dec(line);
        if u.Some? {
          storage.Save(u.value);
          SaveOne(EMPTY, read, u.value);
          read := read + [u.value];
        }
      }
      assert read + [] == read;
    }

    /** The buffered writer: it fills its buffer, spills it when full, and writes a large text directly
        when the buffer is empty. */
    method Write(text: string)
      requires |buffer| <= BUFFER_SIZE
      modifies `disk, `buffer
      ensures disk + buffer == old(disk + buffer) + text
      ensures |buffer| <= BUFFER_SIZE <= 4096
      ensures |old(disk)| <= |disk| && disk[..|old(disk)|] == old(disk)
      ensures |old(buffer)| + |text| <= 4096 ==> disk == old(disk) && buffer == old(buffer) + text
    {
      var rest := Spill(text);
      buffer := buffer + rest;
    }

    /** Writing to the file until the rest fits into the buffer. */
    method Spill(text: string) returns (rest: string)
      requires |buffer| <= BUFFER_SIZE
      modifies `disk, `buffer
      ensures disk + buffer + rest == old(disk + buffer) + text
      ensures |buffer| + |rest| <= BUFFER_SIZE
      ensures |old(disk)| <= |disk| && disk[..|old(disk)|] == old(disk)
      ensures |old(buffer)| + |text| <= BUFFER_SIZE ==> disk == old(disk) && buffer == old(buffer) && rest == text
    {
      rest := text;
      ghost var all, start := disk + buffer + text, disk;
      ghost var fits := |buffer| + |text| <= BUFFER_SIZE;
      while |rest| > BUFFER_SIZE - |buffer|
        invariant |buffer| <= BUFFER_SIZE
        invariant disk + buffer + rest == all
        invariant |start| <= |disk| && disk[..|start|] == start
        invariant fits ==> disk == old(disk) && buffer == old(buffer) && rest == text
        decreases |rest|, |buffer|
      {
        if buffer == "" {
          disk, rest := disk + rest, "";
        } else {
          var n := BUFFER_SIZE - |buffer|;
          assert rest == rest[..n] + rest[n..];
          disk, buffer, rest := disk + buffer + rest[..n], "", rest[n..];
        }
      }
    }

    method Flush()
      modifies `disk, `buffer
      ensures disk == old(disk + buffer) && buffer == ""
    {
      disk, buffer := disk + buffer, "";
    }

    method WriteURL(u: URL)
      requires LogInOrder()
      modifies `disk, `buffer, `nextUUID, `written
      ensures LogInOrder()
      ensures written == old(written) + [u.(uuid := uuids(old(nextUUID)))]
      ensures nextUUID == old(nextUUID) + 1
    {
      var record := u.(uuid := uuids(nextUUID));
      nextUUID := nextUUID + 1;
      ghost var before := disk + buffer;
      Write(codec.enc(record) + "\n");
      LogGrows(codec, initial, written, record, before);
      written := written + [record];
    }

    method Save(u: URL)
      requires Valid()
      modifies this, storage
      ensures Valid() && initial == old(initial) && cancelled == old(cancelled)
      ensures applied == old(applied) + [u] && Strip(written) == Strip(old(written) + [u])
      ensures buffer == ""
    {
      ghost var base, start := storage.Contents(), written;
      storage.Save(u);
      SaveAllSingle(base, u);
      WriteURL(u);
      StripOne(start, u, written);
      Flush();
      NoteApplied(start, [u], 1);
    }

    /** Index first, log second. A batch cut short in the index leaves the log alone; one cut short in
        the log has been applied in full. */
    method SaveBatch(ctx: Context, urls: seq<URL>) returns (err: Option<Error>)
      requires Valid()
      modifies this, storage, ctx
      ensures Valid() && initial == old(initial)
      ensures var k, m := ToIndex(old(ctx.deadline), |urls|), ToLog(old(ctx.deadline), |urls|);
        && applied == old(applied) + urls[..k]
        && Strip(written) == Strip(old(written) + urls[..m])
        && (if m == |urls| then err == None && buffer == "" else err == Some(Canceled))
      ensures cancelled == (old(cancelled) || err != None)
    {
      ghost var k := Saved(ctx.deadline, |urls|);
      err := storage.SaveBatch(ctx, urls);
      if err.Some? {
        NoteCutShort(urls[..k]);
      } else {
        assert urls[..k] == urls;
        err := AppendBatch(ctx, urls);
      }
    }

    /** The log's share of a batch that the index has taken in full. */
    method AppendBatch(ctx: Context, urls: seq<URL>) returns (err: Option<Error>)
      requires LogInOrder() && storage.Contents() == SaveAll(SaveAll(Load(codec, initial), applied), urls)
      requires Subsequence(Strip(written), Strip(applied)) && (!cancelled ==> Strip(written) == Strip(applied))
      modifies `disk, `buffer, `nextUUID, `written, `applied, `cancelled, ctx
      ensures Valid() && applied == old(applied) + urls
      ensures var m := Saved(old(ctx.deadline), |urls|);
        && Strip(written) == Strip(old(written) + urls[..m])
        && (if m == |urls| then err == None && buffer == "" else err == Some(Canceled))
      ensures cancelled == (old(cancelled) || err != None)
    {
      ghost var start := written;
      var m := WriteBatch(ctx, urls);
      NoteApplied(start, urls, m);
      if m < |urls| {
        return Some(Canceled);
      }
      Flush();
      return None;
    }

    /** Bookkeeping after the index took only these records of a batch and the log none. */
    ghost method NoteCutShort(batch: seq<URL>)
      requires LogInOrder() && storage.Contents() == SaveAll(SaveAll(Load(codec, initial), applied), batch)
      requires Subsequence(Strip(written), Strip(applied)) && (!cancelled ==> Strip(written) == Strip(applied))
      modifies `applied, `cancelled
      ensures Valid() && applied == old(applied) + batch && cancelled
    {
      assert written + batch[..0] == written;
      NoteApplied(written, batch, 0);
      cancelled := true;
    }

    /** Bookkeeping after a batch went to the index and its first `m` records to the log. */
    ghost method NoteApplied(start: seq<URL>, batch: seq<URL>, m: nat)
      requires LogInOrder() && storage.Contents() == SaveAll(SaveAll(Load(codec, initial), applied), batch)
      requires m <= |batch| && Strip(written) == Strip(start + batch[..m])
      requires Subsequence(Strip(start), Strip(applied)) && (!cancelled ==> Strip(start) == Strip(applied))
      modifies `applied, `cancelled
      ensures Valid() && applied == old(applied) + batch && cancelled == (old(cancelled) || m < |batch|)
    {
      SaveAllAppends(Load(codec, initial), applied, batch);
      BothGrow(start, applied, written, batch, m);
      applied := applied + batch;
      cancelled := cancelled || m < |batch|;
    }

    /** Encoding a batch until the context is done; how many records were encoded. */
    method WriteBatch(ctx: Context, urls: seq<URL>) returns (m: nat)
      requires LogInOrder()
      modifies `disk, `buffer, `nextUUID, `written, ctx
      ensures LogInOrder()
      ensures m == Saved(old(ctx.deadline), |urls|)
      ensures Strip(written) == Strip(old(written) + urls[..m])
    {
      m := 0;
      ghost var start := ctx.deadline;
      while m < |urls|
        invariant m <= Saved(start, |urls|) && ctx.deadline == start.Skip(m)
        invariant LogInOrder()
        invariant Strip(written) == Strip(old(written) + urls[..m])
      {
        SkipStep(start, m);
        var done := ctx.Poll();
        if done {
          return;
        }
        ghost var before := written;
        WriteURL(urls[m]);
        StripStep(before, written, old(written), urls, m);
        m := m + 1;
      }
    }

    /** Closing flushes what is still buffered. */
    method Close()
      requires Valid()
      modifies this
      ensures Valid() && buffer == ""
      ensures initial == old(initial) && applied == old(applied) && written == old(written)
      ensures cancelled == old(cancelled)
      ensures disk == initial + LogText(codec, written)
    {
      Flush();
      assert disk + buffer == disk;
    }
  }

  // ---- Log and index, in values ----

  lemma SaveAllSingle(ix: Index, u: URL)
    ensures SaveAll(ix, [u]) == SaveURL(ix, u)
  {
    assert [u][..0] == [];
  }

  lemma StripStep(before: seq<URL>, after: seq<URL>, start: seq<URL>, urls: seq<URL>, m: nat)
    requires m < |urls| && Strip(before) == Strip(start + urls[..m])
    requires |after| == |before| + 1 && after[..|before|] == before
    requires after[|before|].(uuid := "") == urls[m].(uuid := "")
    ensures Strip(after) == Strip(start + urls[..m + 1])
  {
    assert Strip(after) == Strip(before) + [urls[m].(uuid := "")];
    assert start + urls[..m + 1] == start + urls[..m] + [urls[m]];
  }

  lemma StripOne(start: seq<URL>, u: URL, after: seq<URL>)
    requires |after| == |start| + 1 && after[..|start|] == start && after[|start|].(uuid := "") == u.(uuid := "")
    ensures Strip(after) == Strip(start + [u]) == Strip(start + [u][..1])
  {
    assert [u][..1] == [u];
  }

  lemma {:induction false} SubsequenceSkips(a: seq<URL>, b: seq<URL>, c: seq<URL>)
    requires Subsequence(a, b)
    ensures Subsequence(a, b + c)
  {
    if c == [] {
      assert b + c == b;
    } else {
      var n := |c| - 1;
      assert (b + c)[..|b + c| - 1] == b + c[..n];
      SubsequenceSkips(a, b, c[..n]);
    }
  }

  lemma {:induction false} SubsequenceAppends(a: seq<URL>, b: seq<URL>, c: seq<URL>)
    requires Subsequence(a, b)
    ensures Subsequence(a + c, b + c)
  {
    if c == [] {
      assert a + c == a && b + c == b;
    } else {
      var n := |c| - 1;
      assert (a + c)[..|a + c| - 1] == a + c[..n];
      assert (b + c)[..|b + c| - 1] == b + c[..n];
      SubsequenceAppends(a, b, c[..n]);
    }
  }

  /** The log gets the first `m` of the records the index got. */
  lemma BothGrow(written: seq<URL>, applied: seq<URL>, after: seq<URL>, urls: seq<URL>, m: nat)
    requires m <= |urls| && Strip(after) == Strip(written + urls[..m])
    requires Subsequence(Strip(written), Strip(applied))
    ensures Subsequence(Strip(after), Strip(applied + urls))
    ensures m == |urls| && Strip(written) == Strip(applied) ==> Strip(after) == Strip(applied + urls)
  {
    StripConcat(written, urls[..m]);
    StripConcat(applied, urls);
    StripConcat(urls[..m], urls[m..]);
    assert urls[..m] + urls[m..] == urls;
    SubsequenceGrows(Strip(written), Strip(applied), Strip(urls[..m]), Strip(urls[m..]));
    if m == |urls| {
      assert urls[..m] == urls;
    }
  }

  lemma SubsequenceGrows(a: seq<URL>, b: seq<URL>, x: seq<URL>, y: seq<URL>)
    requires Subsequence(a, b)
    ensures Subsequence(a + x, b + (x + y))
  {
    SubsequenceAppends(a, b, x);
    SubsequenceSkips(a + x, b + x, y);
    assert b + (x + y) == b + x + y;
  }

  lemma StripConcat(a: seq<URL>, b: seq<URL>)
    ensures Strip(a + b) == Strip(a) + Strip(b)
  {
  }

  lemma {:induction false} SaveAllStripped(ix: Index, urls: seq<URL>)
    ensures SaveAll(ix, urls) == SaveAll(ix, Strip(urls))
  {
    if urls != [] {
      var n := |urls| - 1;
      assert Strip(urls)[..n] == Strip(urls[..n]);
      SaveAllStripped(ix, urls[..n]);
    }
  }

  /** What a reopened file restores: the old records, then the written ones. */
  lemma Reloaded(c: Codec, initial: string, written: seq<URL>)
    requires Lawful(c) && OnBoundary(initial)
    ensures Load(c, initial + LogText(c, written)) == SaveAll(Load(c, initial), written)
  {
    DecodedAppends(c, initial, LogText(c, written));
    DecodedLog(c, written);
    SaveAllAppends(EMPTY, Decoded(c, initial), written);
  }

  /** Close and reopen: when no batch was cut short, the closed file rebuilds exactly the four maps. */
  lemma ReopenRestores(c: Codec, initial: string, applied: seq<URL>, written: seq<URL>)
    requires Lawful(c) && OnBoundary(initial) && Strip(written) == Strip(applied)
    ensures Load(c, initial + LogText(c, written)) == SaveAll(Load(c, initial), applied)
  {
    Reloaded(c, initial, written);
    SaveAllStripped(Load(c, initial), written);
    SaveAllStripped(Load(c, initial), applied);
  }

  /** The beginning of a log, cut anywhere. */
  ghost predicate CutLogOf(c: Codec, records: seq<URL>, text: string) {
    text <= LogText(c, records)
  }

  /** What a storage may be opened on: any text of whole lines, or a log cut anywhere. */
  ghost predicate Openable(c: Codec, initial: string) {
    OnBoundary(initial) || exists records :: CutLogOf(c, records, initial)
  }

  /** The round trip: closing a storage and opening its file again. The index is the one it had when no
      batch was cut short, and after saves of new shorts only exactly when every record was written and
      none was glued to a torn line. */
  method CloseAndReopen(fs: FileStorage) returns (back: FileStorage)
    requires fs.Valid() && Lawful(fs.codec)
    modifies fs
    ensures fresh(back) && back.Valid()
    ensures back.storage.Contents() == Load(fs.codec, fs.initial + LogText(fs.codec, fs.written))
    ensures OnBoundary(fs.initial) && !old(fs.cancelled) ==> back.storage.Contents() == old(fs.storage.Contents())
    ensures Openable(fs.codec, fs.initial) && Fresh(Load(fs.codec, fs.initial), fs.applied) ==>
      (back.storage.Contents() == old(fs.storage.Contents()) <==>
        |fs.written| == |fs.applied| && (OnBoundary(fs.initial) || fs.applied == []))
  {
    fs.Close();
    if OnBoundary(fs.initial) && Strip(fs.written) == Strip(fs.applied) {
      ReopenRestores(fs.codec, fs.initial, fs.applied, fs.written);
    }
    if Openable(fs.codec, fs.initial) && Fresh(Load(fs.codec, fs.initial), fs.applied) {
      ReopenExactly(fs.codec, fs.initial, fs.applied, fs.written);
    }
    back := new FileStorage(fs.codec, fs.uuids, fs.disk);
  }

  /** Exactly when a storage is rebuilt in full after saves of new shorts: when every record of the index
      was written to the log, and the log was not opened on a torn line that swallowed the first. */
  lemma ReopenExactly(c: Codec, initial: string, applied: seq<URL>, written: seq<URL>)
    requires Lawful(c) && Openable(c, initial)
    requires Subsequence(Strip(written), Strip(applied)) && Fresh(Load(c, initial), applied)
    ensures Load(c, initial + LogText(c, written)) == SaveAll(Load(c, initial), applied) <==>
      |written| == |applied| && (OnBoundary(initial) || applied == [])
  {
    assert |Strip(written)| == |written| && |Strip(applied)| == |applied|;
    SubsequenceLength(Strip(written), Strip(applied));
    if !OnBoundary(initial) {
      TornReopenExactly(c, initial, applied, written);
    } else if |written| == |applied| {
      ReopenRestores(c, initial, applied, written);
    } else {
      Reloaded(c, initial, written);
      FewerDiffer(Load(c, initial), applied, Load(c, initial), written);
    }
  }

  lemma TornReopenExactly(c: Codec, initial: string, applied: seq<URL>, written: seq<URL>)
    requires Lawful(c) && Openable(c, initial) && !OnBoundary(initial)
    requires |written| <= |applied| && Fresh(Load(c, initial), applied)
    ensures Load(c, initial + LogText(c, written)) == SaveAll(Load(c, initial), applied) <==> applied == []
  {
    if written == [] {
      assert initial + LogText(c, written) == initial;
      if applied != [] {
        FewerDiffer(Load(c, initial), applied, Load(c, initial), []);
      }
    } else {
      var records :| CutLogOf(c, records, initial);
      assert initial == LogText(c, records)[..|initial|];
      var before := FirstIsLost(c, records, initial, written);
      FewerDiffer(Load(c, initial), applied, before, written[1..]);
    }
  }

  function Size(ix: Index): nat {
    |ix.origByShort|
  }

  /** Fewer saves on less than a base cannot give what the new shorts gave on the base. */
  lemma FewerDiffer(base: Index, applied: seq<URL>, less: Index, written: seq<URL>)
    requires Fresh(base, applied) && Size(less) <= Size(base) && |written| < |applied|
    ensures SaveAll(less, written) != SaveAll(base, applied)
  {
    SaveFreshSize(base, applied);
    SaveAllSize(less, written);
    assert Size(SaveAll(less, written)) < Size(SaveAll(base, applied));
  }

  /** Behind a torn line the first record written is lost. */
  lemma FirstIsLost(c: Codec, records: seq<URL>, torn: string, written: seq<URL>) returns (before: Index)
    requires Lawful(c) && CutLogOf(c, records, torn) && written != [] && !OnBoundary(torn)
    ensures Load(c, torn + LogText(c, written)) == SaveAll(before, written[1..])
    ensures Size(before) <= Size(Load(c, torn))
  {
    assert torn == LogText(c, records)[..|torn|];
    var k, tail := CutLog(c, records, |torn|);
    AppendAfterTear(c, records, torn, k, tail, written);
    CutReads(c, records, torn, k, tail);
    before := SaveAll(EMPTY, records[..k]);
    SaveAllAppends(EMPTY, records[..k], written[1..]);
    MoreIsLarger(records, k, if TailIsWhole(c, records, k, tail) then k + 1 else k);
  }

  lemma MoreIsLarger(records: seq<URL>, j: nat, k: nat)
    requires j <= k <= |records|
    ensures Size(SaveAll(EMPTY, records[..j])) <= Size(SaveAll(EMPTY, records[..k]))
  {
    assert records[..k] == records[..j] + records[j..k];
    SaveAllAppends(EMPTY, records[..j], records[j..k]);
    SaveAllKeys(SaveAll(EMPTY, records[..j]), records[j..k]);
    SmallerSet(SaveAll(EMPTY, records[..j]).origByShort.Keys, SaveAll(EMPTY, records[..k]).origByShort.Keys);
  }

  lemma {:induction false} SaveAllSize(ix: Index, urls: seq<URL>)
    ensures Size(SaveAll(ix, urls)) <= Size(ix) + |urls|
  {
    if urls != [] {
      var n := |urls| - 1;
      SaveAllSize(ix, urls[..n]);
      SaveKeys(SaveAll(ix, urls[..n]), urls[n]);
    }
  }

  /** A subsequence of the same length is the same sequence. */
  lemma {:induction false} SubsequenceLength(a: seq<URL>, b: seq<URL>)
    requires Subsequence(a, b)
    ensures |a| <= |b| && (|a| == |b| ==> a == b)
  {
    if a != [] {
      var n, m := |a| - 1, |b| - 1;
      if a[n] == b[m] && Subsequence(a[..n], b[..m]) {
        SubsequenceLength(a[..n], b[..m]);
        assert a == a[..n] + [a[n]] && b == b[..m] + [b[m]];
      } else {
        SubsequenceLength(a, b[..m]);
      }
    }
  }

  // ---- One batch ----

  /** How many of the `n` records of a batch reach the index, and how many the log. */
  function ToIndex(deadline: Deadline, n: nat): nat {
    Saved(deadline, n)
  }

  function ToLog(deadline: Deadline, n: nat): nat {
    if Saved(deadline, n) < n then 0 else Saved(deadline.Skip(n), n)
  }

  /** What index and reopened log hold after one batch on a storage that had lost nothing. */
  lemma BatchReopens(c: Codec, initial: string, applied: seq<URL>, written: seq<URL>, batch: seq<URL>)
    requires Lawful(c) && OnBoundary(initial) && Strip(written) == Strip(applied + batch)
    ensures Load(c, initial + LogText(c, written)) == SaveAll(SaveAll(Load(c, initial), applied), batch)
  {
    ReopenRestores(c, initial, applied + batch, written);
    SaveAllAppends(Load(c, initial), applied, batch);
  }

  /** Exactly when one batch of new shorts survives closing and reopening as far as the index has it:
      when the context lasted for both passes over the batch, or was done before the first. */
  lemma CutBatchReopensExactly(c: Codec, initial: string, applied: seq<URL>, urls: seq<URL>, deadline: Deadline,
                               written: seq<URL>)
    requires Lawful(c) && OnBoundary(initial) && Fresh(SaveAll(Load(c, initial), applied), urls)
    requires Strip(written) == Strip(applied + urls[..ToLog(deadline, |urls|)])
    ensures var live := SaveAll(SaveAll(Load(c, initial), applied), urls[..ToIndex(deadline, |urls|)]);
      Load(c, initial + LogText(c, written)) == live <==>
        urls == [] || deadline.Never? || deadline.polls == 0 || 2 * |urls| <= deadline.polls
  {
    var base, k, m := SaveAll(Load(c, initial), applied), ToIndex(deadline, |urls|), ToLog(deadline, |urls|);
    BatchReopens(c, initial, applied, written, urls[..m]);
    if m < k {
      FewerDiffer(base, urls[..k], base, urls[..m]);
    }
  }

  /** What is lost otherwise: each record that reached the index and not the log is answered before the
      restart and unknown after it. */
  lemma CutBatchLoses(c: Codec, initial: string, applied: seq<URL>, urls: seq<URL>, deadline: Deadline,
                      written: seq<URL>, i: nat)
    requires Lawful(c) && OnBoundary(initial) && Fresh(SaveAll(Load(c, initial), applied), urls)
    requires Strip(written) == Strip(applied + urls[..ToLog(deadline, |urls|)])
    requires ToLog(deadline, |urls|) <= i < ToIndex(deadline, |urls|)
    ensures var live := SaveAll(SaveAll(Load(c, initial), applied), urls[..ToIndex(deadline, |urls|)]);
      && Lookup(live, urls[i].short) != Err(NotFound)
      && Lookup(Load(c, initial + LogText(c, written)), urls[i].short) == Err(NotFound)
  {
    var base, k, m := SaveAll(Load(c, initial), applied), ToIndex(deadline, |urls|), ToLog(deadline, |urls|);
    BatchReopens(c, initial, applied, written, urls[..m]);
    assert urls[..k][i] == urls[i];
    SaveAllAt(base, urls[..k], i);
    SaveAllKeys(base, urls[..m]);
  }

  lemma {:induction false} SubsequenceMember(a: seq<URL>, b: seq<URL>, i: nat) returns (j: nat)
    requires Subsequence(a, b) && i < |a|
    ensures j < |b| && b[j] == a[i]
  {
    var n := |b| - 1;
    if a[|a| - 1] == b[n] && Subsequence(a[..|a| - 1], b[..n]) {
      if i == |a| - 1 {
        j := n;
      } else {
        j := SubsequenceMember(a[..|a| - 1], b[..n], i);
      }
    } else {
      j := SubsequenceMember(a, b[..n], i);
    }
  }

  ghost predicate DistinctShorts(urls: seq<URL>) {
    forall i, j :: 0 <= i < j < |urls| ==> urls[i].short != urls[j].short
  }

  /** `back` knows nothing of the short that `live` does not. */
  predicate NothingNew(back: Index, live: Index, short: string) {
    short in back.origByShort ==>
      && short in live.origByShort && back.origByShort[short] == live.origByShort[short]
      && short in live.userIDByShort && short in back.userIDByShort
      && back.userIDByShort[short] == live.userIDByShort[short]
  }

  /** Saving only some of the records, all of new shorts, gives part of the same index. */
  lemma SomeRecordsKept(base: Index, applied: seq<URL>, written: seq<URL>, short: string)
    requires Consistent(base) && Subsequence(Strip(written), Strip(applied))
    requires NewTo(base, applied)
    ensures NothingNew(SaveAll(base, written), SaveAll(base, applied), short)
  {
    SaveAllKeys(base, written);
    SaveAllKeys(base, applied);
    if short in Shorts(written) {
      LastRecord(base, written, short);
      var i := LastOf(written, short);
      var j := SubsequenceMember(Strip(written), Strip(applied), i);
      SaveAllAt(base, applied, j);
      assert Strip(applied)[j] == Strip(written)[i];
    } else if short in base.origByShort {
      SaveAllElsewhere(base, written, short);
      SaveAllElsewhere(base, applied, short);
    }
  }

  /** On whole lines: the reloaded index knows nothing the live one did not. */
  lemma WholeLinesKeepRecords(c: Codec, initial: string, applied: seq<URL>, written: seq<URL>, short: string)
    requires Lawful(c) && OnBoundary(initial) && Subsequence(Strip(written), Strip(applied))
    requires NewTo(Load(c, initial), applied)
    ensures NothingNew(Load(c, initial + LogText(c, written)), SaveAll(Load(c, initial), applied), short)
  {
    Reloaded(c, initial, written);
    SaveAllKeeps(EMPTY, Decoded(c, initial));
    SomeRecordsKept(Load(c, initial), applied, written, short);
  }

  ghost predicate NewTo(ix: Index, urls: seq<URL>) {
    DistinctShorts(urls) && forall u :: u in urls ==> u.short !in ix.origByShort
  }

  /** The saved shorts are new, and a torn log had no short twice. */
  ghost predicate NewShorts(c: Codec, initial: string, applied: seq<URL>) {
    || (OnBoundary(initial) && NewTo(Load(c, initial), applied))
    || exists records :: CutLogOf(c, records, initial) && DistinctShorts(records + applied)
  }

  /** With batches cut short, a log opened torn, or both, and only new shorts saved, the reloaded index
      knows nothing the live one did not, and gives every short it knows the original and the owner it
      had. */
  lemma ReopenKeepsRecords(c: Codec, initial: string, applied: seq<URL>, written: seq<URL>, short: string)
    requires Lawful(c) && Subsequence(Strip(written), Strip(applied)) && NewShorts(c, initial, applied)
    ensures NothingNew(Load(c, initial + LogText(c, written)), SaveAll(Load(c, initial), applied), short)
  {
    if OnBoundary(initial) && NewTo(Load(c, initial), applied) {
      WholeLinesKeepRecords(c, initial, applied, written, short);
    } else {
      var records :| CutLogOf(c, records, initial) && DistinctShorts(records + applied);
      assert initial == LogText(c, records)[..|initial|];
      TornKeepsRecords(c, records, |initial|, applied, written, short);
    }
  }

  lemma {:induction false} SubsequenceDropsFirst(a: seq<URL>, b: seq<URL>)
    requires Subsequence(a, b) && a != []
    ensures Subsequence(a[1..], b)
  {
    var n, m := |a| - 1, |b| - 1;
    if a[n] == b[m] && Subsequence(a[..n], b[..m]) {
      if 0 < n {
        SubsequenceDropsFirst(a[..n], b[..m]);
        assert a[1..][..n - 1] == a[..n][1..];
      }
    } else {
      SubsequenceDropsFirst(a, b[..m]);
    }
  }

  /** On a torn log, when no short was ever saved twice. */
  lemma TornKeepsRecords(c: Codec, records: seq<URL>, n: nat, applied: seq<URL>, written: seq<URL>, short: string)
    requires Lawful(c) && n <= |LogText(c, records)| && Subsequence(Strip(written), Strip(applied))
    requires DistinctShorts(records + applied)
    ensures var torn := LogText(c, records)[..n];
      NothingNew(Load(c, torn + LogText(c, written)), SaveAll(Load(c, torn), applied), short)
  {
    var torn := LogText(c, records)[..n];
    var j, tail := CutLog(c, records, n);
    CutReads(c, records, torn, j, tail);
    var k := if TailIsWhole(c, records, j, tail) then j + 1 else j;
    SaveAllAppends(EMPTY, records[..k], applied);
    PrefixDistinct(records, applied, k);
    if written == [] {
      assert torn + LogText(c, written) == torn && records[..k] + [] == records[..k];
      AllButSome(records, k, k, applied, written);
      SomeRecordsKept(EMPTY, records[..k] + applied, records[..k] + [], short);
    } else {
      AppendAfterTear(c, records, torn, j, tail, written);
      var rest := if tail == "" then written else written[1..];
      RestIsSubsequence(applied, written, rest);
      AllButSome(records, j, k, applied, rest);
      SomeRecordsKept(EMPTY, records[..k] + applied, records[..j] + rest, short);
    }
  }

  lemma RestIsSubsequence(applied: seq<URL>, written: seq<URL>, rest: seq<URL>)
    requires Subsequence(Strip(written), Strip(applied)) && written != [] && (rest == written || rest == written[1..])
    ensures Subsequence(Strip(rest), Strip(applied))
  {
    SubsequenceDropsFirst(Strip(written), Strip(applied));
    assert Strip(written)[1..] == Strip(written[1..]);
  }

  lemma PrefixDistinct(records: seq<URL>, applied: seq<URL>, k: nat)
    requires DistinctShorts(records + applied) && k <= |records|
    ensures DistinctShorts(records[..k] + applied)
  {
    var all, some := records + applied, records[..k] + applied;
    forall i | 0 <= i < |some| ensures some[i] == all[if i < k then i else i - k + |records|] {
    }
  }

  lemma {:induction false} SubsequenceConcat(a: seq<URL>, b: seq<URL>, x: seq<URL>, y: seq<URL>)
    requires Subsequence(a, b) && Subsequence(x, y)
    ensures Subsequence(a + x, b + y)
    decreases |y|
  {
    if x == [] {
      assert a + x == a;
      SubsequenceSkips(a, b, y);
    } else {
      var n, m := |x| - 1, |y| - 1;
      assert (a + x)[..|a + x| - 1] == a + x[..n] && (b + y)[..|b + y| - 1] == b + y[..m];
      if x[n] == y[m] && Subsequence(x[..n], y[..m]) {
        SubsequenceConcat(a, b, x[..n], y[..m]);
      } else {
        SubsequenceConcat(a, b, x, y[..m]);
      }
    }
  }

  lemma AllButSome(records: seq<URL>, j: nat, k: nat, applied: seq<URL>, rest: seq<URL>)
    requires j <= k <= |records| && Subsequence(Strip(rest), Strip(applied))
    ensures Subsequence(Strip(records[..j] + rest), Strip(records[..k] + applied))
  {
    StripConcat(records[..j], rest);
    StripConcat(records[..k], applied);
    StripConcat(records[..j], records[j..k]);
    assert records[..j] + records[j..k] == records[..k];
    assert [] + Strip(records[..j]) == Strip(records[..j]);
    SubsequenceAppends([], [], Strip(records[..j]));
    SubsequenceSkips(Strip(records[..j]), Strip(records[..j]), Strip(records[j..k]));
    SubsequenceConcat(Strip(records[..j]), Strip(records[..k]), Strip(rest), Strip(applied));
  }
}
