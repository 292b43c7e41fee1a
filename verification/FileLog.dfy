/** The append-only log: one encoded record per line, read back line by line. */
module FileLog {
  import opened Model
  import opened InMemory

  /** The record codec, kept abstract. */
  datatype Codec = Codec(enc: URL -> string, dec: string -> Option<URL>)

  /** What is used of JSON: decoding undoes encoding, an encoded record stays on one line, and neither a
      proper prefix of a record nor a cut record followed by another one decodes. */
  ghost predicate Lawful(c: Codec) {
    && (forall u :: c.dec(c.enc(u)) == Some(u))
    && (forall u :: c.enc(u) != "" && '\n' !in c.enc(u) && '\r' !in c.enc(u))
    && (forall u, k :: 0 <= k < |c.enc(u)| ==> c.dec(c.enc(u)[..k]) == None)
    && (forall u, k, v :: 0 < k <= |c.enc(u)| ==> c.dec(c.enc(u)[..k] + c.enc(v)) == None)
  }

  function LogText(c: Codec, records: seq<URL>): string {
    if records == [] then "" else c.enc(records[0]) + "\n" + LogText(c, records[1..])
  }

  // ---- Reading lines ----

  /** Where the first line ends: at its newline, or at the end of the text. */
  function LineEnd(text: string): (n: nat)
    ensures n <= |text|
  {
    if text == "" || text[0] == '\n' then 0 else 1 + LineEnd(text[1..])
  }

  function DropCR(line: string): string {
    if line != "" && line[|line| - 1] == '\r' then line[..|line| - 1] else line
  }

  function AfterLine(text: string): string {
    var n := LineEnd(text);
    if n < |text| then text[n + 1..] else ""
  }

  /** The tokens of a line scanner: no token for an empty last line. */
  function Lines(text: string): seq<string>
    decreases |text|
  {
    if text == "" then [] else [DropCR(text[..LineEnd(text)])] + Lines(AfterLine(text))
  }

  function DecodeLine(c: Codec, line: string): seq<URL> {
    match c.dec(line)
    case None => []
    case Some(u) => [u]
  }

  function DecodeLines(c: Codec, lines: seq<string>): seq<URL> {
    if lines == [] then [] else DecodeLine(c, lines[0]) + DecodeLines(c, lines[1..])
  }

  /** The records read back: lines that do not decode are skipped. */
  function Decoded(c: Codec, text: string): seq<URL> {
    DecodeLines(c, Lines(text))
  }

  function Load(c: Codec, text: string): Index {
    SaveAll(EMPTY, Decoded(c, text))
  }

  /** One line at a time. */
  lemma DecodedUnfolds(c: Codec, text: string)
    requires text != ""
    ensures Decoded(c, text) == DecodeLine(c, DropCR(text[..LineEnd(text)])) + Decoded(c, AfterLine(text))
  {
    var line := DropCR(text[..LineEnd(text)]);
    assert Lines(text) == [line] + Lines(AfterLine(text));
    assert Lines(text)[0] == line && Lines(text)[1..] == Lines(AfterLine(text));
  }

  lemma {:induction false} DecodeLinesAppends(c: Codec, a: seq<string>, b: seq<string>)
    ensures DecodeLines(c, a + b) == DecodeLines(c, a) + DecodeLines(c, b)
  {
    if a == [] {
      assert a + b == b;
    } else {
      assert (a + b)[1..] == a[1..] + b;
      DecodeLinesAppends(c, a[1..], b);
      var x, y, z := DecodeLine(c, a[0]), DecodeLines(c, a[1..]), DecodeLines(c, b);
      assert x + (y + z) == x + y + z;
    }
  }

  lemma {:induction false} FirstLine(line: string, rest: string)
    requires '\n' !in line
    ensures LineEnd(line + "\n" + rest) == |line|
    ensures Lines(line + "\n" + rest) == [DropCR(line)] + Lines(rest)
  {
    var text := line + "\n" + rest;
    FirstLineEnd(line, rest);
    assert text[..|line|] == line;
    assert text[|line| + 1..] == rest;
  }

  lemma {:induction false} FirstLineEnd(line: string, rest: string)
    requires '\n' !in line
    ensures LineEnd(line + "\n" + rest) == |line|
  {
    if line != "" {
      assert (line + "\n" + rest)[1..] == line[1..] + "\n" + rest;
      FirstLineEnd(line[1..], rest);
    }
  }

  lemma {:induction false} OnlyLineEnd(line: string)
    requires '\n' !in line
    ensures LineEnd(line) == |line|
  {
    if line != "" {
      OnlyLineEnd(line[1..]);
    }
  }

  lemma OnlyLine(line: string)
    requires '\n' !in line && '\r' !in line && line != ""
    ensures Lines(line) == [line]
  {
    OnlyLineEnd(line);
    assert line[..|line|] == line;
    assert line[|line| - 1] in line;
  }

  /** A text that the next append starts on a line of its own. */
  predicate OnBoundary(text: string) {
    text == "" || text[|text| - 1] == '\n'
  }

  /** A text on a line boundary starts with a whole line. */
  lemma {:induction false} CutFirstLine(text: string) returns (line: string, rest: string)
    requires text != "" && OnBoundary(text)
    ensures '\n' !in line && text == line + "\n" + rest && OnBoundary(rest)
  {
    if text[0] == '\n' {
      line, rest := "", text[1..];
    } else {
      line, rest := CutFirstLine(text[1..]);
      line := [text[0]] + line;
    }
  }

  /** Appending to a text on a line boundary appends lines, whatever the text holds. */
  lemma {:induction false} LinesAppend(text: string, more: string)
    requires OnBoundary(text)
    ensures Lines(text + more) == Lines(text) + Lines(more)
    decreases |text|
  {
    if text == "" {
      assert text + more == more;
    } else {
      var line, rest := CutFirstLine(text);
      calc {
        Lines(text + more);
        { assert text + more == line + "\n" + (rest + more); }
        Lines(line + "\n" + (rest + more));
        { FirstLine(line, rest + more); }
        [DropCR(line)] + Lines(rest + more);
        { LinesAppend(rest, more); }
        [DropCR(line)] + (Lines(rest) + Lines(more));
        [DropCR(line)] + Lines(rest) + Lines(more);
        { FirstLine(line, rest); }
        Lines(text) + Lines(more);
      }
    }
  }

  lemma DecodedAppends(c: Codec, text: string, more: string)
    requires OnBoundary(text)
    ensures Decoded(c, text + more) == Decoded(c, text) + Decoded(c, more)
  {
    LinesAppend(text, more);
    DecodeLinesAppends(c, Lines(text), Lines(more));
  }

  lemma DecodedFirst(c: Codec, line: string, rest: string)
    requires '\n' !in line
    ensures Decoded(c, line + "\n" + rest) == DecodeLine(c, DropCR(line)) + Decoded(c, rest)
  {
    FirstLine(line, rest);
    var lines := Lines(line + "\n" + rest);
    assert lines[0] == DropCR(line) && lines[1..] == Lines(rest);
  }

  lemma EncodedLine(c: Codec, u: URL)
    requires Lawful(c)
    ensures '\n' !in c.enc(u) && DecodeLine(c, DropCR(c.enc(u))) == [u]
  {
    var e := c.enc(u);
    assert e[|e| - 1] in e;
    assert DropCR(e) == e;
    assert c.dec(e) == Some(u);
  }

  /** A log reads back as its records, one line each. */
  lemma {:induction false} DecodedLog(c: Codec, records: seq<URL>)
    requires Lawful(c)
    ensures Decoded(c, LogText(c, records)) == records
    ensures |Lines(LogText(c, records))| == |records|
    ensures OnBoundary(LogText(c, records))
  {
    if records != [] {
      var e, rest := c.enc(records[0]), LogText(c, records[1..]);
      EncodedLine(c, records[0]);
      FirstLine(e, rest);
      DecodedFirst(c, e, rest);
      DecodedLog(c, records[1..]);
      assert [records[0]] + records[1..] == records;
    }
  }

  lemma {:induction false} LogAppends(c: Codec, a: seq<URL>, b: seq<URL>)
    ensures LogText(c, a + b) == LogText(c, a) + LogText(c, b)
  {
    if a == [] {
      assert a + b == b;
    } else {
      assert (a + b)[1..] == a[1..] + b;
      LogAppends(c, a[1..], b);
    }
  }

  // ---- Torn logs ----

  /** The cut log: `k` whole lines, then a tail that is empty or the beginning of the next record. */
  ghost predicate Cut(c: Codec, records: seq<URL>, torn: string, k: nat, tail: string) {
    && k <= |records|
    && torn == LogText(c, records[..k]) + tail
    && (tail != "" ==> k < |records| && |tail| <= |c.enc(records[k])| && tail == c.enc(records[k])[..|tail|])
  }

  /** Every prefix of a log is cut like that. */
  lemma {:induction false} CutLog(c: Codec, records: seq<URL>, n: nat) returns (k: nat, tail: string)
    requires n <= |LogText(c, records)|
    ensures Cut(c, records, LogText(c, records)[..n], k, tail)
    decreases |records|
  {
    k, tail := 0, LogText(c, records)[..n];
    assert records[..0] == [] && LogText(c, records[..0]) + tail == tail;
    if records != [] {
      var e, rest := c.enc(records[0]), LogText(c, records[1..]);
      if |e| < n {
        k, tail := CutLog(c, records[1..], n - |e| - 1);
        CutMore(c, records, n - |e| - 1, k, tail);
        assert LogText(c, records)[..n] == e + "\n" + rest[..n - |e| - 1];
        k := k + 1;
      } else {
        assert tail == e[..n];
      }
    }
  }

  lemma CutMore(c: Codec, records: seq<URL>, m: nat, k: nat, tail: string)
    requires records != [] && m <= |LogText(c, records[1..])|
    requires Cut(c, records[1..], LogText(c, records[1..])[..m], k, tail)
    ensures Cut(c, records, c.enc(records[0]) + "\n" + LogText(c, records[1..])[..m], k + 1, tail)
  {
    var e := c.enc(records[0]) + "\n";
    assert records[..k + 1][0] == records[0] && records[..k + 1][1..] == records[1..][..k];
    assert e + (LogText(c, records[1..][..k]) + tail) == e + LogText(c, records[1..][..k]) + tail;
  }

  /** Whether the tail is a record that lacks only its newline. */
  predicate TailIsWhole(c: Codec, records: seq<URL>, k: nat, tail: string) {
    tail != "" && k < |records| && tail == c.enc(records[k])
  }

  lemma TailReads(c: Codec, records: seq<URL>, torn: string, k: nat, tail: string)
    requires Lawful(c) && Cut(c, records, torn, k, tail)
    ensures Decoded(c, tail) == if TailIsWhole(c, records, k, tail) then [records[k]] else []
    ensures |Lines(tail)| == if tail == "" then 0 else 1
    ensures tail != "" ==> !OnBoundary(tail)
  {
    if tail != "" {
      var e := c.enc(records[k]);
      assert forall x :: x in tail ==> x in e;
      OnlyLine(tail);
      assert e[..|e|] == e;
      assert tail[|tail| - 1] in e;
      if |tail| < |e| {
        assert c.dec(e[..|tail|]) == None;
      } else {
        assert tail == e && c.dec(c.enc(records[k])) == Some(records[k]);
      }
      assert DecodeLines(c, [tail]) == DecodeLine(c, tail) + DecodeLines(c, [tail][1..]);
    }
  }

  /** A log in front of anything. */
  lemma LogThen(c: Codec, records: seq<URL>, text: string)
    requires Lawful(c)
    ensures Decoded(c, LogText(c, records) + text) == records + Decoded(c, text)
    ensures |Lines(LogText(c, records) + text)| == |records| + |Lines(text)|
  {
    DecodedLog(c, records);
    DecodedAppends(c, LogText(c, records), text);
    LinesAppend(LogText(c, records), text);
  }

  /** What a cut log reads back as. */
  lemma CutReads(c: Codec, records: seq<URL>, torn: string, k: nat, tail: string)
    requires Lawful(c) && Cut(c, records, torn, k, tail)
    ensures Decoded(c, torn) == records[..if TailIsWhole(c, records, k, tail) then k + 1 else k]
    ensures |Lines(torn)| == k + if tail == "" then 0 else 1
  {
    calc {
      Decoded(c, torn);
      { LogThen(c, records[..k], tail); }
      records[..k] + Decoded(c, tail);
      { TailReads(c, records, torn, k, tail); }
      records[..k] + if TailIsWhole(c, records, k, tail) then [records[k]] else [];
      records[..if TailIsWhole(c, records, k, tail) then k + 1 else k];
    }
    calc {
      |Lines(torn)|;
      { LogThen(c, records[..k], tail); }
      k + |Lines(tail)|;
      { TailReads(c, records, torn, k, tail); }
      k + if tail == "" then 0 else 1;
    }
  }

  /** How many records lie completely within the first `n` bytes, their newline aside. */
  ghost predicate Complete(c: Codec, records: seq<URL>, n: nat, k: nat) {
    && k <= |records|
    && (0 < k ==> |LogText(c, records[..k])| <= n + 1)
    && (k < |records| ==> n + 1 < |LogText(c, records[..k + 1])|)
  }

  lemma CutIsComplete(c: Codec, records: seq<URL>, n: nat, k: nat, tail: string)
    requires Lawful(c) && n <= |LogText(c, records)| && Cut(c, records, LogText(c, records)[..n], k, tail)
    ensures Complete(c, records, n, if TailIsWhole(c, records, k, tail) then k + 1 else k)
  {
    if k < |records| {
      NextRecord(c, records, k);
      assert |tail| < |c.enc(records[k])| || tail == c.enc(records[k]);
      if TailIsWhole(c, records, k, tail) && k + 1 < |records| {
        NextRecord(c, records, k + 1);
      }
    }
  }

  lemma NextRecord(c: Codec, records: seq<URL>, k: nat)
    requires k < |records|
    ensures |LogText(c, records[..k + 1])| == |LogText(c, records[..k])| + |c.enc(records[k])| + 1
  {
    assert records[..k + 1] == records[..k] + [records[k]];
    LogAppends(c, records[..k], [records[k]]);
  }

  /** Torn-log recovery: cut anywhere, the log reads back as exactly the records that are complete, so
      the maps are those of a prefix of the saves, and at most one line, the last, is skipped. */
  lemma TornLogRecovery(c: Codec, records: seq<URL>, n: nat) returns (k: nat)
    requires Lawful(c) && n <= |LogText(c, records)|
    ensures Complete(c, records, n, k)
    ensures Decoded(c, LogText(c, records)[..n]) == records[..k]
    ensures Load(c, LogText(c, records)[..n]) == SaveAll(EMPTY, records[..k])
    ensures |Lines(LogText(c, records)[..n])| <= k + 1
  {
    var torn := LogText(c, records)[..n];
    var j, tail := CutLog(c, records, n);
    k := if TailIsWhole(c, records, j, tail) then j + 1 else j;
    CutIsComplete(c, records, n, j, tail);
    CutReads(c, records, torn, j, tail);
  }

  /** A cut record followed by new ones: one unreadable line, then the rest. */
  lemma GluedLine(c: Codec, u: URL, n: nat, more: seq<URL>)
    requires Lawful(c) && 0 < n <= |c.enc(u)| && more != []
    ensures Decoded(c, c.enc(u)[..n] + LogText(c, more)) == more[1..]
  {
    var torn, first, others := c.enc(u)[..n], c.enc(more[0]), LogText(c, more[1..]);
    assert torn + LogText(c, more) == (torn + first) + "\n" + others;
    assert (torn + first)[|torn + first| - 1] in first;
    assert DropCR(torn + first) == torn + first;
    DecodedFirst(c, torn + first, others);
    DecodedLog(c, more[1..]);
  }

  /** Appending to a log that was cut: off a line boundary, the first added record is glued to the torn
      line and both are unreadable, even when the torn one was complete. */
  lemma AppendAfterTear(c: Codec, records: seq<URL>, torn: string, k: nat, tail: string, more: seq<URL>)
    requires Lawful(c) && Cut(c, records, torn, k, tail) && more != []
    ensures Decoded(c, torn + LogText(c, more)) == records[..k] + if tail == "" then more else more[1..]
    ensures OnBoundary(torn) <==> tail == ""
  {
    var added, read := LogText(c, more), if tail == "" then more else more[1..];
    calc {
      Decoded(c, torn + added);
      { assert torn + added == LogText(c, records[..k]) + (tail + added); }
      Decoded(c, LogText(c, records[..k]) + (tail + added));
      { LogThen(c, records[..k], tail + added); }
      records[..k] + Decoded(c, tail + added);
      { TailThen(c, records, torn, k, tail, more); }
      records[..k] + read;
    }
    BoundaryOfCut(c, records, torn, k, tail);
  }

  /** New records behind the tail of a cut log. */
  lemma TailThen(c: Codec, records: seq<URL>, torn: string, k: nat, tail: string, more: seq<URL>)
    requires Lawful(c) && Cut(c, records, torn, k, tail) && more != []
    ensures Decoded(c, tail + LogText(c, more)) == if tail == "" then more else more[1..]
  {
    if tail == "" {
      assert tail + LogText(c, more) == LogText(c, more);
      DecodedLog(c, more);
    } else {
      GluedLine(c, records[k], |tail|, more);
    }
  }

  lemma BoundaryOfCut(c: Codec, records: seq<URL>, torn: string, k: nat, tail: string)
    requires Lawful(c) && Cut(c, records, torn, k, tail)
    ensures OnBoundary(torn) <==> tail == ""
  {
    DecodedLog(c, records[..k]);
    TailReads(c, records, torn, k, tail);
    if tail == "" {
      assert torn == LogText(c, records[..k]);
    } else {
      assert torn[|torn| - 1] == tail[|tail| - 1];
    }
  }

  /** Exactly when records appended after a crash are all read back: when the cut fell on a line
      boundary. */
  lemma AppendAfterTearExactly(c: Codec, records: seq<URL>, n: nat, more: seq<URL>)
    requires Lawful(c) && n <= |LogText(c, records)| && more != []
    ensures var torn := LogText(c, records)[..n];
      Decoded(c, torn + LogText(c, more)) == Decoded(c, torn) + more <==> OnBoundary(torn)
  {
    var torn := LogText(c, records)[..n];
    var k, tail := CutLog(c, records, n);
    AppendAfterTear(c, records, torn, k, tail, more);
    CutReads(c, records, torn, k, tail);
  }

  // ---- What reading tolerates ----

  /** A line that does not decode is skipped, and so is an empty one; what follows is read. */
  lemma BrokenLineIsSkipped(c: Codec, line: string, rest: string)
    requires Lawful(c) && '\n' !in line && c.dec(DropCR(line)).None?
    ensures Decoded(c, line + "\n" + rest) == Decoded(c, rest)
    ensures Decoded(c, "\n" + rest) == Decoded(c, rest)
  {
    DecodedFirst(c, line, rest);
    var u: URL :| true;
    assert c.enc(u)[..0] == "";
    DecodedFirst(c, "", rest);
    assert "" + "\n" + rest == "\n" + rest;
  }

  /** A record is read whether its line ends in a newline or in a carriage return and a newline. */
  lemma CarriageReturnIsDropped(c: Codec, u: URL, rest: string)
    requires Lawful(c)
    ensures Decoded(c, c.enc(u) + "\r\n" + rest) == [u] + Decoded(c, rest)
    ensures Decoded(c, c.enc(u) + "\n" + rest) == [u] + Decoded(c, rest)
  {
    EncodedLine(c, u);
    DecodedFirst(c, c.enc(u), rest);
    var line := c.enc(u) + "\r";
    assert DropCR(line) == c.enc(u);
    DecodedFirst(c, line, rest);
    assert line + "\n" + rest == c.enc(u) + "\r\n" + rest;
  }
}
