/** A record codec with the properties the log needs: the assumptions on the abstract codec can be met. */
module CodecWitness {
  import opened Model
  import opened FileLog

  /** Quotes, braces, backslashes and line ends never appear as they are. */
  function Escaped(c: char): string {
    match c
    case '\\' => "\\b"
    case '\"' => "\\q"
    case '{' => "\\o"
    case '}' => "\\c"
    case '\n' => "\\n"
    case '\r' => "\\r"
    case _ => [c]
  }

  /** A text and its closing quote. */
  function Quoted(s: string): string {
    if s == "" then "\"" else Escaped(s[0]) + Quoted(s[1..])
  }

  function Body(u: URL): string {
    Quoted(u.uuid) + (Quoted(u.short) + (Quoted(u.original) + (Quoted(u.userID) + if u.deletedFlag then "t" else "f")))
  }

  function Encoded(u: URL): string {
    "{" + Body(u) + "}"
  }

  predicate Plain(s: string) {
    '{' !in s && '}' !in s && '\n' !in s && '\r' !in s
  }

  lemma {:induction false} QuotedIsPlain(s: string)
    ensures Plain(Quoted(s))
  {
    if s != "" {
      QuotedIsPlain(s[1..]);
    }
  }

  lemma EscapedApart(c: char, a: string, d: char, b: string)
    requires Escaped(c) + a == Escaped(d) + b
    ensures c == d && a == b
  {
    var left, right, e, f := Escaped(c) + a, Escaped(d) + b, Escaped(c), Escaped(d);
    assert left[0] == e[0] && right[0] == f[0];
    if |e| == 2 {
      assert left[1] == e[1] && right[1] == f[1];
    }
    assert left[|e|..] == a && right[|e|..] == b;
  }

  lemma EscapedBegins(c: char)
    ensures Escaped(c) != "" && Escaped(c)[0] != '\"'
  {
  }

  /** How a text begins: with its closing quote, or with its first character. */
  lemma QuotedBegins(s: string, a: string)
    ensures var text := Quoted(s) + a;
      && text != "" && (text[0] == '\"' <==> s == "")
      && (if s == "" then text[1..] == a else text == Escaped(s[0]) + (Quoted(s[1..]) + a))
  {
    if s != "" {
      var first, others := Escaped(s[0]), Quoted(s[1..]);
      EscapedBegins(s[0]);
      assert (first + others) + a == first + (others + a);
    }
  }

  /** A closing quote tells where a text ends. */
  lemma {:induction false} QuotedApart(s: string, a: string, t: string, b: string)
    requires Quoted(s) + a == Quoted(t) + b
    ensures s == t && a == b
    decreases |s|
  {
    QuotedBegins(s, a);
    QuotedBegins(t, b);
    if s != "" {
      var s', t' := s[1..], t[1..];
      EscapedApart(s[0], Quoted(s') + a, t[0], Quoted(t') + b);
      QuotedApart(s', a, t', b);
      assert s == [s[0]] + s' && t == [t[0]] + t';
    }
  }

  lemma EncodedApart(u: URL, v: URL)
    requires Encoded(u) == Encoded(v)
    ensures u == v
  {
    assert Encoded(u)[1..|Encoded(u)| - 1] == Body(u) && Encoded(v)[1..|Encoded(v)| - 1] == Body(v);
    var f, g := if u.deletedFlag then "t" else "f", if v.deletedFlag then "t" else "f";
    QuotedApart(u.uuid, Quoted(u.short) + (Quoted(u.original) + (Quoted(u.userID) + f)),
                v.uuid, Quoted(v.short) + (Quoted(v.original) + (Quoted(v.userID) + g)));
    QuotedApart(u.short, Quoted(u.original) + (Quoted(u.userID) + f),
                v.short, Quoted(v.original) + (Quoted(v.userID) + g));
    QuotedApart(u.original, Quoted(u.userID) + f, v.original, Quoted(v.userID) + g);
    QuotedApart(u.userID, f, v.userID, g);
  }

  lemma EncodedShape(u: URL)
    ensures Plain(Body(u))
    ensures Encoded(u)[0] == '{' && Encoded(u)[|Encoded(u)| - 1] == '}'
    ensures forall i :: 0 < i < |Encoded(u)| ==> Encoded(u)[i] != '{'
    ensures forall i :: 0 <= i < |Encoded(u)| - 1 ==> Encoded(u)[i] != '}'
  {
    QuotedIsPlain(u.uuid);
    QuotedIsPlain(u.short);
    QuotedIsPlain(u.original);
    QuotedIsPlain(u.userID);
    assert forall i :: 0 < i < |Encoded(u)| - 1 ==> Encoded(u)[i] == Body(u)[i - 1];
  }

  /** Decoding reads back the one record with this encoding. */
  ghost function Decoding(line: string): Option<URL> {
    if u :| Encoded(u) == line then Some(u) else None
  }

  ghost function Witness(): Codec {
    Codec(Encoded, line => Decoding(line))
  }

  lemma WitnessIsLawful()
    ensures Lawful(Witness())
  {
    var c := Witness();
    forall u ensures c.dec(c.enc(u)) == Some(u) {
      var v := Decoding(Encoded(u)).value;
      EncodedApart(u, v);
    }
    forall u ensures c.enc(u) != "" && '\n' !in c.enc(u) && '\r' !in c.enc(u) {
      EncodedShape(u);
    }
    forall u, k | 0 <= k < |c.enc(u)| ensures c.dec(c.enc(u)[..k]) == None {
      PrefixDecodesToNothing(u, k);
    }
    forall u, k, v | 0 < k <= |c.enc(u)| ensures c.dec(c.enc(u)[..k] + c.enc(v)) == None {
      GluedDecodesToNothing(u, k, v);
    }
  }

  lemma PrefixDecodesToNothing(u: URL, k: nat)
    requires k < |Encoded(u)|
    ensures Decoding(Encoded(u)[..k]) == None
  {
    EncodedShape(u);
    var cut := Encoded(u)[..k];
    assert cut == "" || cut[|cut| - 1] != '}';
    forall w ensures Encoded(w) != cut {
      EncodedShape(w);
    }
  }

  lemma GluedDecodesToNothing(u: URL, k: nat, v: URL)
    requires 0 < k <= |Encoded(u)|
    ensures Decoding(Encoded(u)[..k] + Encoded(v)) == None
  {
    EncodedShape(v);
    var glued := Encoded(u)[..k] + Encoded(v);
    assert glued[k] == '{';
    forall w ensures Encoded(w) != glued {
      EncodedShape(w);
    }
  }
}
