/** Signed user tokens: "userID|signature", sent raw or as a Bearer credential (section 2.1 of RFC 6750).
    The keyed hash of section 2 of RFC 2104 is a parameter; all that is used of it is that its text
    form is not empty and holds no white space (it is lowercase hexadecimal). */
module Auth {
  import opened Model

  type Hmac = (string, string) -> string

  ghost predicate HexLike(hmac: Hmac) {
    forall msg, secret :: hmac(msg, secret) != "" && forall c :: c in hmac(msg, secret) ==> !IsSpace(c)
  }

  // ---- Strings ----

  /** The white space of the Unicode standard, as Go's unicode package lists it. */
  predicate IsSpace(c: char) {
    || c in {'\t', '\n', '\U{0B}', '\U{0C}', '\r', ' ', '\U{85}', '\U{A0}'}
    || c == '\U{1680}' || '\U{2000}' <= c <= '\U{200a}'
    || c in {'\U{2028}', '\U{2029}', '\U{202f}', '\U{205f}', '\U{3000}'}
  }

  function TrimLeft(s: string): string {
    if s != "" && IsSpace(s[0]) then TrimLeft(s[1..]) else s
  }

  function TrimRight(s: string): string {
    if s != "" && IsSpace(s[|s| - 1]) then TrimRight(s[..|s| - 1]) else s
  }

  function TrimSpace(s: string): string {
    TrimRight(TrimLeft(s))
  }

  predicate AllSpace(s: string) {
    forall c :: c in s ==> IsSpace(c)
  }

  function Lower(c: char): char {
    if 'A' <= c <= 'Z' then (c as int + 32) as char else c
  }

  const BEARER := "bearer "

  /** The first seven characters spell "bearer " in any case. */
  predicate IsBearer(s: string) {
    |s| >= |BEARER| && forall i :: 0 <= i < |BEARER| ==> Lower(s[i]) == BEARER[i]
  }

  /** Splitting at the first separator. */
  function SplitAt(s: string, sep: char): Option<(string, string)> {
    if s == "" then None
    else if s[0] == sep then Some(("", s[1..]))
    else match SplitAt(s[1..], sep)
      case None => None
      case Some(parts) => Some(([s[0]] + parts.0, parts.1))
  }

  // ---- Tokens ----

  function BuildSignedUserID(hmac: Hmac, userID: string, secret: string): string {
    userID + "|" + hmac(userID, secret)
  }

  predicate VerifySignature(hmac: Hmac, msg: string, sig: string, secret: string) {
    hmac(msg, secret) == sig
  }

  function NormalizeAuthorizationValue(value: string): string {
    var trimmed := TrimSpace(value);
    if trimmed == "" then ""
    else if IsBearer(trimmed) then TrimSpace(trimmed[|BEARER|..])
    else trimmed
  }

  function UserIDFromAuthorization(hmac: Hmac, value: string, secret: string): Result<string> {
    var token := NormalizeAuthorizationValue(value);
    if token == "" then Err(AuthorizationMissing)
    else
      match SplitAt(token, '|')
      case None => Err(AuthorizationInvalid)
      case Some(parts) =>
        if TrimSpace(parts.0) == "" then Err(AuthorizationInvalid)
        else if !VerifySignature(hmac, parts.0, parts.1, secret) then Err(AuthorizationInvalid)
        else Ok(parts.0)
  }

  // ---- Facts about trimming and splitting ----

  lemma {:induction false} TrimLeftDrops(pad: string, s: string)
    requires AllSpace(pad) && (s == "" || !IsSpace(s[0]))
    ensures TrimLeft(pad + s) == s
  {
    if pad == "" {
      assert pad + s == s;
    } else {
      assert (pad + s)[1..] == pad[1..] + s;
      TrimLeftDrops(pad[1..], s);
    }
  }

  lemma {:induction false} TrimRightDrops(s: string, pad: string)
    requires AllSpace(pad) && (s == "" || !IsSpace(s[|s| - 1]))
    ensures TrimRight(s + pad) == s
  {
    if pad == "" {
      assert s + pad == s;
    } else {
      var n := |pad| - 1;
      assert (s + pad)[..|s + pad| - 1] == s + pad[..n];
      TrimRightDrops(s, pad[..n]);
    }
  }

  /** Outer white space is removed and nothing else. */
  lemma TrimDrops(left: string, s: string, right: string)
    requires AllSpace(left) && AllSpace(right) && s != "" && !IsSpace(s[0]) && !IsSpace(s[|s| - 1])
    ensures TrimSpace(left + s + right) == s
  {
    assert left + s + right == left + (s + right);
    TrimLeftDrops(left, s + right);
    TrimRightDrops(s, right);
  }

  lemma {:induction false} TrimLeftSuffix(s: string)
    ensures |TrimLeft(s)| <= |s| && TrimLeft(s) == s[|s| - |TrimLeft(s)|..]
    ensures TrimLeft(s) != "" ==> !IsSpace(TrimLeft(s)[0])
    ensures TrimLeft(s) == "" <==> AllSpace(s)
  {
    if s != "" && IsSpace(s[0]) {
      TrimLeftSuffix(s[1..]);
      assert s == [s[0]] + s[1..];
    } else if s != "" {
      assert s[0] in s;
    }
  }

  lemma {:induction false} TrimRightPrefix(s: string)
    ensures |TrimRight(s)| <= |s| && TrimRight(s) == s[..|TrimRight(s)|]
    ensures s != "" && !IsSpace(s[0]) ==> TrimRight(s) != "" && TrimRight(s)[0] == s[0]
  {
    if s != "" && IsSpace(s[|s| - 1]) {
      TrimRightPrefix(s[..|s| - 1]);
    }
  }

  /** Trimming shortens, and what is left does not start with a space. */
  lemma TrimShape(s: string)
    ensures |TrimSpace(s)| <= |s|
    ensures TrimSpace(s) != "" ==> !IsSpace(TrimSpace(s)[0])
    ensures TrimSpace(s) == "" <==> AllSpace(s)
  {
    TrimLeftSuffix(s);
    TrimRightPrefix(TrimLeft(s));
  }

  lemma {:induction false} SplitAtFirst(left: string, sep: char, right: string)
    requires sep !in left
    ensures SplitAt(left + [sep] + right, sep) == Some((left, right))
  {
    var s := left + [sep] + right;
    if left == "" {
      assert s == [sep] + right;
    } else {
      assert s[1..] == left[1..] + [sep] + right;
      SplitAtFirst(left[1..], sep, right);
      assert s[0] == left[0];
      assert [left[0]] + left[1..] == left;
    }
  }

  lemma {:induction false} SplitAtMeans(s: string, sep: char)
    ensures SplitAt(s, sep).Some? ==>
      sep !in SplitAt(s, sep).value.0 && s == SplitAt(s, sep).value.0 + [sep] + SplitAt(s, sep).value.1
  {
    if s != "" && s[0] != sep {
      SplitAtMeans(s[1..], sep);
      assert s == [s[0]] + s[1..];
    }
  }

  // ---- Main results ----

  /** Exactly which values are accepted: those that normalize to the signed token of an id that is
      not blank and holds no separator. Nothing else is ever accepted, and only that id is returned. */
  lemma AcceptedExactly(hmac: Hmac, value: string, secret: string, userID: string)
    ensures UserIDFromAuthorization(hmac, value, secret) == Ok(userID) <==>
      && NormalizeAuthorizationValue(value) == BuildSignedUserID(hmac, userID, secret)
      && '|' !in userID && !AllSpace(userID)
  {
    var token := NormalizeAuthorizationValue(value);
    SplitAtMeans(token, '|');
    TrimShape(userID);
    if token == BuildSignedUserID(hmac, userID, secret) && '|' !in userID {
      SplitAtFirst(userID, '|', hmac(userID, secret));
    }
  }

  lemma TokenEnds(hmac: Hmac, userID: string, secret: string)
    requires HexLike(hmac)
    ensures var token := BuildSignedUserID(hmac, userID, secret); token != "" && !IsSpace(token[|token| - 1])
  {
    var sig := hmac(userID, secret);
    assert sig[|sig| - 1] in sig;
  }

  /** Exactly which ids survive a raw round trip. */
  lemma RawRoundTripExactly(hmac: Hmac, userID: string, secret: string)
    requires HexLike(hmac)
    ensures UserIDFromAuthorization(hmac, BuildSignedUserID(hmac, userID, secret), secret) == Ok(userID) <==>
      userID != "" && '|' !in userID && !IsSpace(userID[0]) && !IsBearer(userID)
  {
    var token := BuildSignedUserID(hmac, userID, secret);
    TokenEnds(hmac, userID, secret);
    AcceptedExactly(hmac, token, secret, userID);
    TrimShape(token);
    if userID != "" && '|' !in userID {
      assert userID[0] in userID;
      BearerInId(userID, "|" + hmac(userID, secret));
      assert token == userID + ("|" + hmac(userID, secret));
      if !IsSpace(userID[0]) {
        assert "" + token + "" == token;
        TrimDrops("", token, "");
        if IsBearer(userID) {
          TrimShape(token[|BEARER|..]);
        }
      } else if IsBearer(TrimSpace(token)) {
        TrimShape(TrimSpace(token)[|BEARER|..]);
      }
    }
  }

  /** A separator right after the id keeps "bearer " from forming across it. */
  lemma BearerInId(userID: string, rest: string)
    requires rest != "" && rest[0] == '|'
    ensures IsBearer(userID + rest) <==> IsBearer(userID)
  {
    if |userID| < |BEARER| {
      assert (userID + rest)[|userID|] == '|';
    } else {
      assert forall i :: 0 <= i < |BEARER| ==> (userID + rest)[i] == userID[i];
    }
  }

  /** Behind "Bearer " in any case, with any outer spaces, only a blank or separated id or one that
      starts with a space is lost. */
  lemma BearerRoundTripExactly(hmac: Hmac, userID: string, secret: string, left: string, scheme: string,
                               middle: string, right: string)
    requires HexLike(hmac)
    requires AllSpace(left) && AllSpace(middle) && AllSpace(right)
    requires |scheme| == |BEARER| && IsBearer(scheme)
    ensures var value := left + scheme + middle + BuildSignedUserID(hmac, userID, secret) + right;
      UserIDFromAuthorization(hmac, value, secret) == Ok(userID) <==>
      userID != "" && '|' !in userID && !IsSpace(userID[0])
  {
    var token := BuildSignedUserID(hmac, userID, secret);
    var value := left + scheme + middle + token + right;
    TokenEnds(hmac, userID, secret);
    var body := scheme + middle + token;
    assert value == left + body + right;
    assert Lower(scheme[0]) == 'b';
    assert body[|body| - 1] == token[|token| - 1];
    TrimDrops(left, body, right);
    assert IsBearer(body);
    assert body[|BEARER|..] == middle + token;
    AcceptedExactly(hmac, value, secret, userID);
    if userID != "" && !IsSpace(userID[0]) {
      assert middle + token + "" == middle + token;
      TrimDrops(middle, token, "");
    } else {
      TrimShape(middle + token);
    }
    if userID != "" {
      assert userID[0] in userID;
    }
  }

  // ---- What the signature binds, and why a value is refused ----

  /** A signature made for one id does not serve another whose signature differs. */
  lemma SignatureIsForItsId(hmac: Hmac, value: string, secret: string, a: string, b: string)
    requires hmac(a, secret) != hmac(b, secret)
    requires NormalizeAuthorizationValue(value) == a + "|" + hmac(b, secret)
    ensures UserIDFromAuthorization(hmac, value, secret) != Ok(a)
  {
    AcceptedExactly(hmac, value, secret, a);
    var left, right := a + "|" + hmac(a, secret), a + "|" + hmac(b, secret);
    assert left[|a| + 1..] == hmac(a, secret) && right[|a| + 1..] == hmac(b, secret);
  }

  /** Nor does one made with another secret. */
  lemma SignatureIsForItsSecret(hmac: Hmac, value: string, secret: string, other: string, a: string)
    requires hmac(a, secret) != hmac(a, other)
    requires NormalizeAuthorizationValue(value) == a + "|" + hmac(a, other)
    ensures UserIDFromAuthorization(hmac, value, secret) != Ok(a)
  {
    AcceptedExactly(hmac, value, secret, a);
    var left, right := a + "|" + hmac(a, secret), a + "|" + hmac(a, other);
    assert left[|a| + 1..] == hmac(a, secret) && right[|a| + 1..] == hmac(a, other);
  }

  /** A value counts as missing exactly when it normalizes to nothing; everything else that is not a
      signed id is invalid. */
  lemma RefusedExactly(hmac: Hmac, value: string, secret: string)
    ensures UserIDFromAuthorization(hmac, value, secret) == Err(AuthorizationMissing) <==>
      NormalizeAuthorizationValue(value) == ""
    ensures UserIDFromAuthorization(hmac, value, secret) == Err(AuthorizationInvalid) <==>
      && NormalizeAuthorizationValue(value) != ""
      && forall id :: NormalizeAuthorizationValue(value) == id + "|" + hmac(id, secret) ==> '|' in id || AllSpace(id)
  {
    var r, token := UserIDFromAuthorization(hmac, value, secret), NormalizeAuthorizationValue(value);
    forall id ensures r == Ok(id) <==> token == id + "|" + hmac(id, secret) && '|' !in id && !AllSpace(id) {
      AcceptedExactly(hmac, value, secret, id);
    }
  }

  /** What normalizing removes, letter by letter. */
  lemma SchemeIsBearer(s: string)
    ensures IsBearer(s) <==>
      && |s| >= 7
      && s[0] in {'b', 'B'} && s[1] in {'e', 'E'} && s[2] in {'a', 'A'} && s[3] in {'r', 'R'}
      && s[4] in {'e', 'E'} && s[5] in {'r', 'R'} && s[6] == ' '
  {
    if |s| >= 7 {
      assert IsBearer(s) ==> Lower(s[0]) == BEARER[0] && Lower(s[1]) == BEARER[1] && Lower(s[2]) == BEARER[2];
      assert IsBearer(s) ==> Lower(s[3]) == BEARER[3] && Lower(s[4]) == BEARER[4];
      assert IsBearer(s) ==> Lower(s[5]) == BEARER[5] && Lower(s[6]) == BEARER[6];
    }
  }

  /** A value with nothing but white space is nothing; the ASCII white space is this. */
  lemma BlankIsNothing(s: string, c: char)
    ensures AllSpace(s) ==> NormalizeAuthorizationValue(s) == ""
    ensures c < 128 as char ==> (IsSpace(c) <==> c in {'\t', '\n', '\U{0B}', '\U{0C}', '\r', ' '})
  {
    TrimShape(s);
  }

  lemma {:induction false} TrimLeftPad(s: string)
    ensures |TrimLeft(s)| <= |s| && AllSpace(s[..|s| - |TrimLeft(s)|])
  {
    TrimLeftSuffix(s);
    if s != "" && IsSpace(s[0]) {
      TrimLeftPad(s[1..]);
      TrimLeftSuffix(s[1..]);
      var n := |s| - |TrimLeft(s)|;
      assert s[..n] == [s[0]] + s[1..][..n - 1];
    }
  }

  lemma {:induction false} TrimRightPad(s: string)
    ensures |TrimRight(s)| <= |s| && AllSpace(s[|TrimRight(s)|..])
    ensures TrimRight(s) != "" ==> !IsSpace(TrimRight(s)[|TrimRight(s)| - 1])
  {
    TrimRightPrefix(s);
    if s != "" && IsSpace(s[|s| - 1]) {
      var n := |s| - 1;
      TrimRightPad(s[..n]);
      TrimRightPrefix(s[..n]);
      assert s[|TrimRight(s)|..] == s[..n][|TrimRight(s)|..] + [s[n]];
    }
  }

  /** Trimming takes away white space on both sides and nothing else. */
  lemma TrimTakesSpaces(s: string) returns (left: string, right: string)
    ensures s == left + TrimSpace(s) + right && AllSpace(left) && AllSpace(right)
    ensures TrimSpace(s) != "" ==> !IsSpace(TrimSpace(s)[0]) && !IsSpace(TrimSpace(s)[|TrimSpace(s)| - 1])
  {
    TrimShape(s);
    left := LeftPad(s);
    right := RightPad(TrimLeft(s));
    assert left + (TrimSpace(s) + right) == left + TrimSpace(s) + right;
  }

  lemma LeftPad(s: string) returns (left: string)
    ensures s == left + TrimLeft(s) && AllSpace(left)
  {
    TrimLeftSuffix(s);
    TrimLeftPad(s);
    left := s[..|s| - |TrimLeft(s)|];
  }

  lemma RightPad(s: string) returns (right: string)
    ensures s == TrimRight(s) + right && AllSpace(right)
    ensures TrimRight(s) != "" ==> !IsSpace(TrimRight(s)[|TrimRight(s)| - 1])
  {
    TrimRightPrefix(s);
    TrimRightPad(s);
    right := s[|TrimRight(s)|..];
  }

  lemma BearerStays(scheme: string, s: string)
    requires |scheme| == 7 && IsBearer(scheme) && !AllSpace(s)
    ensures NormalizeAuthorizationValue(scheme + s) == TrimSpace(s)
  {
    var left, right := TrimTakesSpaces(s);
    TrimShape(s);
    SchemeIsBearer(scheme);
    var token := TrimSpace(s);
    var body := scheme + left + token;
    assert scheme + s == "" + body + right;
    assert body[|body| - 1] == token[|token| - 1];
    TrimDrops("", body, right);
    SchemeIsBearer(body);
    assert body[7..] == left + token + "";
    TrimDrops(left, token, "");
  }

  /** The credential form: whatever is not blank behind "Bearer " is taken without its outer spaces. */
  lemma BearerCredential(s: string)
    requires !AllSpace(s)
    ensures NormalizeAuthorizationValue("Bearer " + s) == TrimSpace(s)
    ensures NormalizeAuthorizationValue("bearer " + s) == TrimSpace(s)
  {
    SchemeIsBearer("Bearer ");
    SchemeIsBearer("bearer ");
    BearerStays("Bearer ", s);
    BearerStays("bearer ", s);
  }
}
