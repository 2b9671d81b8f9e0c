// The Authorization header: what ParseAuthorization accepts, and that it reads
// back what a signing client writes.
module Authorization {
  import opened Outcomes
  import opened Bytes
  import opened Text
  import opened Encoding
  import opened SigV4

  const CREDENTIAL := Ascii("Credential")
  const SIGNED_HEADERS := Ascii("SignedHeaders")
  const SIGNATURE := Ascii("Signature")

  datatype AuthHeader = AuthHeader(accessKeyID: Bytes, scope: Scope, signedHeaders: seq<Bytes>, signature: Bytes)

  datatype AuthError = Malformed | UnsupportedAlgorithm

  // One component of the header, white space around it gone.
  function Component(part: Bytes): Halves {
    Cut(TrimSpace(part), EQUALS)
  }

  predicate Carries(part: Bytes, key: Bytes) {
    Component(part).found && Component(part).before == key
  }

  // Components the parser does not know are let through.
  predicate PartOk(part: Bytes) {
    && Component(part).found
    && (Carries(part, CREDENTIAL) ==> ParseCredential(Component(part).after).Some?)
    && (Carries(part, SIGNED_HEADERS) || Carries(part, SIGNATURE) ==> Component(part).after != [])
  }

  // The value of the last component with a key.
  function LastOf(parts: seq<Bytes>, key: Bytes): Option<Bytes> {
    if parts == [] then None
    else if Carries(parts[|parts| - 1], key) then Some(Component(parts[|parts| - 1]).after)
    else LastOf(parts[..|parts| - 1], key)
  }

  predicate AllOk(parts: seq<Bytes>) {
    forall i :: 0 <= i < |parts| ==> PartOk(parts[i])
  }

  // The header is right when each component is and none of the three is missing.
  predicate Complete(parts: seq<Bytes>) {
    && AllOk(parts)
    && LastOf(parts, CREDENTIAL).Some? && LastOf(parts, SIGNED_HEADERS).Some? && LastOf(parts, SIGNATURE).Some?
  }

  lemma {:induction false} LastIsOk(parts: seq<Bytes>, key: Bytes)
    requires forall i :: 0 <= i < |parts| ==> PartOk(parts[i])
    ensures LastOf(parts, key).Some? ==>
      && (key == CREDENTIAL ==> ParseCredential(LastOf(parts, key).value).Some?)
      && (key == SIGNED_HEADERS || key == SIGNATURE ==> LastOf(parts, key).value != [])
  {
    hide ParseCredential, Ascii, Component;
    if parts != [] {
      assert PartOk(parts[|parts| - 1]);
      LastIsOk(parts[..|parts| - 1], key);
    }
  }

  // What a complete list of components says.
  function Read(parts: seq<Bytes>): AuthHeader
    requires Complete(parts)
  {
    LastIsOk(parts, CREDENTIAL);
    var credential := ParseCredential(LastOf(parts, CREDENTIAL).value).value;
    AuthHeader(credential.accessKeyID, credential.scope, Split(LastOf(parts, SIGNED_HEADERS).value, SEMICOLON),
               LastOf(parts, SIGNATURE).value)
  }

  lemma LastStep(parts: seq<Bytes>, i: nat, key: Bytes)
    requires i < |parts|
    ensures LastOf(parts[..i + 1], key)
         == if Carries(parts[i], key) then Some(Component(parts[i]).after) else LastOf(parts[..i], key)
  {
    assert parts[..i + 1][..i] == parts[..i];
  }

  predicate LastAt(parts: seq<Bytes>, key: Bytes, i: nat) {
    i < |parts| && Carries(parts[i], key) && forall j :: i < j < |parts| ==> !Carries(parts[j], key)
  }

  // Of several components with a key it is the last that counts.
  lemma {:induction false} LastOfIff(parts: seq<Bytes>, key: Bytes, value: Bytes)
    ensures LastOf(parts, key) == Some(value)
       <==> exists i: nat :: LastAt(parts, key, i) && Component(parts[i]).after == value
  {
    hide Carries, Component;
    if parts != [] {
      var last := |parts| - 1;
      LastOfIff(parts[..last], key, value);
      if Carries(parts[last], key) {
        assert LastAt(parts, key, last);
      } else {
        forall i: nat | i < last ensures LastAt(parts, key, i) <==> LastAt(parts[..last], key, i) {
        }
      }
    }
  }

  // None of the three the parser knows.
  predicate Unknown(part: Bytes) {
    && Component(part).found
    && !Carries(part, CREDENTIAL) && !Carries(part, SIGNED_HEADERS) && !Carries(part, SIGNATURE)
  }

  lemma {:induction false} LastOfWithout(parts: seq<Bytes>, i: nat, part: Bytes, key: Bytes)
    requires i <= |parts| && !Carries(part, key)
    ensures LastOf(parts[..i] + [part] + parts[i..], key) == LastOf(parts, key)
    decreases |parts|
  {
    hide Carries, Component;
    var all := parts[..i] + [part] + parts[i..];
    if i < |parts| {
      var last := |parts| - 1;
      LastOfWithout(parts[..last], i, part, key);
      assert all[..|all| - 1] == parts[..last][..i] + [part] + parts[..last][i..];
      assert all[|all| - 1] == parts[last];
    } else {
      assert all[..|all| - 1] == parts && all[|all| - 1] == part;
    }
  }

  // A component the parser does not know makes no difference, wherever it stands.
  lemma UnknownIsIgnored(parts: seq<Bytes>, i: nat, part: Bytes)
    requires i <= |parts| && Unknown(part)
    ensures
      var all := parts[..i] + [part] + parts[i..];
      && (Complete(all) <==> Complete(parts))
      && (Complete(all) ==> Read(all) == Read(parts))
  {
    var all := parts[..i] + [part] + parts[i..];
    LastOfWithout(parts, i, part, CREDENTIAL);
    LastOfWithout(parts, i, part, SIGNED_HEADERS);
    LastOfWithout(parts, i, part, SIGNATURE);
    AllOkIff(parts, i, part);
    hide LastOf, AllOk, Ascii, Component, Carries, Unknown, ParseCredential, Split;
  }

  lemma AllOkJoins(a: seq<Bytes>, b: seq<Bytes>)
    ensures AllOk(a + b) <==> AllOk(a) && AllOk(b)
  {
    hide PartOk;
    assert forall j :: 0 <= j < |a| ==> a[j] == (a + b)[j];
    assert forall j :: 0 <= j < |b| ==> b[j] == (a + b)[|a| + j];
  }

  lemma UnknownIsOk(part: Bytes)
    requires Unknown(part)
    ensures PartOk(part)
  {
    hide Component, ParseCredential, Ascii;
  }

  lemma AllOkIff(parts: seq<Bytes>, i: nat, part: Bytes)
    requires i <= |parts| && Unknown(part)
    ensures AllOk(parts[..i] + [part] + parts[i..]) <==> AllOk(parts)
  {
    hide PartOk, Unknown;
    UnknownIsOk(part);
    assert AllOk([part]);
    hide AllOk;
    AllOkJoins(parts[..i] + [part], parts[i..]);
    AllOkJoins(parts[..i], [part]);
    AllOkJoins(parts[..i], parts[i..]);
    assert parts[..i] + parts[i..] == parts;
  }

  lemma KeysDiffer()
    ensures CREDENTIAL != SIGNED_HEADERS && CREDENTIAL != SIGNATURE && SIGNED_HEADERS != SIGNATURE
  {
    assert |CREDENTIAL| == 10 && |SIGNED_HEADERS| == 13 && |SIGNATURE| == 9;
  }

  // Accepts exactly the complete headers of the one algorithm, in any order and
  // spacing, the last of a repeated component counting.
  method ParseAuthorization(header: Bytes) returns (r: Result<AuthHeader, AuthError>)
    ensures
      var cut := Cut(header, SPACE);
      var parts := Split(cut.after, COMMA);
      r == if !cut.found then Err(Malformed)
           else if cut.before != ALGORITHM then Err(UnsupportedAlgorithm)
           else if Complete(parts) then Ok(Read(parts)) else Err(Malformed)
  {
    hide ParseCredential, Ascii, Split, Component;
    var cut := Cut(header, SPACE);
    if !cut.found {
      return Err(Malformed);
    }
    if cut.before != ALGORITHM {
      return Err(UnsupportedAlgorithm);
    }
    var parts := Split(cut.after, COMMA);
    var credential: Option<Credential> := None;
    var signedHeaders: Option<seq<Bytes>> := None;
    var signature: Option<Bytes> := None;
    KeysDiffer();
    for i := 0 to |parts|
      invariant forall j :: 0 <= j < i ==> PartOk(parts[j])
      invariant credential == match LastOf(parts[..i], CREDENTIAL) case None => None case Some(v) => ParseCredential(v)
      invariant LastOf(parts[..i], CREDENTIAL).Some? ==> credential.Some?
      invariant signedHeaders == match LastOf(parts[..i],
          SIGNED_HEADERS) case None => None case Some(v) => Some(Split(v, SEMICOLON))
      invariant signature == LastOf(parts[..i], SIGNATURE)
    {
      LastStep(parts, i, CREDENTIAL);
      LastStep(parts, i, SIGNED_HEADERS);
      LastStep(parts, i, SIGNATURE);
      var part := Component(parts[i]);
      if !part.found {
        return Err(Malformed);
      }
      if part.before == CREDENTIAL {
        credential := ParseCredential(part.after);
        if credential.None? {
          return Err(Malformed);
        }
      } else if part.before == SIGNED_HEADERS {
        if part.after == [] {
          return Err(Malformed);
        }
        signedHeaders := Some(Split(part.after, SEMICOLON));
      } else if part.before == SIGNATURE {
        if part.after == [] {
          return Err(Malformed);
        }
        signature := Some(part.after);
      }
    }
    assert parts[..|parts|] == parts;
    if credential.None? || signedHeaders.None? || signature.None? {
      return Err(Malformed);
    }
    return Ok(AuthHeader(credential.value.accessKeyID, credential.value.scope, signedHeaders.value, signature.value));
  }

  // ------------------------------------------------------------ round trip

  function Written(key: Bytes, value: Bytes): Bytes {
    key + [EQUALS] + value
  }

  // The header as the SDKs write it, with a space after each comma.
  function HeaderText(h: AuthHeader): Bytes {
    ALGORITHM + [SPACE]
    + (Written(CREDENTIAL, h.accessKeyID + [SLASH] + h.scope.Text()) + [COMMA]
       + (([SPACE] + Written(SIGNED_HEADERS, JoinedBy(h.signedHeaders, SEMICOLON))) + [COMMA]
          + ([SPACE] + Written(SIGNATURE, h.signature))))
  }

  // A value that stands in a header as it is.
  predicate Token(s: Bytes) {
    s != [] && Visible(s) && COMMA !in s
  }

  lemma {:induction false} SpaceBefore(s: Bytes)
    requires Visible(s)
    ensures TrimSpace([SPACE] + s) == s
  {
    var t := [SPACE] + s;
    assert t[..1] == [SPACE] && t[1..] == s;
    NoSpaceAtEnds(s);
    VisibleIsTrimmed(s);
    hide TrailingSpace;
    assert LeadingSpace(t) == 1;
    assert TrimLeft(t) == TrimLeft(s);
  }

  lemma ComponentReads(key: Bytes, value: Bytes)
    requires Visible(key) && EQUALS !in key && Token(value)
    ensures Component(Written(key, value)) == Halves(key, value, true)
    ensures Component([SPACE] + Written(key, value)) == Halves(key, value, true)
  {
    assert Visible(Written(key, value));
    VisibleIsTrimmed(Written(key, value));
    SpaceBefore(Written(key, value));
    CutJoins(key, EQUALS, value);
  }

  predicate Sendable(h: AuthHeader) {
    && Part(h.accessKeyID) && Part(h.scope.date) && Part(h.scope.region) && Part(h.scope.service)
    && h.signedHeaders != [] && (forall i :: 0 <= i < |h.signedHeaders| ==> SEMICOLON !in h.signedHeaders[i])
    && Token(h.accessKeyID + [SLASH] + h.scope.Text())
    && Token(JoinedBy(h.signedHeaders, SEMICOLON)) && Token(h.signature)
  }

  lemma KeyText(s: string)
    requires forall i :: 0 <= i < |s| ==> 'A' <= s[i] <= 'z'
    ensures Visible(Ascii(s)) && EQUALS !in Ascii(s) && COMMA !in Ascii(s)
  {
    AsciiChars(s);
    hide Ascii;
  }

  lemma KeysAreText()
    ensures Visible(CREDENTIAL) && EQUALS !in CREDENTIAL && COMMA !in CREDENTIAL
    ensures Visible(SIGNED_HEADERS) && EQUALS !in SIGNED_HEADERS && COMMA !in SIGNED_HEADERS
    ensures Visible(SIGNATURE) && EQUALS !in SIGNATURE && COMMA !in SIGNATURE
  {
    hide Ascii;
    KeyText("Credential");
    KeyText("SignedHeaders");
    KeyText("Signature");
  }

  lemma ThreeParts(p1: Bytes, p2: Bytes, p3: Bytes, c: Bytes, n: Bytes, s: Bytes)
    requires Component(p1) == Halves(CREDENTIAL, c, true) && ParseCredential(c).Some?
    requires Component(p2) == Halves(SIGNED_HEADERS, n, true) && n != []
    requires Component(p3) == Halves(SIGNATURE, s, true) && s != []
    ensures
      var parts := [p1, p2, p3];
      && Complete(parts)
      && LastOf(parts, CREDENTIAL) == Some(c) && LastOf(parts, SIGNED_HEADERS) == Some(n)
          && LastOf(parts, SIGNATURE) == Some(s)
  {
    KeysDiffer();
    hide Component, Ascii, ParseCredential, LastOf;
    var parts := [p1, p2, p3];
    LastSteps(parts, CREDENTIAL);
    LastSteps(parts, SIGNED_HEADERS);
    LastSteps(parts, SIGNATURE);
  }

  lemma LastSteps(parts: seq<Bytes>, key: Bytes)
    requires |parts| == 3
    ensures LastOf(parts, key) ==
      if Carries(parts[2], key) then Some(Component(parts[2]).after)
      else if Carries(parts[1], key) then Some(Component(parts[1]).after)
      else if Carries(parts[0], key) then Some(Component(parts[0]).after)
      else None
  {
    hide Carries, Component;
    assert parts[..3] == parts;
    LastStep(parts, 2, key);
    LastStep(parts, 1, key);
    LastStep(parts, 0, key);
    assert parts[..0] == [];
  }

  lemma HeaderSplits(p1: Bytes, p2: Bytes, p3: Bytes)
    requires COMMA !in p1 && COMMA !in p2 && COMMA !in p3
    ensures
      var cut := Cut(ALGORITHM + [SPACE] + (p1 + [COMMA] + (p2 + [COMMA] + p3)), SPACE);
      cut.found && cut.before == ALGORITHM && Split(cut.after, COMMA) == [p1, p2, p3]
  {
    AlgorithmHasNoSpace();
    hide Ascii, Split, Cut;
    CutJoins(ALGORITHM, SPACE, p1 + [COMMA] + (p2 + [COMMA] + p3));
    SplitJoins(p1, COMMA, p2 + [COMMA] + p3);
    SplitJoins(p2, COMMA, p3);
    SplitJoins(p3, COMMA, []);
  }

  lemma WrittenHasNoComma(key: Bytes, value: Bytes)
    requires COMMA !in key && COMMA !in value
    ensures COMMA !in Written(key, value) && COMMA !in [SPACE] + Written(key, value)
  {
  }

  // A client's header is read back as what it said.
  lemma HeaderRoundTrip(h: AuthHeader)
    requires Sendable(h)
    ensures
      var cut := Cut(HeaderText(h), SPACE);
      var parts := Split(cut.after, COMMA);
      cut.found && cut.before == ALGORITHM && Complete(parts) && Read(parts) == h
  {
    var c, n, s := h.accessKeyID + [SLASH] + h.scope.Text(), JoinedBy(h.signedHeaders, SEMICOLON), h.signature;
    CredentialRoundTrip(h.accessKeyID, h.scope);
    JoinedSplits(h.signedHeaders, SEMICOLON);
    KeysAreText();
    hide Ascii, Complete, LastOf, ParseCredential, Split, Scope.Text, JoinedBy, Cut, Component;
    ComponentReads(CREDENTIAL, c);
    ComponentReads(SIGNED_HEADERS, n);
    ComponentReads(SIGNATURE, s);
    WrittenHasNoComma(CREDENTIAL, c);
    WrittenHasNoComma(SIGNED_HEADERS, n);
    WrittenHasNoComma(SIGNATURE, s);
    hide Written, Token, Visible;
    var p1, p2, p3 := Written(CREDENTIAL, c), [SPACE] + Written(SIGNED_HEADERS, n), [SPACE] + Written(SIGNATURE, s);
    ThreeParts(p1, p2, p3, c, n, s);
    HeaderSplits(p1, p2, p3);
  }

  lemma AlgorithmHasNoSpace()
    ensures SPACE !in ALGORITHM
  {
    AsciiChars("AWS4-HMAC-SHA256");
  }
}
