// AWS Signature Version 4: the credential, the canonical request, and the
// string and key a request is signed with.
module SigV4 {
  import opened Outcomes
  import opened Bytes
  import opened Text
  import opened Sorting
  import opened Encoding

  const ALGORITHM := Ascii("AWS4-HMAC-SHA256")
  const SERVICE := Ascii("s3")
  const SCOPE_TERMINATOR := Ascii("aws4_request")
  const HOST := Ascii("host")
  const UNSIGNED_PAYLOAD := Ascii("UNSIGNED-PAYLOAD")
  const COLON: byte := 0x3A
  const COMMA: byte := 0x2C

  // Hex SHA-256 and the 32-byte HMAC-SHA256, left uninterpreted.
  datatype Crypto = Crypto(sha: Bytes -> Bytes, hmac: (Bytes, Bytes) -> Bytes)

  datatype Scope = Scope(date: Bytes, region: Bytes, service: Bytes) {
    function Text(): Bytes {
      date + [SLASH] + (region + [SLASH] + (service + [SLASH] + SCOPE_TERMINATOR))
    }
  }

  datatype Credential = Credential(accessKeyID: Bytes, scope: Scope)

  function ParseCredential(value: Bytes): Option<Credential> {
    var parts := Split(value, SLASH);
    if |parts| != 5 || parts[4] != SCOPE_TERMINATOR then None
    else if parts[0] == [] || parts[1] == [] || parts[2] == [] || parts[3] == [] then None
    else Some(Credential(parts[0], Scope(parts[1], parts[2], parts[3])))
  }

  predicate Part(s: Bytes) {
    s != [] && SLASH !in s
  }

  lemma SplitFive(a: Bytes, b: Bytes, c: Bytes, d: Bytes, e: Bytes)
    requires SLASH !in a && SLASH !in b && SLASH !in c && SLASH !in d && SLASH !in e
    ensures Split(a + [SLASH] + (b + [SLASH] + (c + [SLASH] + (d + [SLASH] + e))), SLASH) == [a, b, c, d, e]
  {
    hide Split;
    SplitJoins(e, SLASH, []);
    SplitJoins(d, SLASH, e);
    SplitJoins(c, SLASH, d + [SLASH] + e);
    SplitJoins(b, SLASH, c + [SLASH] + (d + [SLASH] + e));
    SplitJoins(a, SLASH, b + [SLASH] + (c + [SLASH] + (d + [SLASH] + e)));
  }

  // The text a credential is sent as parses back, whatever its opaque parts.
  lemma CredentialRoundTrip(id: Bytes, scope: Scope)
    requires Part(id) && Part(scope.date) && Part(scope.region) && Part(scope.service)
    ensures ParseCredential(id + [SLASH] + scope.Text()) == Some(Credential(id, scope))
  {
    assert SLASH !in SCOPE_TERMINATOR;
    SplitFive(id, scope.date, scope.region, scope.service, SCOPE_TERMINATOR);
    hide Split, Ascii;
  }

  lemma TerminatorIsPart()
    ensures Part(SCOPE_TERMINATOR)
  {
    AsciiChars("aws4_request");
  }

  lemma ScopeSplits(scope: Scope)
    requires SLASH !in scope.date && SLASH !in scope.region && SLASH !in scope.service
    ensures Split(scope.Text(), SLASH) == [scope.date, scope.region, scope.service, SCOPE_TERMINATOR]
  {
    TerminatorIsPart();
    hide Split, Ascii;
    var d := SCOPE_TERMINATOR;
    SplitJoins(d, SLASH, []);
    SplitJoins(scope.service, SLASH, d);
    SplitJoins(scope.region, SLASH, scope.service + [SLASH] + d);
    SplitJoins(scope.date, SLASH, scope.region + [SLASH] + (scope.service + [SLASH] + d));
  }

  // A credential is read from exactly one text: an id, a slash, and the text of
  // its scope.
  lemma CredentialIff(value: Bytes, c: Credential)
    ensures ParseCredential(value) == Some(c) <==>
      && Part(c.accessKeyID) && Part(c.scope.date) && Part(c.scope.region) && Part(c.scope.service)
      && value == c.accessKeyID + [SLASH] + c.scope.Text()
  {
    if Part(c.accessKeyID) && Part(c.scope.date) && Part(c.scope.region) && Part(c.scope.service)
        && value == c.accessKeyID + [SLASH] + c.scope.Text() {
      CredentialRoundTrip(c.accessKeyID, c.scope);
    }
    var parts := Split(value, SLASH);
    SplitRejoins(value, SLASH);
    hide Split, Ascii;
    if ParseCredential(value).Some? {
      FiveJoined(parts);
      assert forall i :: 0 <= i < 4 ==> Part(parts[i]);
    }
  }

  lemma FiveJoined(p: seq<Bytes>)
    requires |p| == 5
    ensures JoinedBy(p, SLASH) == p[0] + [SLASH] + (p[1] + [SLASH] + (p[2] + [SLASH] + (p[3] + [SLASH] + p[4])))
  {
    assert p[1..][1..] == p[2..] && p[2..][1..] == p[3..] && p[3..][1..] == p[4..] && p[4..] == [p[4]];
    assert JoinedBy(p[4..], SLASH) == p[4];
    assert JoinedBy(p[3..], SLASH) == p[3] + [SLASH] + p[4];
    assert JoinedBy(p[2..], SLASH) == p[2] + [SLASH] + (p[3] + [SLASH] + p[4]);
    assert JoinedBy(p[1..], SLASH) == p[1] + [SLASH] + (p[2] + [SLASH] + (p[3] + [SLASH] + p[4]));
  }

  // ------------------------------------------------------------- headers

  // Runs of spaces outside quotes become one.
  function Collapsed(s: Bytes, inQuotes: bool, prevSpace: bool): Bytes {
    if s == [] then [] else
    var quoted := if s[0] == QUOTE then !inQuotes else inQuotes;
    if s[0] == SPACE && !quoted then
      (if prevSpace then [] else [SPACE]) + Collapsed(s[1..], quoted, true)
    else [s[0]] + Collapsed(s[1..], quoted, false)
  }

  predicate HasDoubleSpace(s: Bytes) {
    IndexOf(s, [SPACE, SPACE]) >= 0
  }

  function HeaderValue(value: Bytes): Bytes {
    var trimmed := TrimSpace(value);
    if HasDoubleSpace(trimmed) then Collapsed(trimmed, false, false) else trimmed
  }

  lemma CollapsedStep(r: Bytes, s: Bytes, i: nat, inQuotes: bool, prevSpace: bool)
    requires i < |s|
    ensures
      var quoted := if s[i] == QUOTE then !inQuotes else inQuotes;
      var space := s[i] == SPACE && !quoted;
      r + Collapsed(s[i..], inQuotes, prevSpace)
      == (if space && prevSpace then r else r + [s[i]]) + Collapsed(s[i + 1..], quoted, space)
  {
    assert s[i..][1..] == s[i + 1..];
  }

  method TrimHeaderValue(value: Bytes) returns (r: Bytes)
    ensures r == HeaderValue(value)
  {
    var trimmed := TrimSpace(value);
    if !HasDoubleSpace(trimmed) {
      return trimmed;
    }
    var inQuotes, prevSpace := false, false;
    r := [];
    assert trimmed[0..] == trimmed;
    hide HasDoubleSpace, TrimSpace;
    for i := 0 to |trimmed|
      invariant r + Collapsed(trimmed[i..], inQuotes, prevSpace) == Collapsed(trimmed, false, false)
    {
      var c := trimmed[i];
      CollapsedStep(r, trimmed, i, inQuotes, prevSpace);
      hide Collapsed;
      if c == QUOTE {
        inQuotes := !inQuotes;
      }
      if c == SPACE && !inQuotes {
        if prevSpace {
          continue;
        }
        prevSpace := true;
      } else {
        prevSpace := false;
      }
      r := r + [c];
    }
  }

  lemma DoubleSpaceAhead(s: Bytes)
    requires s != []
    ensures |s| >= 2 && s[0] == SPACE && s[1] == SPACE ==> HasDoubleSpace(s)
    ensures HasDoubleSpace(s[1..]) ==> HasDoubleSpace(s)
  {
    if |s| >= 2 && s[0] == SPACE && s[1] == SPACE {
      assert s[..2] == [SPACE, SPACE];
      assert HasPrefix(s, [SPACE, SPACE]);
    }
  }

  // The early return is only an optimisation: without a run of two spaces there
  // is nothing to collapse.
  lemma {:induction false} CollapsedIsIdentity(s: Bytes, inQuotes: bool, prevSpace: bool)
    requires !HasDoubleSpace(s) && (prevSpace && s != [] ==> s[0] != SPACE)
    ensures Collapsed(s, inQuotes, prevSpace) == s
  {
    if s != [] {
      DoubleSpaceAhead(s);
      var quoted := if s[0] == QUOTE then !inQuotes else inQuotes;
      CollapsedIsIdentity(s[1..], quoted, s[0] == SPACE && !quoted);
      assert s == [s[0]] + s[1..];
    }
  }

  function Quotes(s: Bytes): nat {
    if s == [] then 0 else Quotes(s[..|s| - 1]) + if s[|s| - 1] == QUOTE then 1 else 0
  }

  // A space right after a space, with as many quotes closed as opened before it.
  predicate Redundant(s: Bytes, i: nat)
    requires i < |s|
  {
    i > 0 && s[i] == SPACE && s[i - 1] == SPACE && Quotes(s[..i]) % 2 == 0
  }

  // What is left from the i-th byte on.
  function LessRedundant(s: Bytes, i: nat): Bytes
    requires i <= |s|
    decreases |s| - i
  {
    if i == |s| then [] else (if Redundant(s, i) then [] else [s[i]]) + LessRedundant(s, i + 1)
  }

  lemma {:induction false} CollapsedFrom(s: Bytes, i: nat)
    requires i <= |s|
    ensures Collapsed(s[i..], Quotes(s[..i]) % 2 == 1, i > 0 && s[i - 1] == SPACE && Quotes(s[..i]) % 2 == 0)
         == LessRedundant(s, i)
    decreases |s| - i
  {
    if i < |s| {
      CollapsedFrom(s, i + 1);
      assert s[..i + 1][..i] == s[..i];
      var inQuotes := Quotes(s[..i]) % 2 == 1;
      CollapsedStep([], s, i, inQuotes, i > 0 && s[i - 1] == SPACE && !inQuotes);
      hide Collapsed, Quotes;
    }
  }

  // A header value is signed without the white space around it and without the
  // redundant spaces in it, and otherwise as it is.
  lemma HeaderValueIs(value: Bytes)
    ensures HeaderValue(value) == LessRedundant(TrimSpace(value), 0)
  {
    var s := TrimSpace(value);
    CollapsedFrom(s, 0);
    assert s[0..] == s && s[..0] == [];
    if !HasDoubleSpace(s) {
      CollapsedIsIdentity(s, false, false);
    }
  }

  // Header values by name, as net/http keeps them; host is held apart.
  type Headers = Bytes -> seq<Bytes>

  function HeaderLine(headers: Headers, host: Bytes, name: Bytes): Bytes {
    name + [COLON]
    + (if name == HOST then HeaderValue(host) else JoinedBy(Mapped(HeaderValue, headers(name)), COMMA))
    + [LF]
  }

  function CanonicalHeaders(headers: Headers, host: Bytes, signed: seq<Bytes>): Bytes {
    if signed == [] then [] else HeaderLine(headers, host, signed[0]) + CanonicalHeaders(headers, host, signed[1..])
  }

  function CanonicalRequest(verb: Bytes, uri: Bytes, query: Bytes, headers: Headers, host: Bytes,
                            signed: seq<Bytes>, payloadHash: Bytes): Bytes {
    verb + [LF] + uri + [LF] + query + [LF]
      + (CanonicalHeaders(headers, host, signed) + [LF] + JoinedBy(signed, SEMICOLON) + [LF] + payloadHash)
  }

  // Host is the one header taken from elsewhere.
  lemma HostHeaderOnly(h1: Headers, h2: Headers, host: Bytes)
    ensures CanonicalHeaders(h1, host, [HOST]) == CanonicalHeaders(h2, host, [HOST])
  {
    hide HeaderValue, Ascii;
    assert HeaderLine(h1, host, HOST) == HeaderLine(h2, host, HOST);
    assert [HOST][1..] == [];
    assert CanonicalHeaders(h1, host, []) == CanonicalHeaders(h2, host, []);
  }

  // A name as it stands in a header line.
  predicate HeaderName(name: Bytes) {
    LF !in name && COLON !in name
  }

  // What is signed under a name is one line.
  predicate OneLineValues(headers: Headers, host: Bytes, name: Bytes) {
    if name == HOST then NoLineFeed(HeaderValue(host))
    else NoLineFeed(JoinedBy(Mapped(HeaderValue, headers(name)), COMMA))
  }

  predicate SignableHeaders(headers: Headers, host: Bytes, signed: seq<Bytes>) {
    forall name :: name in signed ==> HeaderName(name) && OneLineValues(headers, host, name)
  }

  // The same name signed over the same value: the host, or all the values of
  // that header.
  predicate SameHeader(h1: Headers, host1: Bytes, h2: Headers, host2: Bytes, name: Bytes) {
    if name == HOST then HeaderValue(host1) == HeaderValue(host2)
    else JoinedBy(Mapped(HeaderValue, h1(name)), COMMA) == JoinedBy(Mapped(HeaderValue, h2(name)), COMMA)
  }

  lemma SameLineSameHeader(h1: Headers, host1: Bytes, n1: Bytes, rest1: Bytes, h2: Headers, host2: Bytes, n2: Bytes,
      rest2: Bytes)
    requires HeaderName(n1) && OneLineValues(h1, host1, n1) && HeaderName(n2) && OneLineValues(h2, host2, n2)
    requires HeaderLine(h1, host1, n1) + rest1 == HeaderLine(h2, host2, n2) + rest2
    ensures n1 == n2 && SameHeader(h1, host1, h2, host2, n1) && rest1 == rest2
  {
    hide HeaderValue, Ascii, JoinedBy;
    var v1 := if n1 == HOST then HeaderValue(host1) else JoinedBy(Mapped(HeaderValue, h1(n1)), COMMA);
    var v2 := if n2 == HOST then HeaderValue(host2) else JoinedBy(Mapped(HeaderValue, h2(n2)), COMMA);
    assert HeaderLine(h1, host1, n1) + rest1 == n1 + [COLON] + v1 + [LF] + rest1;
    assert HeaderLine(h2, host2, n2) + rest2 == n2 + [COLON] + v2 + [LF] + rest2;
    CutJoins(n1 + [COLON] + v1, LF, rest1);
    CutJoins(n2 + [COLON] + v2, LF, rest2);
    CutJoins(n1, COLON, v1);
    CutJoins(n2, COLON, v2);
  }

  lemma HeaderLineStarts(headers: Headers, host: Bytes, name: Bytes, rest: Bytes, other: Bytes)
    requires HeaderName(name)
    ensures HeaderLine(headers, host, name) + rest != [LF] + other
  {
    hide HeaderValue, Ascii, JoinedBy;
    var line := HeaderLine(headers, host, name);
    assert line[0] == if name == [] then COLON else name[0];
    assert (line + rest)[0] == line[0];
  }

  // The headers under a signature cannot be changed: equal blocks of canonical
  // headers, up to the blank line that ends them, hold the same names in the
  // same order, each over the same value.
  lemma {:induction false} HeadersAreSigned(h1: Headers, host1: Bytes, s1: seq<Bytes>, rest1: Bytes,
      h2: Headers, host2: Bytes, s2: seq<Bytes>, rest2: Bytes)
    requires SignableHeaders(h1, host1, s1) && SignableHeaders(h2, host2, s2)
    requires CanonicalHeaders(h1, host1, s1) + [LF] + rest1 == CanonicalHeaders(h2, host2, s2) + [LF] + rest2
    ensures s1 == s2 && rest1 == rest2
    ensures forall name :: name in s1 ==> SameHeader(h1, host1, h2, host2, name)
    decreases |s1|
  {
    hide HeaderLine, SameHeader, HeaderName, OneLineValues;
    var c1, c2 := CanonicalHeaders(h1, host1, s1) + [LF] + rest1, CanonicalHeaders(h2, host2, s2) + [LF] + rest2;
    if s1 != [] && s2 != [] {
      var t1 := CanonicalHeaders(h1, host1, s1[1..]) + [LF] + rest1;
      var t2 := CanonicalHeaders(h2, host2, s2[1..]) + [LF] + rest2;
      assert c1 == HeaderLine(h1, host1, s1[0]) + t1 && c2 == HeaderLine(h2, host2, s2[0]) + t2;
      SameLineSameHeader(h1, host1, s1[0], t1, h2, host2, s2[0], t2);
      HeadersAreSigned(h1, host1, s1[1..], rest1, h2, host2, s2[1..], rest2);
      assert s1 == [s1[0]] + s1[1..] && s2 == [s2[0]] + s2[1..];
    } else if s1 != [] {
      var t1 := CanonicalHeaders(h1, host1, s1[1..]) + [LF] + rest1;
      assert c1 == HeaderLine(h1, host1, s1[0]) + t1 && c2 == [LF] + rest2;
      HeaderLineStarts(h1, host1, s1[0], t1, rest2);
    } else if s2 != [] {
      var t2 := CanonicalHeaders(h2, host2, s2[1..]) + [LF] + rest2;
      assert c2 == HeaderLine(h2, host2, s2[0]) + t2 && c1 == [LF] + rest1;
      HeaderLineStarts(h2, host2, s2[0], t2, rest1);
    } else {
      assert rest1 == c1[1..] && rest2 == c2[1..];
    }
  }

  function StringToSign(crypto: Crypto, timestamp: Bytes, scope: Scope, canonical: Bytes): Bytes {
    (ALGORITHM + [LF] + timestamp + [LF] + scope.Text() + [LF]) + crypto.sha(canonical)
  }

  function SigningKey(crypto: Crypto, secret: Bytes, scope: Scope): Bytes {
    var key := crypto.hmac(Ascii("AWS4") + secret, scope.date);
    var key' := crypto.hmac(key, scope.region);
    var key'' := crypto.hmac(key', scope.service);
    crypto.hmac(key'', SCOPE_TERMINATOR)
  }

  // The text is the scheme's four lines, in its order.
  lemma FourLines(crypto: Crypto, timestamp: Bytes, scope: Scope, canonical: Bytes)
    requires NoLineFeed(timestamp) && NoLineFeed(scope.Text()) && NoLineFeed(crypto.sha(canonical))
    ensures Split(StringToSign(crypto, timestamp, scope, canonical), LF)
         == [ALGORITHM, timestamp, scope.Text(), crypto.sha(canonical)]
  {
    AlgorithmIsOneLine();
    hide Ascii, Split, Scope.Text;
    var d := crypto.sha(canonical);
    SplitJoins(d, LF, []);
    SplitJoins(scope.Text(), LF, d);
    SplitJoins(timestamp, LF, scope.Text() + [LF] + d);
    SplitJoins(ALGORITHM, LF, timestamp + [LF] + (scope.Text() + [LF] + d));
    assert StringToSign(crypto, timestamp, scope, canonical)
        == ALGORITHM + [LF] + (timestamp + [LF] + (scope.Text() + [LF] + d));
  }

  lemma AlgorithmIsOneLine()
    ensures NoLineFeed(ALGORITHM)
  {
    AsciiChars("AWS4-HMAC-SHA256");
  }

  // One HMAC over another, each under the key the one before gave.
  function Chain(hmac: (Bytes, Bytes) -> Bytes, key: Bytes, texts: seq<Bytes>): Bytes
    decreases |texts|
  {
    if texts == [] then key else Chain(hmac, hmac(key, texts[0]), texts[1..])
  }

  // The key is chained through the parts of the scope as they are written.
  lemma KeyFollowsScope(crypto: Crypto, secret: Bytes, scope: Scope)
    requires SLASH !in scope.date && SLASH !in scope.region && SLASH !in scope.service
    ensures SigningKey(crypto, secret, scope) == Chain(crypto.hmac, Ascii("AWS4") + secret, Split(scope.Text(), SLASH))
  {
    ScopeSplits(scope);
    hide Split, Ascii, Scope.Text;
    var k := Ascii("AWS4") + secret;
    var k1 := crypto.hmac(k, scope.date);
    var k2 := crypto.hmac(k1, scope.region);
    var k3 := crypto.hmac(k2, scope.service);
    var k4 := crypto.hmac(k3, SCOPE_TERMINATOR);
    assert Chain(crypto.hmac, k4, []) == k4;
    assert Chain(crypto.hmac, k3, [SCOPE_TERMINATOR]) == k4;
    assert Chain(crypto.hmac, k2, [scope.service, SCOPE_TERMINATOR]) == k4;
    assert Chain(crypto.hmac, k1, [scope.region, scope.service, SCOPE_TERMINATOR]) == k4;
  }

  function Sign(crypto: Crypto, key: Bytes, stringToSign: Bytes): Bytes {
    HexText(crypto.hmac(key, stringToSign))
  }

  // The names as they are signed: lower case and sorted.
  function LowerName(name: Bytes): Bytes {
    ToLower(TrimSpace(name))
  }

  function SortedSignedHeaders(names: seq<Bytes>): seq<Bytes> {
    Sort(Mapped(LowerName, names), AtMost)
  }

  // A name is taken without the white space around it, and in small letters.
  lemma NameIs(a: Bytes, name: Bytes, b: Bytes)
    requires AllSpace(a) && Visible(name) && AllSpace(b)
    ensures LowerName(a + (name + b)) == ToLower(name)
  {
    hide TrimSpace, AllSpace, ToLower;
    SpacesAroundGo(a, name, b);
  }

  // The names signed are the client's whatever their case, their order and the
  // space around them, and they come in order.
  lemma SortedNames(names: seq<Bytes>)
    ensures multiset(SortedSignedHeaders(names)) == multiset(Mapped(LowerName, names))
    ensures Ordered(SortedSignedHeaders(names), AtMost)
    ensures forall n :: n in SortedSignedHeaders(names) <==> exists i :: 0 <= i < |names| && LowerName(names[i]) == n
  {
    hide LowerName, Sort;
    var lower, sorted := Mapped(LowerName, names), SortedSignedHeaders(names);
    BytesAreOrdered();
    SortSorts(lower, AtMost);
    forall n ensures n in sorted <==> exists i :: 0 <= i < |names| && LowerName(names[i]) == n {
      assert n in sorted <==> n in multiset(sorted);
      assert n in lower <==> n in multiset(lower);
      assert forall i :: 0 <= i < |names| ==> lower[i] == LowerName(names[i]);
    }
  }

  // The path as transmitted, then as this server would have encoded it.
  function CanonicalURIs(asTransmitted: Bytes, path: Bytes): seq<Bytes> {
    if path == [] then [[SLASH]] else
    var reEncoded := Encoded(path, false);
    if asTransmitted == reEncoded then [asTransmitted] else [asTransmitted, reEncoded]
  }

  // The readings tried: the path as transmitted first, and any other encoding
  // of the same path only as this server would have written it.
  lemma Readings(asTransmitted: Bytes, path: Bytes, uri: Bytes)
    ensures path == [] ==> CanonicalURIs(asTransmitted, path) == [[SLASH]]
    ensures path != [] ==> CanonicalURIs(asTransmitted, path)[0] == asTransmitted
    ensures path != [] ==>
      (uri in CanonicalURIs(asTransmitted, path) <==> uri == asTransmitted || uri == Encoded(path, false))
  {
    hide Encoded;
  }

  // ----------------------------------------------- what a signature fixes

  // Line by line, a canonical request determines the request line it came from.
  lemma CanonicalRequestIsInjective(v1: Bytes, u1: Bytes, q1: Bytes, rest1: Bytes, v2: Bytes, u2: Bytes, q2: Bytes,
      rest2: Bytes)
    requires NoLineFeed(v1) && NoLineFeed(u1) && NoLineFeed(q1)
    requires NoLineFeed(v2) && NoLineFeed(u2) && NoLineFeed(q2)
    requires v1 + [LF] + u1 + [LF] + q1 + [LF] + rest1 == v2 + [LF] + u2 + [LF] + q2 + [LF] + rest2
    ensures v1 == v2 && u1 == u2 && q1 == q2 && rest1 == rest2
  {
    var a2, b2 := q1 + [LF] + rest1, q2 + [LF] + rest2;
    var a1, b1 := u1 + [LF] + a2, u2 + [LF] + b2;
    assert v1 + [LF] + a1 == v2 + [LF] + b1 by {
      assert v1 + [LF] + u1 + [LF] + q1 + [LF] + rest1 == v1 + [LF] + a1;
      assert v2 + [LF] + u2 + [LF] + q2 + [LF] + rest2 == v2 + [LF] + b1;
    }
    CutJoins(v1, LF, a1);
    CutJoins(v2, LF, b1);
    CutJoins(u1, LF, a2);
    CutJoins(u2, LF, b2);
    CutJoins(q1, LF, rest1);
    CutJoins(q2, LF, rest2);
  }
}
