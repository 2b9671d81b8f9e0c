// Presigned URLs: building one, and checking one.
module Presign {
  import opened Outcomes
  import opened Bytes
  import opened Text
  import opened Sorting
  import opened Encoding
  import opened QueryOrder
  import opened Queries
  import opened SigV4

  const PARAM_ALGORITHM := Ascii("X-Amz-Algorithm")
  const PARAM_CREDENTIAL := Ascii("X-Amz-Credential")
  const PARAM_DATE := Ascii("X-Amz-Date")
  const PARAM_EXPIRES := Ascii("X-Amz-Expires")
  const PARAM_SIGNED_HEADERS := Ascii("X-Amz-SignedHeaders")
  const PARAM_SIGNATURE := Ascii("X-Amz-Signature")
  const OWN_NAMES := {PARAM_ALGORITHM, PARAM_CREDENTIAL, PARAM_DATE, PARAM_EXPIRES, PARAM_SIGNED_HEADERS}
  const SCHEME_END := Ascii("://")

  // Times and durations are nanoseconds.
  const SECOND := 1_000_000_000
  const MAX_CLOCK_SKEW := 15 * 60 * SECOND
  const MAX_PRESIGN_EXPIRY := 7 * 24 * 60 * 60 * SECOND

  // time.Format and time.Parse with the two layouts of the scheme.
  datatype Clock = Clock(iso8601: int -> Bytes, parse: Bytes -> Option<int>, dateOnly: int -> Bytes) {
    // The format keeps whole seconds, and no part of the date is a slash.
    ghost predicate Tells(t: int) {
      && parse(iso8601(t)) == Some(WholeSecond(t))
      && iso8601(WholeSecond(t)) == iso8601(t)
      && Part(dateOnly(t))
    }
  }

  function WholeSecond(t: int): int {
    t - t % SECOND
  }

  // An int64 product, as it wraps.
  function Wrap64(n: int): int {
    (n + 0x8000_0000_0000_0000) % 0x1_0000_0000_0000_0000 - 0x8000_0000_0000_0000
  }

  // It is the one int64 that differs by a multiple of 2^64.
  lemma WrapIs(n: int)
    ensures -0x8000_0000_0000_0000 <= Wrap64(n) <= MAX_INT64 && (Wrap64(n) - n) % 0x1_0000_0000_0000_0000 == 0
    ensures -0x8000_0000_0000_0000 <= n <= MAX_INT64 ==> Wrap64(n) == n
  {
  }

  lemma WrapsBelow(n: int)
    requires n > MAX_PRESIGN_EXPIRY
    ensures
      var wrapped := n % 0x1_0000_0000_0000_0000;
      Wrap64(n) <= MAX_PRESIGN_EXPIRY <==> wrapped <= MAX_PRESIGN_EXPIRY || wrapped >= 0x8000_0000_0000_0000
  {
    WrapIs(n);
  }

  // A stated expiry of over seven days passes the ceiling exactly when its
  // product with a second wraps back below it.
  lemma OverlongPassesIff(seconds: int)
    requires 7 * 24 * 60 * 60 < seconds <= MAX_INT64
    ensures
      var wrapped := seconds * SECOND % 0x1_0000_0000_0000_0000;
      Wrap64(seconds * SECOND) <= MAX_PRESIGN_EXPIRY
      <==> wrapped <= MAX_PRESIGN_EXPIRY || wrapped >= 0x8000_0000_0000_0000
  {
    WrapsBelow(seconds * SECOND);
  }

  // Such as 584 years and a bit, which comes out at 0.29 seconds.
  lemma OverlongPasses()
    ensures Wrap64(18_446_744_074 * SECOND) == 290_448_384
  {
    assert 18_446_744_074 * SECOND == 0x1_0000_0000_0000_0000 + 290_448_384;
  }

  predicate IsSignatureName(name: Bytes) {
    EqualFold(name, PARAM_SIGNATURE)
  }

  // ------------------------------------------------------------ verifying

  datatype Request = Request(
    verb: Bytes, asTransmitted: Bytes, path: Bytes, rawQuery: Bytes, host: Bytes,
    headers: Headers, declaredHash: Bytes)

  datatype Verifier = Verifier(crypto: Crypto, clock: Clock, lookup: Bytes -> Option<Bytes>)

  datatype VerifyError =
    | UnsupportedAlgorithm | MalformedAuthorization | MissingDate | InvalidArgument | RequestExpired
    | MissingSignedHeader | InvalidAccessKeyID | SignatureMismatch

  datatype Identity = Identity(accessKeyID: Bytes, payloadHash: Bytes, scope: Scope, timestamp: Bytes, signature: Bytes)

  function CanonicalOf(r: Request, uri: Bytes, signed: seq<Bytes>): Bytes {
    CanonicalRequest(r.verb, uri, CanonicalQueryOf(r.rawQuery, IsSignatureName), r.headers, r.host, signed,
                     if r.declaredHash == [] then UNSIGNED_PAYLOAD else r.declaredHash)
  }

  // Whether the signature is the one for this reading of the path.
  predicate Signs(v: Verifier, r: Request, uri: Bytes, signed: seq<Bytes>, signedAt: int, scope: Scope, secret: Bytes) {
    Sign(v.crypto, SigningKey(v.crypto, secret, scope),
         StringToSign(v.crypto, v.clock.iso8601(signedAt), scope, CanonicalOf(r, uri, signed)))
    == Get(r.rawQuery, PARAM_SIGNATURE)
  }

  // The checks before the signature itself.
  datatype Claim = Claim(credential: Credential, signedAt: int, signed: seq<Bytes>, secret: Bytes)

  // What a query says of its own signing.
  datatype Stated = Stated(algorithm: Bytes, credential: Bytes, date: Bytes, expires: Bytes, signedHeaders: Bytes)

  function StatedBy(rawQuery: Bytes): Stated {
    Stated(Get(rawQuery, PARAM_ALGORITHM), Get(rawQuery, PARAM_CREDENTIAL), Get(rawQuery, PARAM_DATE),
           Get(rawQuery, PARAM_EXPIRES), Get(rawQuery, PARAM_SIGNED_HEADERS))
  }

  function Checked(v: Verifier, said: Stated, now: int): Result<Claim, VerifyError> {
    if said.algorithm != ALGORITHM then Err(UnsupportedAlgorithm) else
    match ParseCredential(said.credential)
    case None => Err(MalformedAuthorization)
    case Some(credential) =>
      match v.clock.parse(said.date)
      case None => Err(MissingDate)
      case Some(signedAt) =>
        match Atoi(said.expires)
        case None => Err(InvalidArgument)
        case Some(seconds) =>
          var expiry := Wrap64(seconds * SECOND);
          if seconds <= 0 || expiry > MAX_PRESIGN_EXPIRY then Err(InvalidArgument)
          else if now < signedAt - MAX_CLOCK_SKEW || now > signedAt + expiry then Err(RequestExpired)
          else
            var signed := SortedSignedHeaders(Split(said.signedHeaders, SEMICOLON));
            if HOST !in signed then Err(MissingSignedHeader) else
            match v.lookup(credential.accessKeyID)
            case None => Err(InvalidAccessKeyID)
            case Some(secret) => Ok(Claim(credential, signedAt, signed, secret))
  }

  // A query that states as much, and is right otherwise, passes the checks.
  lemma OverlongClaimPasses(v: Verifier, said: Stated, now: int, credential: Credential, secret: Bytes)
    requires said.algorithm == ALGORITHM && ParseCredential(said.credential) == Some(credential)
    requires v.clock.parse(said.date) == Some(now) && said.expires == Itoa(18_446_744_074)
    requires HOST in SortedSignedHeaders(Split(said.signedHeaders, SEMICOLON))
    requires v.lookup(credential.accessKeyID) == Some(secret)
    ensures Checked(v, said, now).Ok?
  {
    DecimalRoundTrip(18_446_744_074);
    OverlongPasses();
    hide Itoa, Atoi, Wrap64, Ascii, SortedSignedHeaders, Split, ParseCredential;
  }

  function Stating(values: map<Bytes, Bytes>): Stated
    requires OWN_NAMES <= values.Keys
  {
    Stated(values[PARAM_ALGORITHM], values[PARAM_CREDENTIAL], values[PARAM_DATE], values[PARAM_EXPIRES],
           values[PARAM_SIGNED_HEADERS])
  }

  function ReadClaim(v: Verifier, r: Request, now: int): Result<Claim, VerifyError> {
    Checked(v, StatedBy(r.rawQuery), now)
  }

  predicate Matches(v: Verifier, r: Request, c: Claim) {
    exists i :: 0 <= i < |CanonicalURIs(r.asTransmitted, r.path)|
      && Signs(v, r, CanonicalURIs(r.asTransmitted, r.path)[i], c.signed, c.signedAt, c.credential.scope, c.secret)
  }

  method VerifyPresigned(v: Verifier, r: Request, now: int) returns (id: Result<Identity, VerifyError>)
    ensures match ReadClaim(v, r, now)
      case Err(e) => id == Err(e)
      case Ok(c) =>
        id == if !Matches(v, r, c) then Err(SignatureMismatch) else
          Ok(Identity(c.credential.accessKeyID, if r.declaredHash == [] then UNSIGNED_PAYLOAD else r.declaredHash,
                      c.credential.scope, v.clock.iso8601(c.signedAt), Get(r.rawQuery, PARAM_SIGNATURE)))
    ensures id.Ok? <==>
      var credential := ParseCredential(Get(r.rawQuery, PARAM_CREDENTIAL));
      var signedAt := v.clock.parse(Get(r.rawQuery, PARAM_DATE));
      var seconds := Atoi(Get(r.rawQuery, PARAM_EXPIRES));
      var signed := SortedSignedHeaders(Split(Get(r.rawQuery, PARAM_SIGNED_HEADERS), SEMICOLON));
      && Get(r.rawQuery, PARAM_ALGORITHM) == ALGORITHM && credential.Some? && signedAt.Some? && seconds.Some?
      && seconds.value > 0 && Wrap64(seconds.value * SECOND) <= 7 * 24 * 60 * 60 * SECOND
      && signedAt.value - 15 * 60 * SECOND <= now <= signedAt.value + Wrap64(seconds.value * SECOND)
      && HOST in signed && v.lookup(credential.value.accessKeyID).Some?
      && Matches(v, r, Claim(credential.value, signedAt.value, signed, v.lookup(credential.value.accessKeyID).value))
    ensures id.Ok? ==>
      && ParseCredential(Get(r.rawQuery, PARAM_CREDENTIAL)) == Some(Credential(id.value.accessKeyID, id.value.scope))
      && var signedAt := v.clock.parse(Get(r.rawQuery, PARAM_DATE)).value;
      && signedAt <= now + 15 * 60 * SECOND && now <= signedAt + 7 * 24 * 60 * 60 * SECOND
      && id.value.timestamp == v.clock.iso8601(signedAt) && id.value.signature == Get(r.rawQuery, PARAM_SIGNATURE)
      && id.value.payloadHash == if r.declaredHash == [] then UNSIGNED_PAYLOAD else r.declaredHash
    ensures id.Ok? <==> Accepts(v, r, now)
    ensures id == Err(UnsupportedAlgorithm) <==> Get(r.rawQuery, PARAM_ALGORITHM) != ALGORITHM
    ensures id == Err(InvalidArgument) ==>
      var seconds := Atoi(Get(r.rawQuery, PARAM_EXPIRES));
      seconds.None? || seconds.value <= 0 || Wrap64(seconds.value * SECOND) > 7 * 24 * 60 * 60 * SECOND
    ensures id == Err(RequestExpired) ==>
      var signedAt := v.clock.parse(Get(r.rawQuery, PARAM_DATE));
      var seconds := Atoi(Get(r.rawQuery, PARAM_EXPIRES));
      && signedAt.Some? && seconds.Some?
      && (now < signedAt.value - 15 * 60 * SECOND || now > signedAt.value + Wrap64(seconds.value * SECOND))
  {
    hide Get, CanonicalOf, Signs, SigningKey, Split, SortedSignedHeaders, Atoi, ParseCredential, Wrap64, Ascii,
        CanonicalURIs;
    var claim := ReadClaim(v, r, now);
    if claim.Err? {
      return Err(claim.error);
    }
    var c := claim.value;
    var uris := CanonicalURIs(r.asTransmitted, r.path);
    for i := 0 to |uris|
      invariant forall j :: 0 <= j < i ==>
        !Signs(v, r, uris[j], c.signed, c.signedAt, c.credential.scope, c.secret)
    {
      if Signs(v, r, uris[i], c.signed, c.signedAt, c.credential.scope, c.secret) {
        return Ok(Identity(c.credential.accessKeyID,
                           if r.declaredHash == [] then UNSIGNED_PAYLOAD else r.declaredHash,
                           c.credential.scope, v.clock.iso8601(c.signedAt), Get(r.rawQuery, PARAM_SIGNATURE)));
      }
    }
    return Err(SignatureMismatch);
  }

  // -------------------------------------------------------------- signing

  datatype Endpoint = Endpoint(scheme: Bytes, host: Bytes)

  function ParseEndpoint(publicURL: Bytes): Option<Endpoint> {
    var i := IndexOf(publicURL, SCHEME_END);
    if i < 0 || |publicURL| <= i + |SCHEME_END| then None else
    var host := Cut(publicURL[i + |SCHEME_END|..], SLASH).before;
    if host == [] then None else Some(Endpoint(publicURL[..i], host))
  }

  // The scheme is what precedes the first "://", and the host, its port with it,
  // what stands between that and the next slash or the end.
  predicate Names(publicURL: Bytes, e: Endpoint) {
    var before := e.scheme + Ascii("://") + e.host;
    && e.host != [] && SLASH !in e.host && HasPrefix(publicURL, before)
    && (|publicURL| == |before| || publicURL[|before|] == SLASH)
    && forall j :: 0 <= j < |e.scheme| ==> !HasPrefix(publicURL[j..], Ascii("://"))
  }

  lemma EndpointNames(publicURL: Bytes)
    ensures ParseEndpoint(publicURL).Some? ==> Names(publicURL, ParseEndpoint(publicURL).value)
  {
    hide Ascii, IndexOf, Cut, HasPrefix;
    var i, n := IndexOf(publicURL, SCHEME_END), |SCHEME_END|;
    if i >= 0 && |publicURL| > i + n {
      var rest := publicURL[i + n..];
      var host := Cut(rest, SLASH).before;
      AroundFirst(publicURL, SCHEME_END);
      CutIs(rest, SLASH);
      CutIsPrefix(rest, SLASH);
      PrefixOfAll(publicURL[..i] + SCHEME_END, host, rest[|host|..]);
      assert publicURL == publicURL[..i] + SCHEME_END + (host + rest[|host|..]);
    }
  }

  lemma PrefixOfAll(a: Bytes, b: Bytes, rest: Bytes)
    ensures HasPrefix(a + (b + rest), a + b)
    ensures (rest == [] ==> |a + (b + rest)| == |a + b|) && (rest != [] ==> (a + (b + rest))[|a + b|] == rest[0])
  {
    assert a + (b + rest) == a + b + rest;
  }

  lemma CutIsPrefix(s: Bytes, b: byte)
    ensures
      var before := Cut(s, b).before;
      |before| <= |s| && before == s[..|before|] && (|before| == |s| || s[|before|] == b)
  {
  }

  lemma NamesAreRead(publicURL: Bytes, e: Endpoint)
    requires Names(publicURL, e)
    ensures ParseEndpoint(publicURL) == Some(e)
  {
    hide Ascii, IndexOf, Cut;
    var before := e.scheme + SCHEME_END + e.host;
    var tail := publicURL[|before|..];
    assert publicURL == e.scheme + SCHEME_END + (e.host + tail);
    hide HasPrefix;
    FirstIs(e.scheme, SCHEME_END, e.host + tail);
    if tail != [] {
      CutJoins(e.host, SLASH, tail[1..]);
      assert e.host + tail == e.host + [SLASH] + tail[1..];
    } else {
      CutJoins(e.host, SLASH, []);
      assert e.host + tail == e.host;
    }
  }

  lemma EndpointIff(publicURL: Bytes, e: Endpoint)
    ensures ParseEndpoint(publicURL) == Some(e) <==> Names(publicURL, e)
  {
    hide ParseEndpoint, Names;
    EndpointNames(publicURL);
    if Names(publicURL, e) {
      NamesAreRead(publicURL, e);
    }
  }

  datatype Url = Url(scheme: Bytes, host: Bytes, path: Bytes, rawQuery: Bytes)

  datatype PresignError = BadExpiry | BadEndpoint

  // What is to be presigned, by whom, and when.
  datatype Link = Link(
    verb: Bytes, bucket: Bytes, key: Bytes, accessKeyID: Bytes, secret: Bytes, region: Bytes, now: int, expiry: int)

  function ScopeOf(clock: Clock, link: Link): Scope {
    Scope(clock.dateOnly(link.now), link.region, SERVICE)
  }

  function PathOf(link: Link): Bytes {
    [SLASH] + Encoded(link.bucket, true) + [SLASH] + Encoded(link.key, false)
  }

  function ObjectPath(bucket: Bytes, key: Bytes): Bytes {
    [SLASH] + bucket + [SLASH] + key
  }

  lemma SlashIsItself()
    ensures Encoded([SLASH], false) == [SLASH] && !IsUnreserved(SLASH)
  {
    assert [SLASH][1..] == [] && Encoded([], false) == [];
  }

  // The path of a link, encoded in pieces, is the encoding of the object's path
  // exactly when the bucket's name has no slash.
  lemma PathIsEncoded(link: Link)
    ensures PathOf(link) == Encoded(ObjectPath(link.bucket, link.key), false) <==> SLASH !in link.bucket
  {
    var b1, b0 := Encoded(link.bucket, true), Encoded(link.bucket, false);
    var tail := [SLASH] + Encoded(link.key, false);
    SettingsAgreeIff(link.bucket);
    SlashIsItself();
    hide Encoded;
    EncodedJoins([SLASH], link.key, false);
    EncodedJoins(link.bucket, [SLASH] + link.key, false);
    EncodedJoins([SLASH], link.bucket + ([SLASH] + link.key), false);
    assert ObjectPath(link.bucket, link.key) == [SLASH] + (link.bucket + ([SLASH] + link.key));
    assert Encoded(ObjectPath(link.bucket, link.key), false) == [SLASH] + (b0 + tail);
    assert PathOf(link) == [SLASH] + (b1 + tail);
    if [SLASH] + (b0 + tail) == [SLASH] + (b1 + tail) {
      assert |b0| == |b1|;
      assert b0 == ([SLASH] + (b0 + tail))[1..][..|b0|] && b1 == ([SLASH] + (b1 + tail))[1..][..|b1|];
    }
  }

  lemma SlashDecodes(rest: Bytes)
    ensures Decoded([SLASH] + rest) == DecodedAfter([SLASH], rest)
  {
    assert ([SLASH] + rest)[1..] == rest;
  }

  // Whatever the bucket and the key are, a link goes to that object.
  lemma PathDecodes(link: Link)
    ensures Decoded(PathOf(link)) == Some(ObjectPath(link.bucket, link.key))
  {
    hide Encoded, Decoded;
    var key := Encoded(link.key, false);
    var rest := [SLASH] + key;
    DecodeEncoded(link.key, false);
    SlashDecodes(key);
    DecodeEncoded(link.bucket, true);
    DecodedJoins(Encoded(link.bucket, true), rest);
    SlashDecodes(Encoded(link.bucket, true) + rest);
    assert PathOf(link) == [SLASH] + (Encoded(link.bucket, true) + rest);
    assert [SLASH] + (link.bucket + ([SLASH] + link.key)) == ObjectPath(link.bucket, link.key);
  }

  // The server has one reading of it where the bucket's name has no slash.
  lemma OneReading(link: Link)
    requires SLASH !in link.bucket
    ensures CanonicalURIs(PathOf(link), ObjectPath(link.bucket, link.key)) == [PathOf(link)]
  {
    PathIsEncoded(link);
    hide Encoded, PathOf;
  }

  function ExpirySeconds(link: Link): nat
    requires link.expiry > 0
  {
    link.expiry / SECOND
  }

  function OwnValues(clock: Clock, link: Link): map<Bytes, Bytes>
    requires link.expiry > 0
  {
    map[PARAM_ALGORITHM := ALGORITHM,
        PARAM_CREDENTIAL := link.accessKeyID + [SLASH] + ScopeOf(clock, link).Text(),
        PARAM_DATE := clock.iso8601(link.now),
        PARAM_EXPIRES := Itoa(ExpirySeconds(link)),
        PARAM_SIGNED_HEADERS := HOST]
  }

  // The entries of a map, in some order.
  ghost predicate Lists(ps: seq<Param>, values: map<Bytes, Bytes>) {
    && DistinctNames(ps)
    && (forall p :: p in ps ==> p.name in values && values[p.name] == p.value)
    && (forall name :: name in values ==> Param(name, values[name]) in ps)
  }

  function SignatureFor(crypto: Crypto, clock: Clock, link: Link, host: Bytes, query: Bytes): Bytes {
    var canonical := CanonicalRequest(link.verb, PathOf(link), query, (name: Bytes) => [], host, [HOST],
                                      UNSIGNED_PAYLOAD);
    Sign(crypto, SigningKey(crypto, link.secret, ScopeOf(clock, link)),
         StringToSign(crypto, clock.iso8601(link.now), ScopeOf(clock, link), canonical))
  }

  function PresignedUrl(crypto: Crypto, clock: Clock, link: Link, endpoint: Endpoint, ps: seq<Param>): Url {
    var query := SignedQuery(ps);
    Url(endpoint.scheme, endpoint.host, PathOf(link),
        query + [AMPERSAND] + PARAM_SIGNATURE + [EQUALS] + SignatureFor(crypto, clock, link, endpoint.host, query))
  }

  lemma PairsAppend(ps: seq<Param>, p: Param)
    ensures PairsOf(ps + [p]) == PairsOf(ps) + [Encoded(p.name, true) + [EQUALS] + Encoded(p.value, true)]
  {
    MappedAppend(EncodedParam, ps, p);
    MappedAppend(Pair, Mapped(EncodedParam, ps), EncodedParam(p));
  }

  // Each value encoded, in whatever order the map gives them up.
  method EncodeAll(values: map<Bytes, Bytes>) returns (pairs: seq<Bytes>)
    ensures exists entries :: Lists(entries, values) && pairs == PairsOf(entries)
  {
    hide PairsOf, Encoded;
    var names := values.Keys;
    pairs := [];
    ghost var entries: seq<Param> := [];
    assert PairsOf([]) == [] by {
      PairsOfNothing();
    }
    while names != {}
      invariant names <= values.Keys && DistinctNames(entries) && pairs == PairsOf(entries)
      invariant forall p :: p in entries ==> p.name in values && values[p.name] == p.value && p.name !in names
      invariant forall name :: name in values ==> name in names || Param(name, values[name]) in entries
      decreases |names|
    {
      var name :| name in names;
      names := names - {name};
      var n := UriEncode(name, true);
      var v := UriEncode(values[name], true);
      PairsAppend(entries, Param(name, values[name]));
      forall i | 0 <= i < |entries| ensures entries[i].name != name {
        assert entries[i] in entries;
      }
      pairs := pairs + [n + [EQUALS] + v];
      entries := entries + [Param(name, values[name])];
    }
  }

  lemma PairsOfNothing()
    ensures PairsOf([]) == []
  {
  }

  // The parameters are visited in whatever order the map gives them up.
  method Presign(crypto: Crypto, clock: Clock, link: Link, publicURL: Bytes, extra: map<Bytes, Bytes>)
    returns (r: Result<Url, PresignError>)
    ensures r.Ok? <==> 0 < link.expiry <= 7 * 24 * 60 * 60 * SECOND && ParseEndpoint(publicURL).Some?
    ensures r == Err(BadExpiry) <==> link.expiry <= 0 || link.expiry > 7 * 24 * 60 * 60 * SECOND
    ensures r.Ok? ==> Names(publicURL, Endpoint(r.value.scheme, r.value.host))
    ensures r == Err(BadEndpoint) ==> forall e :: !Names(publicURL, e)
    ensures r.Ok? ==> Decoded(r.value.path) == Some([SLASH] + link.bucket + [SLASH] + link.key)
    ensures r.Ok? ==>
      (r.value.path == Encoded([SLASH] + link.bucket + [SLASH] + link.key, false) <==> SLASH !in link.bucket)
    ensures r.Ok? && SLASH !in link.bucket ==>
      CanonicalURIs(r.value.path, [SLASH] + link.bucket + [SLASH] + link.key) == [r.value.path]
    ensures r.Ok? ==> exists entries ::
      Lists(entries, OwnValues(clock, link) + extra)
      && r.value == PresignedUrl(crypto, clock, link, ParseEndpoint(publicURL).value, entries)
  {
    hide ParseEndpoint, Names, OwnValues, SignatureFor, Encoded, Decoded, Sort, Itoa, PathOf, CanonicalURIs;
    if link.expiry <= 0 || link.expiry > MAX_PRESIGN_EXPIRY {
      return Err(BadExpiry);
    }
    var endpoint := ParseEndpoint(publicURL);
    forall e ensures ParseEndpoint(publicURL) == Some(e) <==> Names(publicURL, e) {
      EndpointIff(publicURL, e);
    }
    if endpoint.None? {
      return Err(BadEndpoint);
    }
    var values := OwnValues(clock, link) + extra;
    var pairs := EncodeAll(values);
    ghost var entries :| Lists(entries, values) && pairs == PairsOf(entries);
    var rawQuery := JoinedBy(Sort(pairs, AtMost), AMPERSAND);
    var signature := SignatureFor(crypto, clock, link, endpoint.value.host, rawQuery);
    r := Ok(Url(endpoint.value.scheme, endpoint.value.host, PathOf(link),
                rawQuery + [AMPERSAND] + PARAM_SIGNATURE + [EQUALS] + signature));
    assert r.value == PresignedUrl(crypto, clock, link, endpoint.value, entries);
    PathDecodes(link);
    PathIsEncoded(link);
    if SLASH !in link.bucket {
      OneReading(link);
    }
  }

  // ---------------------------------------------------- the URL, read back

  // The parameters of a presigned URL, in the order they appear.
  function UrlParams(ps: seq<Param>, signature: Bytes): seq<Param> {
    Mapped(DecodedParam, ByPair(ps)) + [Param(PARAM_SIGNATURE, signature)]
  }

  lemma UnreservedText(s: string)
    requires forall i :: 0 <= i < |s| ==> UnreservedChar(s[i])
    ensures Encoded(Ascii(s), true) == Ascii(s)
  {
    AsciiChars(s);
    assert Unreserved(Ascii(s));
    UnreservedIsEncoded(Ascii(s));
  }

  lemma HexIsUnreserved(s: Bytes)
    ensures Encoded(HexText(s), true) == HexText(s)
  {
    HexTextIsHex(s);
    forall i | 0 <= i < |HexText(s)| ensures IsUnreserved(HexText(s)[i]) {
      assert IsHexDigit(HexText(s)[i]);
    }
    UnreservedIsEncoded(HexText(s));
  }

  lemma SignatureNameIsUnreserved()
    ensures Encoded(PARAM_SIGNATURE, true) == PARAM_SIGNATURE
  {
    hide Encoded;
    UnreservedText("X-Amz-Signature");
  }

  lemma SignatureIsEncoded(crypto: Crypto, key: Bytes, text: Bytes)
    ensures EncodedParam(Param(PARAM_SIGNATURE, Sign(crypto, key, text))) == Param(PARAM_SIGNATURE, Sign(crypto, key,
        text))
  {
    HexIsUnreserved(crypto.hmac(key, text));
    SignatureNameIsUnreserved();
  }

  lemma ByPairIsEncoded(ps: seq<Param>)
    ensures Mapped(EncodedParam, Mapped(DecodedParam, ByPair(ps))) == ByPair(ps)
    ensures multiset(Mapped(DecodedParam, ByPair(ps))) == multiset(ps)
  {
    var fs, es := ByPair(ps), Mapped(EncodedParam, ps);
    ByPairKeeps(ps);
    DecodedBack(ps);
    MappedMultiset(DecodedParam, fs, es);
    forall i | 0 <= i < |fs| ensures EncodedParam(DecodedParam(fs[i])) == fs[i] {
      assert fs[i] in multiset(es);
      var k :| 0 <= k < |es| && es[k] == fs[i];
      assert Mapped(DecodedParam, es)[k] == ps[k];
    }
  }

  lemma {:induction false} RenderAppend(ps: seq<Param>, p: Param)
    requires ps != []
    ensures Render(ps + [p]) == Render(ps) + [AMPERSAND] + Pair(p)
  {
    if |ps| == 1 {
      assert (ps + [p])[1..] == [p];
    } else {
      assert (ps + [p])[1..] == ps[1..] + [p];
      RenderAppend(ps[1..], p);
    }
  }

  // Splitting the URL's query gives back each encoded pair and the signature.
  lemma UrlSplits(ps: seq<Param>, signature: Bytes)
    requires ps != [] && EncodedParam(Param(PARAM_SIGNATURE, signature)) == Param(PARAM_SIGNATURE, signature)
    ensures Split(SignedQuery(ps) + [AMPERSAND] + PARAM_SIGNATURE + [EQUALS] + signature, AMPERSAND)
         == PairsOf(UrlParams(ps, signature))
  {
    var last := Param(PARAM_SIGNATURE, signature);
    var ds := Mapped(DecodedParam, ByPair(ps));
    hide Encoded, Ascii, Split, ByPair, SignedQuery, Decoded;
    ByPairKeeps(ps);
    ByPairIsEncoded(ps);
    assert |multiset(ps)| == |ps| && |multiset(ds)| == |ds|;
    RenderAppend(ByPair(ps), last);
    assert SignedQuery(ps) + [AMPERSAND] + PARAM_SIGNATURE + [EQUALS] + signature
        == SignedQuery(ps) + [AMPERSAND] + Pair(last);
    MappedAppend(EncodedParam, ds, last);
    DecodedBack(UrlParams(ps, signature));
    RenderSplits(Mapped(EncodedParam, UrlParams(ps, signature)));
  }

  // Each value is read back. The signature is too, unless a parameter before it
  // has taken its name.
  lemma UrlValues(ps: seq<Param>, values: map<Bytes, Bytes>, signature: Bytes, name: Bytes)
    requires Lists(ps, values)
    ensures name in values ==> QueryValue(PairsOf(UrlParams(ps, signature)), name) == values[name]
    ensures PARAM_SIGNATURE !in values ==> QueryValue(PairsOf(UrlParams(ps, signature)), PARAM_SIGNATURE) == signature
  {
    var ds, gs := Mapped(DecodedParam, ByPair(ps)), UrlParams(ps, signature);
    hide ByPair, Ascii, PairsOf;
    ByPairIsEncoded(ps);
    forall i | 0 <= i < |ds| ensures ds[i] in ps {
      assert ds[i] in multiset(ds);
    }
    forall p | p in ps ensures p in ds {
      assert p in multiset(ds);
    }
    if name in values {
      ValueIsRead(ds, [Param(PARAM_SIGNATURE, signature)], Param(name, values[name]));
    }
    if PARAM_SIGNATURE !in values {
      assert gs[|gs| - 1] == Param(PARAM_SIGNATURE, signature);
      ValueIsRead(gs, [], Param(PARAM_SIGNATURE, signature));
      assert gs + [] == gs;
    }
  }

  lemma {:induction false} KeptJoins(a: seq<Bytes>, b: seq<Bytes>, excluded: Bytes -> bool)
    ensures Kept(a + b, excluded) == Kept(a, excluded) + Kept(b, excluded)
  {
    if a == [] {
      assert a + b == b;
    } else {
      assert (a + b)[1..] == a[1..] + b;
      KeptJoins(a[1..], b, excluded);
    }
  }

  lemma SignatureIsExcluded()
    ensures IsSignatureName(PARAM_SIGNATURE)
  {
    FoldsToItself(PARAM_SIGNATURE);
  }

  lemma {:induction false} FoldsToItself(name: Bytes)
    ensures EqualFold(name, name)
  {
    if name != [] {
      FoldsToItself(name[1..]);
    }
  }

  // The parameters whose names do not fold to the signature's.
  function Unsigned(ps: seq<Param>): seq<Param> {
    if ps == [] then [] else (if IsSignatureName(ps[0].name) then [] else [ps[0]]) + Unsigned(ps[1..])
  }

  lemma {:induction false} UnsignedCounts(ps: seq<Param>, p: Param)
    ensures multiset(Unsigned(ps))[p] == if IsSignatureName(p.name) then 0 else multiset(ps)[p]
  {
    hide IsSignatureName;
    if ps != [] {
      UnsignedCounts(ps[1..], p);
      assert ps == [ps[0]] + ps[1..];
    }
  }

  // Nothing is dropped exactly when no name folds to the signature's.
  lemma UnsignedIsAllIff(ps: seq<Param>)
    ensures multiset(Unsigned(ps)) == multiset(ps) <==> forall p :: p in ps ==> !IsSignatureName(p.name)
  {
    hide Unsigned, IsSignatureName;
    forall p ensures multiset(Unsigned(ps))[p] == if IsSignatureName(p.name) then 0 else multiset(ps)[p] {
      UnsignedCounts(ps, p);
    }
    if multiset(Unsigned(ps)) == multiset(ps) {
      forall p | p in ps ensures !IsSignatureName(p.name) {
        assert p in multiset(ps);
      }
    }
    if forall p :: p in ps ==> !IsSignatureName(p.name) {
      forall p ensures multiset(Unsigned(ps))[p] == multiset(ps)[p] {
        assert p in ps <==> p in multiset(ps);
      }
    }
  }

  lemma {:induction false} KeptUnsigned(es: seq<Param>)
    requires PlainParams(es)
    ensures Kept(Mapped(Pair, es), IsSignatureName) == Unsigned(Mapped(DecodedParam, es))
  {
    if es != [] {
      assert Plain(es[0].name);
      PairParses(es[0]);
      MappedCons(Pair, es);
      MappedCons(DecodedParam, es);
      assert PlainParams(es[1..]);
      hide PlainParams, Pair, DecodedParam, ParamOf, Mapped, IsSignatureName;
      KeptUnsigned(es[1..]);
    }
  }

  // Two lists of the same parameters render alike once sorted.
  lemma SortedRendersAlike(xs: seq<Param>, ys: seq<Param>)
    requires multiset(xs) == multiset(ys)
    ensures SortedParams(xs) == SortedParams(ys)
  {
    MappedMultiset(EncodedParam, xs, ys);
    ParamsAreOrdered();
    SortUnique(Mapped(EncodedParam, xs), Mapped(EncodedParam, ys), ParamAtMost);
  }

  // What the server canonicalises a presigned URL to: the parameters not named
  // like the signature, in the canonical order.
  lemma UrlCanonical(ps: seq<Param>, signature: Bytes, rawQuery: Bytes)
    requires Split(rawQuery, AMPERSAND) == PairsOf(UrlParams(ps, signature))
    ensures CanonicalQueryOf(rawQuery, IsSignatureName) == Render(SortedParams(Unsigned(ps)))
  {
    var ds, last := Mapped(DecodedParam, ByPair(ps)), Param(PARAM_SIGNATURE, signature);
    hide ByPair, Ascii, EqualFold, Sort, Split, Unsigned;
    ByPairIsEncoded(ps);
    SignatureIsExcluded();
    var es := Mapped(EncodedParam, ds);
    DecodedBack(ds);
    KeptUnsigned(es);
    PairsAppend(ds, last);
    DecodedBack([last]);
    assert Mapped(EncodedParam, [last]) == [EncodedParam(last)];
    assert Mapped(DecodedParam, [EncodedParam(last)])[0] == last;
    SignatureDropped(PairsOf(ds), EncodedParam(last));
    forall p ensures multiset(Unsigned(ds))[p] == multiset(Unsigned(ps))[p] {
      UnsignedCounts(ds, p);
      UnsignedCounts(ps, p);
    }
    assert multiset(Unsigned(ds)) == multiset(Unsigned(ps));
    SortedRendersAlike(Unsigned(ds), Unsigned(ps));
  }

  lemma SignatureDropped(pairs: seq<Bytes>, e: Param)
    requires Plain(e.name) && IsSignatureName(DecodedParam(e).name)
    ensures Kept(pairs + [Pair(e)], IsSignatureName) == Kept(pairs, IsSignatureName)
  {
    PairParses(e);
    KeptJoins(pairs, [Pair(e)], IsSignatureName);
    assert Kept([Pair(e)], IsSignatureName) == [];
  }

  // -------------------------------------------------------------- theorems

  // A link presigned with these extra parameters, opened against the host it
  // names by a client that declares no payload hash.
  ghost predicate Linked(v: Verifier, link: Link, endpoint: Endpoint, extra: map<Bytes, Bytes>, ps: seq<Param>,
      r: Request) {
    && 0 < link.expiry <= MAX_PRESIGN_EXPIRY
    && v.clock.Tells(link.now) && Part(link.accessKeyID) && Part(link.region)
    && v.lookup(link.accessKeyID) == Some(link.secret)
    && Lists(ps, OwnValues(v.clock, link) + extra)
    && var url := PresignedUrl(v.crypto, v.clock, link, endpoint, ps);
       r == Request(link.verb, url.path, ObjectPath(link.bucket, link.key), url.rawQuery, url.host, r.headers,
                    [])
  }

  // What Presign returns is such a link, once it is requested and its path decoded.
  lemma PresignedIsLinked(v: Verifier, link: Link, publicURL: Bytes, extra: map<Bytes, Bytes>, ps: seq<Param>, url: Url,
      headers: Headers)
    requires 0 < link.expiry <= MAX_PRESIGN_EXPIRY && ParseEndpoint(publicURL).Some?
    requires Lists(ps, OwnValues(v.clock, link) + extra)
    requires url == PresignedUrl(v.crypto, v.clock, link, ParseEndpoint(publicURL).value, ps)
    requires v.clock.Tells(link.now) && Part(link.accessKeyID) && Part(link.region)
    requires v.lookup(link.accessKeyID) == Some(link.secret)
    ensures Decoded(url.path).Some?
    ensures Linked(v, link, ParseEndpoint(publicURL).value, extra, ps,
                   Request(link.verb, url.path, Decoded(url.path).value, url.rawQuery, url.host, headers, []))
  {
    PathDecodes(link);
    hide ParseEndpoint, Lists, OwnValues, SignatureFor, SignedQuery, Decoded, PathOf, Ascii;
  }

  function SignatureOf(v: Verifier, link: Link, endpoint: Endpoint, ps: seq<Param>): Bytes {
    SignatureFor(v.crypto, v.clock, link, endpoint.host, SignedQuery(ps))
  }

  // ASCII names that differ beyond case at some place are different names.
  lemma {:induction false} NotFolded(s: Bytes, name: Bytes, i: nat)
    requires i < |s| && i < |name| && forall j :: 0 <= j < |s| ==> s[j] < 0x80
    requires LowerByte(s[i]) != LowerByte(name[i])
    ensures !EqualFold(s, name)
  {
    if i > 0 && LowerByte(s[0]) == LowerByte(name[0]) {
      NotFolded(s[1..], name[1..], i - 1);
    }
  }

  lemma TextNotFolded(s: string, i: nat)
    requires i < |s| && i < |PARAM_SIGNATURE| && forall j :: 0 <= j < |s| ==> s[j] < 128 as char
    requires LowerByte(s[i] as int) != LowerByte(PARAM_SIGNATURE[i])
    ensures !IsSignatureName(Ascii(s))
  {
    AsciiChars(s);
    NotFolded(Ascii(s), PARAM_SIGNATURE, i);
  }

  lemma OwnNamesFold()
    ensures !IsSignatureName(PARAM_ALGORITHM) && !IsSignatureName(PARAM_CREDENTIAL) && !IsSignatureName(PARAM_DATE)
    ensures !IsSignatureName(PARAM_EXPIRES) && !IsSignatureName(PARAM_SIGNED_HEADERS)
  {
    hide EqualFold, IsSignatureName;
    assert PARAM_SIGNATURE[6] == 0x53 && PARAM_SIGNATURE[10] == 0x61;
    hide Ascii;
    TextNotFolded("X-Amz-Algorithm", 6);
    TextNotFolded("X-Amz-Credential", 6);
    TextNotFolded("X-Amz-Date", 6);
    TextNotFolded("X-Amz-Expires", 6);
    TextNotFolded("X-Amz-SignedHeaders", 10);
  }

  lemma NamesDiffer()
    ensures PARAM_ALGORITHM[6] == 0x41 && PARAM_CREDENTIAL[6] == 0x43 && PARAM_DATE[6] == 0x44
    ensures PARAM_EXPIRES[6] == 0x45 && PARAM_SIGNED_HEADERS[6] == 0x53
  {
  }

  lemma OwnValuesAre(clock: Clock, link: Link)
    requires link.expiry > 0
    ensures
      var own := OwnValues(clock, link);
      && own.Keys == {PARAM_ALGORITHM, PARAM_CREDENTIAL, PARAM_DATE, PARAM_EXPIRES, PARAM_SIGNED_HEADERS}
      && own[PARAM_ALGORITHM] == ALGORITHM
      && own[PARAM_CREDENTIAL] == link.accessKeyID + [SLASH] + ScopeOf(clock, link).Text()
      && own[PARAM_DATE] == clock.iso8601(link.now)
      && own[PARAM_EXPIRES] == Itoa(ExpirySeconds(link))
      && own[PARAM_SIGNED_HEADERS] == HOST
  {
    NamesDiffer();
    hide Ascii, Itoa, Scope.Text;
  }

  lemma OwnNamesAreNotSignatures(clock: Clock, link: Link)
    requires link.expiry > 0
    ensures forall name :: name in OwnValues(clock, link) ==> !IsSignatureName(name)
  {
    OwnNamesFold();
    OwnValuesAre(clock, link);
    hide OwnValues, EqualFold, Ascii, IsSignatureName;
  }

  // The link's query splits into the parameters it was made from.
  lemma LinkSplits(v: Verifier, link: Link, endpoint: Endpoint, ps: seq<Param>)
    requires ps != []
    ensures Split(PresignedUrl(v.crypto, v.clock, link, endpoint, ps).rawQuery, AMPERSAND)
         == PairsOf(UrlParams(ps, SignatureOf(v, link, endpoint, ps)))
  {
    var sig := SignatureOf(v, link, endpoint, ps);
    var canonical := CanonicalRequest(link.verb, PathOf(link), SignedQuery(ps), (name: Bytes) => [], endpoint.host,
                                      [HOST], UNSIGNED_PAYLOAD);
    SignatureIsEncoded(v.crypto, SigningKey(v.crypto, link.secret, ScopeOf(v.clock, link)),
                       StringToSign(v.crypto, v.clock.iso8601(link.now), ScopeOf(v.clock, link), canonical));
    hide Ascii, Sign, SigningKey, StringToSign, CanonicalRequest, Encoded, ScopeOf, SignedQuery, PathOf, Split, PairsOf;
    UrlSplits(ps, sig);
  }

  // What the server reads in a link: the value of each parameter, an extra one's
  // in place of the scheme's own where they share a name; the signature, unless
  // an extra parameter has its name; and a canonical query without any parameter
  // named like the signature.
  lemma UrlReads(v: Verifier, link: Link, endpoint: Endpoint, extra: map<Bytes, Bytes>, ps: seq<Param>, r: Request,
      name: Bytes)
    requires Linked(v, link, endpoint, extra, ps, r)
    ensures
      var values := OwnValues(v.clock, link) + extra;
      && (name in values ==> Get(r.rawQuery, name) == values[name])
      && (PARAM_SIGNATURE !in extra ==> Get(r.rawQuery, PARAM_SIGNATURE) == SignatureOf(v, link, endpoint, ps))
      && CanonicalQueryOf(r.rawQuery, IsSignatureName) == Render(SortedParams(Unsigned(ps)))
  {
    var own, sig := OwnValues(v.clock, link), SignatureOf(v, link, endpoint, ps);
    OwnNamesAreNotSignatures(v.clock, link);
    SignatureIsExcluded();
    OwnValuesAre(v.clock, link);
    hide OwnValues, Ascii, PresignedUrl, Split, PairsOf, CanonicalQueryOf, QueryValue, IsSignatureName, UrlParams,
        SignatureFor, Unsigned;
    assert Param(PARAM_ALGORITHM, (own + extra)[PARAM_ALGORITHM]) in ps;
    LinkSplits(v, link, endpoint, ps);
    UrlValues(ps, own + extra, sig, name);
    UrlCanonical(ps, sig, r.rawQuery);
  }

  lemma SignedHostOnly()
    ensures SortedSignedHeaders(Split(HOST, SEMICOLON)) == [HOST]
  {
    HostName();
    hide Ascii, Cut, TrimSpace;
    SplitJoins(HOST, SEMICOLON, []);
    hide LowerName, Split;
    var one := [HOST];
    assert Mapped(LowerName, one) == one;
    assert one[1..] == [];
    assert Sort(one[1..], AtMost) == [];
    assert Sort(one, AtMost) == Insert(one[0], Sort(one[1..], AtMost), AtMost);
  }

  lemma LowerText(s: string)
    requires forall i :: 0 <= i < |s| ==> 'a' <= s[i] <= 'z'
    ensures SEMICOLON !in Ascii(s) && Visible(Ascii(s)) && ToLower(Ascii(s)) == Ascii(s)
  {
    AsciiChars(s);
    hide Ascii;
  }

  lemma HostName()
    ensures SEMICOLON !in HOST && LowerName(HOST) == HOST
  {
    LowerText("host");
    VisibleIsTrimmed(Ascii("host"));
    hide TrimSpace, Ascii, ToLower;
  }

  predicate InWindow(link: Link, now: int)
    requires link.expiry > 0
  {
    WholeSecond(link.now) - MAX_CLOCK_SKEW <= now <= WholeSecond(link.now) + ExpirySeconds(link) * SECOND
  }

  // The checks, from what the query is known to say.
  lemma ClaimIs(v: Verifier, link: Link, said: Stated, now: int, credential: Credential)
    requires 0 < link.expiry <= MAX_PRESIGN_EXPIRY && v.lookup(credential.accessKeyID) == Some(link.secret)
    requires said.algorithm == ALGORITHM && ParseCredential(said.credential) == Some(credential)
    requires v.clock.parse(said.date) == Some(WholeSecond(link.now))
    requires Atoi(said.expires) == Some(ExpirySeconds(link))
    requires SortedSignedHeaders(Split(said.signedHeaders, SEMICOLON)) == [HOST]
    ensures Checked(v, said, now) ==
      if ExpirySeconds(link) == 0 then Err(InvalidArgument)
      else if !InWindow(link, now) then Err(RequestExpired)
      else Ok(Claim(credential, WholeSecond(link.now), [HOST], link.secret))
  {
    hide Ascii, Atoi, SortedSignedHeaders, Split, ParseCredential, WholeSecond;
    assert 0 <= ExpirySeconds(link) <= 604800;
  }

  // The checks read the scheme's own values, or whatever the extra parameters
  // put in their place.
  lemma ClaimReads(v: Verifier, link: Link, endpoint: Endpoint, extra: map<Bytes, Bytes>, ps: seq<Param>, r: Request,
      now: int)
    requires Linked(v, link, endpoint, extra, ps, r)
    ensures OWN_NAMES <= (OwnValues(v.clock, link) + extra).Keys
    ensures ReadClaim(v, r, now) == Checked(v, Stating(OwnValues(v.clock, link) + extra), now)
  {
    OwnValuesAre(v.clock, link);
    hide Get, Ascii, OwnValues, Checked, Lists, PresignedUrl, CanonicalQueryOf, SortedParams, SignatureOf, Render;
    UrlReads(v, link, endpoint, extra, ps, r, PARAM_ALGORITHM);
    UrlReads(v, link, endpoint, extra, ps, r, PARAM_CREDENTIAL);
    UrlReads(v, link, endpoint, extra, ps, r, PARAM_DATE);
    UrlReads(v, link, endpoint, extra, ps, r, PARAM_EXPIRES);
    UrlReads(v, link, endpoint, extra, ps, r, PARAM_SIGNED_HEADERS);
  }

  // What a link states of itself: the algorithm, the signer in the scope of the
  // day it was signed on, the time, the whole seconds it is good for, and that
  // only the host is signed.
  lemma LinkStates(v: Verifier, link: Link, endpoint: Endpoint, extra: map<Bytes, Bytes>, ps: seq<Param>, r: Request)
    requires Linked(v, link, endpoint, extra, ps, r) && LeavesOwn(extra)
    ensures StatedBy(r.rawQuery) == Stated(
              Ascii("AWS4-HMAC-SHA256"),
              link.accessKeyID + [SLASH]
                + Scope(v.clock.dateOnly(link.now), link.region, Ascii("s3")).Text(),
              v.clock.iso8601(link.now), Itoa(link.expiry / SECOND), Ascii("host"))
  {
    OwnValuesAre(v.clock, link);
    hide Get, Ascii, OwnValues, Checked, Lists, PresignedUrl, CanonicalQueryOf, SortedParams, SignatureOf, Render,
        Scope.Text, Itoa;
    UrlReads(v, link, endpoint, extra, ps, r, PARAM_ALGORITHM);
    UrlReads(v, link, endpoint, extra, ps, r, PARAM_CREDENTIAL);
    UrlReads(v, link, endpoint, extra, ps, r, PARAM_DATE);
    UrlReads(v, link, endpoint, extra, ps, r, PARAM_EXPIRES);
    UrlReads(v, link, endpoint, extra, ps, r, PARAM_SIGNED_HEADERS);
  }

  // The extra parameters leave the scheme's own alone.
  ghost predicate LeavesOwn(extra: map<Bytes, Bytes>) {
    extra.Keys !! OWN_NAMES
  }

  // Then the checks come down to the time. An expiry of less than a second is
  // presigned too, and refused at any time.
  lemma OwnClaim(v: Verifier, link: Link, endpoint: Endpoint, extra: map<Bytes, Bytes>, ps: seq<Param>, r: Request,
      now: int)
    requires Linked(v, link, endpoint, extra, ps, r) && LeavesOwn(extra)
    ensures ReadClaim(v, r, now) ==
      if ExpirySeconds(link) == 0 then Err(InvalidArgument)
      else if !InWindow(link, now) then Err(RequestExpired)
      else Ok(Claim(Credential(link.accessKeyID, ScopeOf(v.clock, link)), WholeSecond(link.now), [HOST], link.secret))
  {
    OwnValuesAre(v.clock, link);
    ServiceIsPart();
    CredentialRoundTrip(link.accessKeyID, ScopeOf(v.clock, link));
    DecimalRoundTrip(ExpirySeconds(link));
    SignedHostOnly();
    ClaimReads(v, link, endpoint, extra, ps, r, now);
    hide Get, Ascii, OwnValues, Scope.Text, Itoa, Atoi, SortedSignedHeaders, Split, ParseCredential, Lists,
        PresignedUrl, ReadClaim, Checked;
    ClaimIs(v, link, Stating(OwnValues(v.clock, link) + extra), now, Credential(link.accessKeyID,
        ScopeOf(v.clock, link)));
  }

  lemma ServiceIsPart()
    ensures Part(SERVICE)
  {
  }

  ghost predicate CollisionFree(crypto: Crypto) {
    && (forall a, b :: crypto.sha(a) == crypto.sha(b) ==> a == b)
    && (forall k, a, b :: crypto.hmac(k, a) == crypto.hmac(k, b) ==> a == b)
  }

  // Derived keys do not sign alike unless they are the same key, and digests and
  // times are written on one line.
  ghost predicate Unambiguous(v: Verifier) {
    && (forall k1, a1, k2, a2, x, y ::
         v.crypto.hmac(v.crypto.hmac(k1, a1), x) == v.crypto.hmac(v.crypto.hmac(k2, a2), y)
         ==> v.crypto.hmac(k1, a1) == v.crypto.hmac(k2, a2))
    && (forall a :: NoLineFeed(v.crypto.sha(a)))
    && (forall t :: NoLineFeed(v.clock.iso8601(t)))
  }

  function PairText(a: Bytes, b: Bytes): Bytes {
    HexText(a) + [LF] + HexText(b)
  }

  lemma PairTextTells(a: Bytes, b: Bytes, c: Bytes, d: Bytes)
    requires PairText(a, b) == PairText(c, d)
    ensures a == c && b == d
  {
    HexTextIsHex(a);
    HexTextIsHex(c);
    CutJoins(HexText(a), LF, HexText(b));
    CutJoins(HexText(c), LF, HexText(d));
    HexTextInjective(a, c);
    HexTextInjective(b, d);
  }

  // There are functions like that.
  lemma HashesCanBeTold(clock: Clock, lookup: Bytes -> Option<Bytes>)
    requires forall t :: NoLineFeed(clock.iso8601(t))
    ensures
      var v := Verifier(Crypto(HexText, PairText), clock, lookup);
      CollisionFree(v.crypto) && Unambiguous(v)
  {
    hide HexText, NoLineFeed;
    forall a, b | HexText(a) == HexText(b) ensures a == b {
      HexTextInjective(a, b);
    }
    forall a, b, c, d | PairText(a, b) == PairText(c, d) ensures a == c && b == d {
      PairTextTells(a, b, c, d);
    }
    hide PairText;
    forall a ensures NoLineFeed(HexText(a)) {
      HexIsOneLine(a);
    }
  }

  lemma HexIsOneLine(a: Bytes)
    ensures NoLineFeed(HexText(a))
  {
    HexTextIsHex(a);
  }

  // A claim by the key, in the scope and at the second the link was signed with.
  predicate SameSigner(v: Verifier, link: Link, c: Claim) {
    && SigningKey(v.crypto, c.secret, c.credential.scope)
       == SigningKey(v.crypto, link.secret, ScopeOf(v.clock, link))
    && v.clock.iso8601(c.signedAt) == v.clock.iso8601(link.now)
    && c.credential.scope.Text() == ScopeOf(v.clock, link).Text()
  }

  lemma SameTextSameParts(crypto: Crypto, t1: Bytes, s1: Scope, c1: Bytes, t2: Bytes, s2: Scope, c2: Bytes)
    requires NoLineFeed(t1) && NoLineFeed(t2) && NoLineFeed(crypto.sha(c1)) && NoLineFeed(crypto.sha(c2))
    requires StringToSign(crypto, t1, s1, c1) == StringToSign(crypto, t2, s2, c2)
    ensures t1 == t2 && s1.Text() == s2.Text() && crypto.sha(c1) == crypto.sha(c2)
  {
    var x1, x2 := s1.Text() + [LF] + crypto.sha(c1), s2.Text() + [LF] + crypto.sha(c2);
    var head := ALGORITHM + [LF];
    var a1, a2 := StringToSign(crypto, t1, s1, c1), StringToSign(crypto, t2, s2, c2);
    hide Ascii, Scope.Text;
    assert a1 == head + (t1 + [LF] + x1) && a2 == head + (t2 + [LF] + x2);
    assert t1 + [LF] + x1 == a1[|head|..] && t2 + [LF] + x2 == a2[|head|..];
    CutJoins(t1, LF, x1);
    CutJoins(t2, LF, x2);
    LastLine(s1.Text(), crypto.sha(c1), s2.Text(), crypto.sha(c2));
  }

  // Equal signatures have the same signer and sign the same text.
  lemma SignatureTells(v: Verifier, link: Link, c: Claim, c1: Bytes, c2: Bytes)
    requires CollisionFree(v.crypto) && Unambiguous(v)
    requires Sign(v.crypto, SigningKey(v.crypto, c.secret, c.credential.scope),
                  StringToSign(v.crypto, v.clock.iso8601(c.signedAt), c.credential.scope, c1))
          == Sign(v.crypto, SigningKey(v.crypto, link.secret, ScopeOf(v.clock, link)),
                  StringToSign(v.crypto, v.clock.iso8601(link.now), ScopeOf(v.clock, link), c2))
    ensures SameSigner(v, link, c) && c1 == c2
  {
    var k1, k2 := SigningKey(v.crypto, c.secret, c.credential.scope),
        SigningKey(v.crypto, link.secret, ScopeOf(v.clock, link));
    var s1 := StringToSign(v.crypto, v.clock.iso8601(c.signedAt), c.credential.scope, c1);
    var s2 := StringToSign(v.crypto, v.clock.iso8601(link.now), ScopeOf(v.clock, link), c2);
    hide StringToSign, Ascii, Scope.Text, ScopeOf, NoLineFeed;
    HexTextInjective(v.crypto.hmac(k1, s1), v.crypto.hmac(k2, s2));
    assert k1 == k2;
    assert s1 == s2;
    SameTextSameParts(v.crypto, v.clock.iso8601(c.signedAt), c.credential.scope, c1,
                      v.clock.iso8601(link.now), ScopeOf(v.clock, link), c2);
  }

  lemma {:induction false} HostAmongOthers(headers: Headers, host: Bytes, signed: seq<Bytes>)
    requires HOST in signed
    ensures |JoinedBy(signed, SEMICOLON)| >= |HOST|
    ensures |CanonicalHeaders(headers, host, signed)| >= |HeaderLine(headers, host, HOST)|
    ensures |signed| > 1 ==> |CanonicalHeaders(headers, host, signed)| > |HeaderLine(headers, host, HOST)|
  {
    hide Ascii, HeaderValue;
    if signed[0] != HOST {
      HostAmongOthers(headers, host, signed[1..]);
    } else if |signed| > 1 {
      assert |CanonicalHeaders(headers, host, signed[1..])| > 0;
    }
  }

  lemma SameLength(a1: Bytes, j1: Bytes, a2: Bytes, j2: Bytes, end: Bytes)
    requires a1 + [LF] + j1 + [LF] + end == a2 + [LF] + j2 + [LF] + end
    ensures |a1| + |j1| == |a2| + |j2|
  {
    assert |a1 + [LF] + j1 + [LF] + end| == |a2 + [LF] + j2 + [LF] + end|;
  }

  lemma HostAlone(h1: Headers, h2: Headers, host: Bytes)
    ensures CanonicalHeaders(h2, host, [HOST]) == HeaderLine(h1, host, HOST) && JoinedBy([HOST], SEMICOLON) == HOST
  {
    hide HeaderLine, Ascii;
    HostHeaderOnly(h1, h2, host);
    assert [HOST][1..] == [];
    assert CanonicalHeaders(h1, host, []) == [];
  }

  // Headers that take up as little room as the host alone are the host alone.
  lemma ShortestIsHost(h1: Headers, h2: Headers, host: Bytes, signed: seq<Bytes>)
    requires HOST in signed
    requires CanonicalHeaders(h1, host, signed) + [LF] + JoinedBy(signed, SEMICOLON) + [LF] + UNSIGNED_PAYLOAD
          == CanonicalHeaders(h2, host, [HOST]) + [LF] + JoinedBy([HOST], SEMICOLON) + [LF] + UNSIGNED_PAYLOAD
    ensures signed == [HOST]
  {
    hide CanonicalHeaders, HeaderLine, Ascii, JoinedBy;
    HostAmongOthers(h1, host, signed);
    HostAlone(h1, h2, host);
    SameLength(CanonicalHeaders(h1, host, signed), JoinedBy(signed, SEMICOLON),
               CanonicalHeaders(h2, host, [HOST]), HOST, UNSIGNED_PAYLOAD);
    assert |signed| == 1;
  }

  // The same query is the same request, whatever other headers come with it.
  lemma SameQuerySigns(v: Verifier, link: Link, endpoint: Endpoint, ps: seq<Param>, r: Request, c: Claim)
    requires r.verb == link.verb && r.host == endpoint.host && r.declaredHash == []
    requires SameSigner(v, link, c)
    requires CanonicalQueryOf(r.rawQuery, IsSignatureName) == SignedQuery(ps)
    requires Get(r.rawQuery, PARAM_SIGNATURE) == SignatureOf(v, link, endpoint, ps)
    ensures Signs(v, r, PathOf(link), [HOST], c.signedAt, c.credential.scope, c.secret)
  {
    hide CanonicalQueryOf, SignedQuery, Get, SigningKey, Sign, Ascii, CanonicalHeaders, PathOf, Scope.Text, ScopeOf;
    HostHeaderOnly(r.headers, (name: Bytes) => [], r.host);
  }

  // And nothing else is.
  lemma OnlySameQuerySigns(v: Verifier, link: Link, endpoint: Endpoint, ps: seq<Param>, r: Request, c: Claim,
      uri: Bytes)
    requires CollisionFree(v.crypto) && Unambiguous(v) && NoLineFeed(link.verb) && NoLineFeed(uri)
    requires r.verb == link.verb && r.host == endpoint.host && r.declaredHash == [] && HOST in c.signed
    requires Get(r.rawQuery, PARAM_SIGNATURE) == SignatureOf(v, link, endpoint, ps)
    requires Signs(v, r, uri, c.signed, c.signedAt, c.credential.scope, c.secret)
    ensures SameSigner(v, link, c) && c.signed == [HOST]
    ensures CanonicalQueryOf(r.rawQuery, IsSignatureName) == SignedQuery(ps)
  {
    PathHasNoLineFeed(link);
    CanonicalHasNoLineFeed(r.rawQuery);
    QueriesHaveNoLineFeed(ps);
    hide CanonicalQueryOf, SignedQuery, Get, SigningKey, Sign, StringToSign, Ascii, CanonicalHeaders, JoinedBy,
        PathOf, ScopeOf, NoLineFeed, CollisionFree, Unambiguous, SameSigner;
    var none := (name: Bytes) => [];
    var q1, q2 := CanonicalQueryOf(r.rawQuery, IsSignatureName), SignedQuery(ps);
    var rest1 := CanonicalHeaders(r.headers, r.host, c.signed) + [LF] + JoinedBy(c.signed, SEMICOLON) + [LF]
        + UNSIGNED_PAYLOAD;
    var rest2 := CanonicalHeaders(none, r.host, [HOST]) + [LF] + JoinedBy([HOST], SEMICOLON) + [LF]
        + UNSIGNED_PAYLOAD;
    SignatureTells(v, link, c, CanonicalOf(r, uri, c.signed),
                   CanonicalRequest(link.verb, PathOf(link), q2, none, endpoint.host, [HOST], UNSIGNED_PAYLOAD));
    CanonicalRequestIsInjective(r.verb, uri, q1, rest1, link.verb, PathOf(link), q2, rest2);
    ShortestIsHost(r.headers, none, r.host, c.signed);
  }

  lemma SameSignatureSameText(crypto: Crypto, key: Bytes, timestamp: Bytes, scope: Scope, c1: Bytes, c2: Bytes)
    requires CollisionFree(crypto)
    requires Sign(crypto, key, StringToSign(crypto, timestamp, scope, c1))
          == Sign(crypto, key, StringToSign(crypto, timestamp, scope, c2))
    ensures c1 == c2
  {
    var s1, s2 := StringToSign(crypto, timestamp, scope, c1), StringToSign(crypto, timestamp, scope, c2);
    HexTextInjective(crypto.hmac(key, s1), crypto.hmac(key, s2));
    var head := ALGORITHM + [LF] + timestamp + [LF] + scope.Text() + [LF];
    assert s1[|head|..] == crypto.sha(c1) && s2[|head|..] == crypto.sha(c2);
  }

  // ---------------------------------------------------------- no line feeds

  lemma EncodedHasNoLineFeed(s: Bytes, encodeSlash: bool)
    ensures NoLineFeed(Encoded(s, encodeSlash))
  {
    EncodedAlphabet(s, encodeSlash);
  }

  lemma PathHasNoLineFeed(link: Link)
    ensures NoLineFeed(PathOf(link))
  {
    EncodedHasNoLineFeed(link.bucket, true);
    EncodedHasNoLineFeed(link.key, false);
  }

  lemma {:induction false} RenderHasNoLineFeed(es: seq<Param>)
    requires forall i :: 0 <= i < |es| ==> NoLineFeed(es[i].name) && NoLineFeed(es[i].value)
    ensures NoLineFeed(Render(es))
  {
    if es != [] {
      assert NoLineFeed(es[0].name) && NoLineFeed(es[0].value);
      RenderHasNoLineFeed(es[1..]);
    }
  }

  // A list with the same members as the encoded parameters renders on one line.
  lemma MembersHaveNoLineFeed(es: seq<Param>, ps: seq<Param>)
    requires multiset(es) == multiset(Mapped(EncodedParam, ps))
    ensures NoLineFeed(Render(es))
  {
    forall i | 0 <= i < |es| ensures NoLineFeed(es[i].name) && NoLineFeed(es[i].value) {
      assert es[i] in multiset(Mapped(EncodedParam, ps));
      var k :| 0 <= k < |ps| && EncodedParam(ps[k]) == es[i];
      EncodedHasNoLineFeed(ps[k].name, true);
      EncodedHasNoLineFeed(ps[k].value, true);
    }
    RenderHasNoLineFeed(es);
  }

  lemma QueriesHaveNoLineFeed(ps: seq<Param>)
    ensures NoLineFeed(SignedQuery(ps)) && NoLineFeed(Render(SortedParams(ps)))
  {
    ByPairKeeps(ps);
    MembersHaveNoLineFeed(ByPair(ps), ps);
    ParamsAreOrdered();
    SortSorts(Mapped(EncodedParam, ps), ParamAtMost);
    MembersHaveNoLineFeed(SortedParams(ps), ps);
  }

  lemma UrisHaveNoLineFeed(link: Link, path: Bytes, i: nat)
    requires i < |CanonicalURIs(PathOf(link), path)|
    ensures NoLineFeed(CanonicalURIs(PathOf(link), path)[i])
  {
    PathHasNoLineFeed(link);
    EncodedHasNoLineFeed(path, false);
  }

  // --------------------------------------------------- accepted exactly when

  ghost predicate Accepts(v: Verifier, r: Request, now: int) {
    match ReadClaim(v, r, now)
    case Ok(c) => Matches(v, r, c)
    case Err(_) => false
  }

  lemma AcceptsIff(v: Verifier, r: Request, now: int)
    ensures ReadClaim(v, r, now).Ok? ==> (Accepts(v, r, now) <==> Matches(v, r, ReadClaim(v, r, now).value))
    ensures ReadClaim(v, r, now).Err? ==> !Accepts(v, r, now)
  {
    hide ReadClaim, Matches;
  }

  lemma FirstReading(v: Verifier, link: Link, r: Request, c: Claim)
    requires r.asTransmitted == PathOf(link) && r.path != []
    requires Signs(v, r, PathOf(link), c.signed, c.signedAt, c.credential.scope, c.secret)
    ensures Matches(v, r, c)
  {
    hide Signs, PathOf, Encoded;
    assert CanonicalURIs(r.asTransmitted, r.path)[0] == PathOf(link);
  }

  // What a link says of where it goes.
  lemma LinkGoes(v: Verifier, link: Link, endpoint: Endpoint, extra: map<Bytes, Bytes>, ps: seq<Param>, r: Request)
    requires Linked(v, link, endpoint, extra, ps, r)
    ensures r.verb == link.verb && r.host == endpoint.host && r.declaredHash == []
    ensures r.asTransmitted == PathOf(link) && r.path == ObjectPath(link.bucket, link.key)
    ensures link.expiry > 0
    ensures Lists(ps, OwnValues(v.clock, link) + extra)
    ensures forall name :: name in extra ==> Param(name, extra[name]) in ps
  {
    hide PathOf, SignatureFor, SignedQuery, Ascii, OwnValues;
    var values := OwnValues(v.clock, link) + extra;
    forall name | name in extra ensures Param(name, extra[name]) in ps {
      assert name in values && values[name] == extra[name];
    }
  }

  // The query that was signed is the canonical one exactly when no encoded names
  // clash and no name folds to the signature's.
  lemma SignedIsUnsignedIff(ps: seq<Param>)
    ensures Render(SortedParams(Unsigned(ps))) == SignedQuery(ps)
       <==> NoClashes(ps) && forall p :: p in ps ==> !IsSignatureName(p.name)
  {
    UnsignedIsAllIff(ps);
    hide SortedParams, SignedQuery, Unsigned, NoClashes, IsSignatureName;
    if Render(SortedParams(Unsigned(ps))) == SignedQuery(ps) {
      SameRenderSameParams(Unsigned(ps), ps);
    }
    if NoClashes(ps) && multiset(Unsigned(ps)) == multiset(ps) {
      SortedRendersAlike(Unsigned(ps), ps);
      SignedIsCanonicalIff(ps);
    }
  }

  // No extra parameter is named like the signature.
  ghost predicate NoSignatureNames(extra: map<Bytes, Bytes>) {
    forall name :: name in extra ==> !IsSignatureName(name)
  }

  lemma LinkIsCanonicalIff(v: Verifier, link: Link, endpoint: Endpoint, extra: map<Bytes, Bytes>, ps: seq<Param>,
      r: Request)
    requires Linked(v, link, endpoint, extra, ps, r)
    ensures CanonicalQueryOf(r.rawQuery, IsSignatureName) == SignedQuery(ps)
       <==> NoClashes(ps) && NoSignatureNames(extra)
  {
    UrlReads(v, link, endpoint, extra, ps, r, PARAM_DATE);
    SignedIsUnsignedIff(ps);
    OwnNamesAreNotSignatures(v.clock, link);
    hide OwnValues, SignedQuery, SortedParams, Ascii, Get, NoClashes, SignatureOf, CanonicalQueryOf, Render, Unsigned,
        IsSignatureName, PresignedUrl;
    var values := OwnValues(v.clock, link) + extra;
    assert forall p :: p in ps ==> p.name in values;
    forall name | name in extra ensures Param(name, values[name]) in ps {
    }
  }

  // A link is honoured at exactly the times from fifteen minutes before it was
  // signed to when it expires, if its extra parameters leave the scheme's own
  // names alone and no names clash.
  lemma LinkWorksInItsWindow(v: Verifier, link: Link, endpoint: Endpoint, extra: map<Bytes, Bytes>, ps: seq<Param>,
      r: Request, now: int)
    requires Linked(v, link, endpoint, extra, ps, r)
    requires LeavesOwn(extra) && NoSignatureNames(extra) && NoClashes(ps)
    ensures Accepts(v, r, now) <==> ExpirySeconds(link) >= 1 && InWindow(link, now)
  {
    hide ReadClaim, Ascii, InWindow, NoClashes, SignatureOf, CanonicalQueryOf, Render, Unsigned, IsSignatureName,
        Linked, SortedParams, OwnValues, Get, SignedQuery, ScopeOf, Signs, Matches, Accepts, PathOf, WholeSecond;
    AcceptsIff(v, r, now);
    OwnClaim(v, link, endpoint, extra, ps, r, now);
    LinkGoes(v, link, endpoint, extra, ps, r);
    UrlReads(v, link, endpoint, extra, ps, r, PARAM_DATE);
    LinkIsCanonicalIff(v, link, endpoint, extra, ps, r);
    SignatureIsExcluded();
    assert PARAM_SIGNATURE !in extra;
    var c := Claim(Credential(link.accessKeyID, ScopeOf(v.clock, link)), WholeSecond(link.now), [HOST], link.secret);
    OwnSigner(v, link, endpoint, extra, ps, r, c);
    SameQuerySigns(v, link, endpoint, ps, r, c);
    FirstReading(v, link, r, c);
  }

  lemma OwnSigner(v: Verifier, link: Link, endpoint: Endpoint, extra: map<Bytes, Bytes>, ps: seq<Param>, r: Request,
      c: Claim)
    requires Linked(v, link, endpoint, extra, ps, r)
    requires c.credential.scope == ScopeOf(v.clock, link) && c.secret == link.secret
    requires c.signedAt == WholeSecond(link.now)
    ensures SameSigner(v, link, c)
  {
    hide ScopeOf, SigningKey, Scope.Text, PresignedUrl, OwnValues, WholeSecond, Ascii;
  }

  // The signature of what the server will canonicalise the link to, for one
  // reading of its path.
  function SignatureOver(v: Verifier, link: Link, endpoint: Endpoint, ps: seq<Param>, headers: Headers, c: Claim,
      uri: Bytes): Bytes {
    Sign(v.crypto, SigningKey(v.crypto, c.secret, c.credential.scope),
         StringToSign(v.crypto, v.clock.iso8601(c.signedAt), c.credential.scope,
                      CanonicalRequest(link.verb, uri, Render(SortedParams(Unsigned(ps))), headers, endpoint.host,
                                       c.signed, UNSIGNED_PAYLOAD)))
  }

  // What the link must still satisfy once its claim has passed.
  ghost predicate Holds(v: Verifier, link: Link, endpoint: Endpoint, extra: map<Bytes, Bytes>, ps: seq<Param>,
      headers: Headers, c: Claim) {
    if PARAM_SIGNATURE in extra then
      exists uri ::
        uri in CanonicalURIs(PathOf(link), ObjectPath(link.bucket, link.key))
        && extra[PARAM_SIGNATURE] == SignatureOver(v, link, endpoint, ps, headers, c, uri)
    else SameSigner(v, link, c) && c.signed == [HOST] && NoClashes(ps) && NoSignatureNames(extra)
  }

  lemma SuppliedWorksIff(v: Verifier, link: Link, endpoint: Endpoint, extra: map<Bytes, Bytes>, ps: seq<Param>,
      r: Request, c: Claim)
    requires Linked(v, link, endpoint, extra, ps, r) && PARAM_SIGNATURE in extra
    ensures Matches(v, r, c) <==> Holds(v, link, endpoint, extra, ps, r.headers, c)
  {
    hide SortedParams, Ascii, Get, NoClashes, SignatureOf, CanonicalQueryOf, Linked, Render, Unsigned, OwnValues,
        NoSignatureNames, SameSigner, PathOf, CanonicalURIs, CanonicalRequest, StringToSign, SigningKey, Sign;
    UrlReads(v, link, endpoint, extra, ps, r, PARAM_SIGNATURE);
    LinkGoes(v, link, endpoint, extra, ps, r);
    var uris := CanonicalURIs(r.asTransmitted, r.path);
    forall uri ensures Signs(v, r, uri, c.signed, c.signedAt, c.credential.scope, c.secret)
      <==> extra[PARAM_SIGNATURE] == SignatureOver(v, link, endpoint, ps, r.headers, c, uri) {
    }
  }

  lemma ClaimedLinkWorksIff(v: Verifier, link: Link, endpoint: Endpoint, extra: map<Bytes, Bytes>, ps: seq<Param>,
      r: Request, c: Claim)
    requires Linked(v, link, endpoint, extra, ps, r) && CollisionFree(v.crypto) && Unambiguous(v)
    requires NoLineFeed(link.verb) && HOST in c.signed
    ensures Matches(v, r, c) <==> Holds(v, link, endpoint, extra, ps, r.headers, c)
  {
    if PARAM_SIGNATURE in extra {
      SuppliedWorksIff(v, link, endpoint, extra, ps, r, c);
    }
    hide SignatureOver, Signs, SignedQuery, SortedParams, Ascii, Get, ScopeOf, NoClashes, SignatureOf, CanonicalQueryOf,
        Linked, Render, Unsigned, NoLineFeed, CollisionFree, Unambiguous, OwnValues, NoSignatureNames, SameSigner,
        PathOf;
    UrlReads(v, link, endpoint, extra, ps, r, PARAM_DATE);
    LinkIsCanonicalIff(v, link, endpoint, extra, ps, r);
    LinkGoes(v, link, endpoint, extra, ps, r);
    if PARAM_SIGNATURE !in extra {
      if Holds(v, link, endpoint, extra, ps, r.headers, c) {
        SameQuerySigns(v, link, endpoint, ps, r, c);
        FirstReading(v, link, r, c);
      }
      var uris := CanonicalURIs(r.asTransmitted, r.path);
      hide CanonicalURIs;
      if i :| 0 <= i < |uris| && Signs(v, r, uris[i], c.signed, c.signedAt, c.credential.scope, c.secret) {
        UrisHaveNoLineFeed(link, r.path, i);
        OnlySameQuerySigns(v, link, endpoint, ps, r, c, uris[i]);
      }
    }
  }

  // Exactly when a presigned link is honoured, whatever extra parameters it was
  // given: the values it states, an extra one's in place of the scheme's own,
  // make a claim that passes, by the signer; only the host is signed; and no two
  // names clash and none is a variant of the signature's. An extra parameter of
  // exactly that name has to be right by itself.
  lemma LinkWorksIff(v: Verifier, link: Link, endpoint: Endpoint, extra: map<Bytes, Bytes>, ps: seq<Param>, r: Request,
      now: int)
    requires Linked(v, link, endpoint, extra, ps, r) && CollisionFree(v.crypto) && Unambiguous(v)
    requires NoLineFeed(link.verb)
    ensures OWN_NAMES <= (OwnValues(v.clock, link) + extra).Keys
    ensures Accepts(v, r, now) <==>
      match Checked(v, Stating(OwnValues(v.clock, link) + extra), now)
      case Err(_) => false
      case Ok(c) => Holds(v, link, endpoint, extra, ps, r.headers, c)
  {
    ClaimReads(v, link, endpoint, extra, ps, r, now);
    ClaimHasHost(v, r, now);
    hide Linked, NoClashes, CollisionFree, Unambiguous, NoLineFeed, Holds, Matches, ReadClaim, Checked, Ascii,
        OwnValues, Stating;
    match ReadClaim(v, r, now) {
      case Ok(c) => ClaimedLinkWorksIff(v, link, endpoint, extra, ps, r, c);
      case Err(_) =>
    }
  }

  lemma ClaimHasHost(v: Verifier, r: Request, now: int)
    ensures ReadClaim(v, r, now).Ok? ==> HOST in ReadClaim(v, r, now).value.signed
  {
    hide Get, Ascii, Atoi, SortedSignedHeaders, Split, ParseCredential;
  }

  // And when the extra parameters leave the six names of the scheme alone.
  lemma ShareLinkWorksIff(v: Verifier, link: Link, endpoint: Endpoint, extra: map<Bytes, Bytes>, ps: seq<Param>,
      r: Request, now: int)
    requires Linked(v, link, endpoint, extra, ps, r) && CollisionFree(v.crypto) && Unambiguous(v)
    requires NoLineFeed(link.verb) && LeavesOwn(extra) && PARAM_SIGNATURE !in extra
    ensures Accepts(v, r, now) <==>
      ExpirySeconds(link) >= 1 && InWindow(link, now) && NoClashes(ps) && NoSignatureNames(extra)
  {
    hide ReadClaim, Ascii, OwnValues, SigningKey, Linked, NoClashes, NoSignatureNames, CollisionFree, Accepts,
        Unambiguous, NoLineFeed, ScopeOf, InWindow, Matches, WholeSecond, SameSigner, LeavesOwn;
    AcceptsIff(v, r, now);
    OwnClaim(v, link, endpoint, extra, ps, r, now);
    if ReadClaim(v, r, now).Ok? {
      var c := ReadClaim(v, r, now).value;
      OwnSigner(v, link, endpoint, extra, ps, r, c);
      ClaimedLinkWorksIff(v, link, endpoint, extra, ps, r, c);
    }
  }

  lemma AlgorithmIsUnreserved()
    ensures Encoded(PARAM_ALGORITHM, true) == PARAM_ALGORITHM
  {
    hide Encoded;
    UnreservedText("X-Amz-Algorithm");
  }

  lemma CredentialIsUnreserved()
    ensures Encoded(PARAM_CREDENTIAL, true) == PARAM_CREDENTIAL
  {
    hide Encoded;
    UnreservedText("X-Amz-Credential");
  }

  lemma DateIsUnreserved()
    ensures Encoded(PARAM_DATE, true) == PARAM_DATE
  {
    hide Encoded;
    UnreservedText("X-Amz-Date");
  }

  lemma ExpiresIsUnreserved()
    ensures Encoded(PARAM_EXPIRES, true) == PARAM_EXPIRES
  {
    hide Encoded;
    UnreservedText("X-Amz-Expires");
  }

  lemma SignedHeadersIsUnreserved()
    ensures Encoded(PARAM_SIGNED_HEADERS, true) == PARAM_SIGNED_HEADERS
  {
    hide Encoded;
    UnreservedText("X-Amz-SignedHeaders");
  }

  lemma OwnNameIs(a: Bytes)
    requires a in OWN_NAMES
    ensures |a| > 6 && Encoded(a, true) == a
  {
    hide Ascii, Encoded;
    AlgorithmIsUnreserved();
    CredentialIsUnreserved();
    DateIsUnreserved();
    ExpiresIsUnreserved();
    SignedHeadersIsUnreserved();
  }

  lemma OwnNamesDiffer(a: Bytes, b: Bytes)
    requires a in OWN_NAMES && b in OWN_NAMES && a != b
    ensures |a| > 6 && |b| > 6 && a[6] != b[6]
  {
    NamesDiffer();
    hide Ascii;
  }

  lemma DifferNoClash(a: Bytes, b: Bytes, i: nat)
    requires i < |a| && i < |b| && a[i] != b[i]
    ensures !Clash(a, b) && !Clash(b, a)
  {
  }

  // The scheme's own names never clash, so a plain share link always works.
  lemma PlainLinksNeverClash(clock: Clock, link: Link, ps: seq<Param>)
    requires link.expiry > 0 && Lists(ps, OwnValues(clock, link))
    ensures NoClashes(ps)
  {
    OwnValuesAre(clock, link);
    hide OwnValues, Ascii, Encoded, Clash, Scope.Text, Itoa;
    forall p, q | p in ps && q in ps ensures !Clash(Encoded(p.name, true), Encoded(q.name, true)) {
      assert p.name in OWN_NAMES && q.name in OWN_NAMES;
      OwnNameIs(p.name);
      OwnNameIs(q.name);
      if p.name == q.name {
        NoSelfClash(Encoded(p.name, true));
      } else {
        OwnNamesDiffer(p.name, q.name);
        DifferNoClash(p.name, q.name, 6);
      }
    }
  }

  lemma NoSelfClash(a: Bytes)
    ensures !Clash(a, a)
  {
  }

  lemma PlainWindow(link: Link, now: int)
    requires link.expiry > 0
    ensures ExpirySeconds(link) >= 1 && InWindow(link, now) <==>
      var signedAt := link.now - link.now % SECOND;
      && link.expiry >= SECOND
      && signedAt - 15 * 60 * SECOND <= now <= signedAt + link.expiry - link.expiry % SECOND
  {
  }

  lemma PlainLinkWorks(v: Verifier, link: Link, endpoint: Endpoint, ps: seq<Param>, r: Request, now: int)
    requires Linked(v, link, endpoint, map[], ps, r)
    ensures link.expiry > 0 && (Accepts(v, r, now) <==> ExpirySeconds(link) >= 1 && InWindow(link, now))
  {
    hide Linked, Accepts, OwnValues, Lists, InWindow, ExpirySeconds, Ascii, NoClashes;
    LinkGoes(v, link, endpoint, map[], ps, r);
    assert OwnValues(v.clock, link) + map[] == OwnValues(v.clock, link);
    PlainLinksNeverClash(v.clock, link, ps);
    LinkWorksInItsWindow(v, link, endpoint, map[], ps, r, now);
  }

  // The link the console hands out, which has no extra parameters.
  lemma PlainLinkWorksInItsWindow(v: Verifier, link: Link, endpoint: Endpoint, ps: seq<Param>, r: Request, now: int)
    requires Linked(v, link, endpoint, map[], ps, r)
    ensures Accepts(v, r, now) <==>
      var signedAt := link.now - link.now % SECOND;
      && link.expiry >= SECOND
      && signedAt - 15 * 60 * SECOND <= now <= signedAt + link.expiry - link.expiry % SECOND
  {
    hide Linked, Accepts, InWindow, ExpirySeconds;
    PlainLinkWorks(v, link, endpoint, ps, r, now);
    PlainWindow(link, now);
  }

  // ------------------------------------------------- links that never work

  // An expiry of less than a second is presigned, and then refused at any time.
  lemma SubSecondLinkNeverWorks(v: Verifier, link: Link, endpoint: Endpoint, extra: map<Bytes, Bytes>,
      ps: seq<Param>, r: Request, now: int)
    requires Linked(v, link, endpoint, extra, ps, r) && LeavesOwn(extra) && link.expiry < SECOND
    ensures !Accepts(v, r, now)
  {
    hide Linked, ReadClaim, Matches, Checked, OwnValues, InWindow, ScopeOf, WholeSecond, Ascii, LeavesOwn, Accepts;
    LinkGoes(v, link, endpoint, extra, ps, r);
    OwnClaim(v, link, endpoint, extra, ps, r, now);
    AcceptsIff(v, r, now);
  }

  const NAME_A := Ascii("a")
  const NAME_A_B := Ascii("a-b")
  const LOWER_SIGNATURE := Ascii("x-amz-signature")

  lemma DashedNamesClash()
    ensures Clash(Encoded(NAME_A, true), Encoded(NAME_A_B, true)) && |NAME_A| == 1 && |NAME_A_B| == 3
  {
    UnreservedText("a");
    UnreservedText("a-b");
    hide Encoded;
  }

  lemma {:induction false} FoldsTo(s: Bytes, name: Bytes)
    requires |s| == |name| && forall i :: 0 <= i < |s| ==> LowerByte(s[i]) == LowerByte(name[i])
    ensures EqualFold(s, name)
  {
    if s != [] {
      FoldsTo(s[1..], name[1..]);
    }
  }

  lemma LowerCaseIsSignatureName()
    ensures IsSignatureName(LOWER_SIGNATURE)
  {
    AsciiChars("x-amz-signature");
    AsciiChars("X-Amz-Signature");
    FoldsTo(LOWER_SIGNATURE, PARAM_SIGNATURE);
    hide EqualFold;
  }

  lemma LowerCaseIsOther()
    ensures LOWER_SIGNATURE != PARAM_SIGNATURE
  {
    assert LOWER_SIGNATURE[0] == 0x78 && PARAM_SIGNATURE[0] == 0x58;
  }

  // Two extra parameters named a and a-b: the strings a-b=y and a=x sort one
  // way, the names the other.
  lemma DashedLinkNeverWorks(v: Verifier, link: Link, endpoint: Endpoint, x: Bytes, y: Bytes, ps: seq<Param>,
      r: Request, now: int)
    requires Linked(v, link, endpoint, map[NAME_A := x, NAME_A_B := y], ps, r)
    requires CollisionFree(v.crypto) && Unambiguous(v) && NoLineFeed(link.verb)
    ensures !Accepts(v, r, now)
  {
    var extra := map[NAME_A := x, NAME_A_B := y];
    hide Ascii, Encoded, OwnValues, Clash, Accepts, CollisionFree, Unambiguous, NoLineFeed, Linked, ExpirySeconds,
        InWindow;
    DashedNamesClash();
    SignatureNameIs();
    LinkGoes(v, link, endpoint, extra, ps, r);
    assert forall name :: name in extra ==> |name| <= 3;
    forall a | a in OWN_NAMES ensures a !in extra {
      OwnNameIs(a);
    }
    assert Param(NAME_A, extra[NAME_A]) in ps && Param(NAME_A_B, extra[NAME_A_B]) in ps;
    assert !NoClashes(ps);
    ShareLinkWorksIff(v, link, endpoint, extra, ps, r, now);
  }

  lemma SignatureNameIs()
    ensures |PARAM_SIGNATURE| == 15
  {
  }

  // An extra parameter named x-amz-signature: it is signed, and then left out of
  // the canonical query.
  lemma LowerCaseLinkNeverWorks(v: Verifier, link: Link, endpoint: Endpoint, x: Bytes, ps: seq<Param>,
      r: Request, now: int)
    requires Linked(v, link, endpoint, map[LOWER_SIGNATURE := x], ps, r)
    requires CollisionFree(v.crypto) && Unambiguous(v) && NoLineFeed(link.verb)
    ensures !Accepts(v, r, now)
  {
    var extra := map[LOWER_SIGNATURE := x];
    LowerCaseIsSignatureName();
    LowerCaseIsOther();
    OwnNamesFold();
    hide Ascii, OwnValues, PresignedUrl, Accepts, CollisionFree, Unambiguous, NoLineFeed, IsSignatureName, Linked;
    assert extra.Keys == {LOWER_SIGNATURE};
    assert LOWER_SIGNATURE in extra;
    ShareLinkWorksIff(v, link, endpoint, extra, ps, r, now);
  }

  // ------------------------------------------------- a link cannot be edited

  lemma CanonicalHasNoLineFeed(rawQuery: Bytes)
    ensures NoLineFeed(CanonicalQueryOf(rawQuery, IsSignatureName))
  {
    var ks := Params(rawQuery, IsSignatureName);
    ParamsAreOrdered();
    SortSorts(Mapped(EncodedParam, ks), ParamAtMost);
    MembersHaveNoLineFeed(SortedParams(ks), ks);
  }

  // The same text signed means the same request line.
  lemma SignedMeansSame(v: Verifier, link: Link, endpoint: Endpoint, ps: seq<Param>, r: Request, c: Claim, uri: Bytes)
    requires CollisionFree(v.crypto) && SameSigner(v, link, c)
    requires NoLineFeed(r.verb) && NoLineFeed(link.verb) && NoLineFeed(uri)
    requires Get(r.rawQuery, PARAM_SIGNATURE) == SignatureOf(v, link, endpoint, ps)
    requires Signs(v, r, uri, c.signed, c.signedAt, c.credential.scope, c.secret)
    ensures r.verb == link.verb && uri == PathOf(link)
    ensures CanonicalQueryOf(r.rawQuery, IsSignatureName) == SignedQuery(ps)
    ensures CanonicalHeaders(r.headers, r.host, c.signed) + [LF] + JoinedBy(c.signed, SEMICOLON) + [LF]
              + (if r.declaredHash == [] then UNSIGNED_PAYLOAD else r.declaredHash)
         == CanonicalHeaders((name: Bytes) => [], endpoint.host, [HOST]) + [LF] + JoinedBy([HOST], SEMICOLON) + [LF]
              + UNSIGNED_PAYLOAD
  {
    PathHasNoLineFeed(link);
    CanonicalHasNoLineFeed(r.rawQuery);
    QueriesHaveNoLineFeed(ps);
    hide CanonicalQueryOf, SignedQuery, Get, SigningKey, Sign, Ascii, CanonicalHeaders, JoinedBy,
        PathOf, ScopeOf, Scope.Text;
    var c1 := CanonicalOf(r, uri, c.signed);
    var c2 := CanonicalRequest(link.verb, PathOf(link), SignedQuery(ps), (name: Bytes) => [], endpoint.host, [HOST],
        UNSIGNED_PAYLOAD);
    SameSignatureSameText(v.crypto, SigningKey(v.crypto, link.secret, ScopeOf(v.clock, link)),
                          v.clock.iso8601(link.now), ScopeOf(v.clock, link), c1, c2);
    CanonicalRequestIsInjective(
      r.verb, uri, CanonicalQueryOf(r.rawQuery, IsSignatureName),
      CanonicalHeaders(r.headers, r.host, c.signed) + [LF] + JoinedBy(c.signed, SEMICOLON) + [LF]
        + (if r.declaredHash == [] then UNSIGNED_PAYLOAD else r.declaredHash),
      link.verb, PathOf(link), SignedQuery(ps),
      CanonicalHeaders((name: Bytes) => [], endpoint.host, [HOST]) + [LF] + JoinedBy([HOST], SEMICOLON) + [LF]
          + UNSIGNED_PAYLOAD);
  }

  // Whoever is handed a link can use its signature only to claim to be the one who
  // signed it, at the second it was signed.
  lemma LinkNamesItsSigner(v: Verifier, link: Link, endpoint: Endpoint, ps: seq<Param>, r: Request, c: Claim)
    requires CollisionFree(v.crypto) && Unambiguous(v)
    requires Get(r.rawQuery, PARAM_SIGNATURE) == SignatureOf(v, link, endpoint, ps)
    requires Matches(v, r, c)
    ensures SameSigner(v, link, c)
  {
    hide Get, StringToSign, Sign, SigningKey, Ascii, ScopeOf, CollisionFree, Unambiguous, CanonicalURIs, SameSigner;
    var uris := CanonicalURIs(r.asTransmitted, r.path);
    var i :| 0 <= i < |uris| && Signs(v, r, uris[i], c.signed, c.signedAt, c.credential.scope, c.secret);
    SignatureTells(v, link, c, CanonicalOf(r, uris[i], c.signed),
                   CanonicalRequest(link.verb, PathOf(link), SignedQuery(ps), (name: Bytes) => [], endpoint.host,
                                    [HOST], UNSIGNED_PAYLOAD));
  }

  // Whoever is handed a link can use its signature, under the same key and date,
  // only for the request that was signed: the same verb, the same path, and a
  // query that says the same things.
  lemma LinkCannotBeEdited(v: Verifier, link: Link, endpoint: Endpoint, ps: seq<Param>, r: Request, c: Claim)
    requires CollisionFree(v.crypto) && SameSigner(v, link, c)
    requires NoLineFeed(r.verb) && NoLineFeed(link.verb) && NoLineFeed(r.asTransmitted)
    requires Get(r.rawQuery, PARAM_SIGNATURE) == SignatureOf(v, link, endpoint, ps)
    requires Matches(v, r, c)
    ensures r.verb == link.verb && PathOf(link) in CanonicalURIs(r.asTransmitted, r.path)
    ensures Decoded(r.asTransmitted) == Some(r.path) ==> r.path == [SLASH] + link.bucket + [SLASH] + link.key
    ensures NoClashes(ps) && multiset(Params(r.rawQuery, IsSignatureName)) == multiset(ps)
  {
    hide Signs, Get, SignatureOf, CollisionFree, ScopeOf, PathOf, CanonicalURIs, Ascii, NoLineFeed, CanonicalQueryOf,
        SignedQuery;
    var uri := SomeReadingSigns(v, r, c);
    SignedMeansSame(v, link, endpoint, ps, r, c, uri);
    CanonicalIsSorted(r.rawQuery);
    SameRenderSameParams(Params(r.rawQuery, IsSignatureName), ps);
    hide Decoded, Params, NoClashes, Matches;
    if Decoded(r.asTransmitted) == Some(r.path) {
      ReadingsDecode(link, r.asTransmitted, r.path);
    }
  }

  // A path that reads as a link's is the object's the link was made for.
  lemma ReadingsDecode(link: Link, asTransmitted: Bytes, path: Bytes)
    requires PathOf(link) in CanonicalURIs(asTransmitted, path) && Decoded(asTransmitted) == Some(path)
    ensures path == ObjectPath(link.bucket, link.key)
  {
    PathDecodes(link);
    DecodeEncoded(path, false);
    assert |PathOf(link)| >= 2;
    hide Encoded, PathOf, Decoded;
    if path == [] {
      assert CanonicalURIs(asTransmitted, path)[0] == [SLASH];
    }
  }

  // And only at the host it was made for, signing nothing else and declaring no
  // other payload, where headers are lines.
  lemma LinkIsForItsHost(v: Verifier, link: Link, endpoint: Endpoint, ps: seq<Param>, r: Request, c: Claim)
    requires CollisionFree(v.crypto) && SameSigner(v, link, c)
    requires NoLineFeed(r.verb) && NoLineFeed(link.verb) && NoLineFeed(r.asTransmitted)
    requires SignableHeaders(r.headers, r.host, c.signed) && NoLineFeed(HeaderValue(endpoint.host))
    requires Get(r.rawQuery, PARAM_SIGNATURE) == SignatureOf(v, link, endpoint, ps)
    requires Matches(v, r, c)
    ensures c.signed == [HOST] && HeaderValue(r.host) == HeaderValue(endpoint.host)
    ensures r.declaredHash == [] || r.declaredHash == UNSIGNED_PAYLOAD
  {
    HostIsSignable(endpoint.host);
    hide Signs, Get, SignatureOf, CollisionFree, ScopeOf, PathOf, CanonicalURIs, Ascii, NoLineFeed, CanonicalQueryOf,
        SignedQuery, SignableHeaders, HeaderValue, CanonicalHeaders, JoinedBy;
    var uri := SomeReadingSigns(v, r, c);
    SignedMeansSame(v, link, endpoint, ps, r, c, uri);
    var none := (name: Bytes) => [];
    var hash := if r.declaredHash == [] then UNSIGNED_PAYLOAD else r.declaredHash;
    SameHeaderBlock(r.headers, r.host, c.signed, hash, none, endpoint.host, [HOST], UNSIGNED_PAYLOAD);
    assert HOST in c.signed;
  }

  // The end of a canonical request fixes the signed headers and the payload.
  lemma SameHeaderBlock(h1: Headers, host1: Bytes, s1: seq<Bytes>, hash1: Bytes, h2: Headers, host2: Bytes,
      s2: seq<Bytes>, hash2: Bytes)
    requires SignableHeaders(h1, host1, s1) && SignableHeaders(h2, host2, s2)
    requires CanonicalHeaders(h1, host1, s1) + [LF] + JoinedBy(s1, SEMICOLON) + [LF] + hash1
          == CanonicalHeaders(h2, host2, s2) + [LF] + JoinedBy(s2, SEMICOLON) + [LF] + hash2
    ensures s1 == s2 && hash1 == hash2
    ensures forall name :: name in s1 ==> SameHeader(h1, host1, h2, host2, name)
  {
    hide SignableHeaders, CanonicalHeaders, JoinedBy, SameHeader;
    var j1, j2 := JoinedBy(s1, SEMICOLON) + [LF], JoinedBy(s2, SEMICOLON) + [LF];
    assert CanonicalHeaders(h1, host1, s1) + [LF] + JoinedBy(s1, SEMICOLON) + [LF] + hash1
        == CanonicalHeaders(h1, host1, s1) + [LF] + (j1 + hash1);
    assert CanonicalHeaders(h2, host2, s2) + [LF] + JoinedBy(s2, SEMICOLON) + [LF] + hash2
        == CanonicalHeaders(h2, host2, s2) + [LF] + (j2 + hash2);
    HeadersAreSigned(h1, host1, s1, j1 + hash1, h2, host2, s2, j2 + hash2);
    assert hash1 == (j1 + hash1)[|j1|..] && hash2 == (j2 + hash2)[|j2|..];
  }

  lemma HostIsHeaderName()
    ensures HeaderName(HOST)
  {
    AsciiChars("host");
    hide Ascii;
  }

  lemma HostIsSignable(host: Bytes)
    requires NoLineFeed(HeaderValue(host))
    ensures SignableHeaders((name: Bytes) => [], host, [HOST])
  {
    HostIsHeaderName();
    hide HeaderValue, Ascii, JoinedBy, HeaderName, NoLineFeed;
    var none := (name: Bytes) => [];
    forall name | name in [HOST] ensures HeaderName(name) && OneLineValues(none, host, name) {
      assert name == HOST;
    }
  }

  lemma SomeReadingSigns(v: Verifier, r: Request, c: Claim) returns (uri: Bytes)
    requires NoLineFeed(r.asTransmitted) && Matches(v, r, c)
    ensures uri in CanonicalURIs(r.asTransmitted, r.path) && NoLineFeed(uri)
    ensures Signs(v, r, uri, c.signed, c.signedAt, c.credential.scope, c.secret)
  {
    hide Signs;
    var uris := CanonicalURIs(r.asTransmitted, r.path);
    var i :| 0 <= i < |uris| && Signs(v, r, uris[i], c.signed, c.signedAt, c.credential.scope, c.secret);
    EncodedHasNoLineFeed(r.path, false);
    uri := uris[i];
  }

  lemma CanonicalIsSorted(rawQuery: Bytes)
    ensures CanonicalQueryOf(rawQuery, IsSignatureName) == Render(SortedParams(Params(rawQuery, IsSignatureName)))
  {
    hide Sort, Params, Render;
  }

  // A list that renders, sorted, to the query Presign signs is the same list up
  // to order, and the names in it do not clash.
  lemma SameRenderSameParams(ks: seq<Param>, ps: seq<Param>)
    requires Render(SortedParams(ks)) == SignedQuery(ps)
    ensures NoClashes(ps) && multiset(ks) == multiset(ps)
  {
    hide SortedParams, SignedQuery, Encoded, NoClashes, ByPair;
    ByPairKeeps(ps);
    ByPairIsEncoded(ps);
    SortedParamsDecode(ks);
    RenderInjective(SortedParams(ks), ByPair(ps));
    SortedIsOrdered(ks);
    OrdersAgreeIff(ps);
  }

  lemma SortedIsOrdered(ks: seq<Param>)
    ensures Ordered(SortedParams(ks), ParamAtMost)
  {
    ParamsAreOrdered();
    SortSorts(Mapped(EncodedParam, ks), ParamAtMost);
  }
}
