// ListObjects and ListObjectsV2 as a client meets them: what a request asks for,
// what a response says, and what a client that goes on asking gets to see.
module ListingApi {
  import opened Outcomes
  import opened Bytes
  import opened Text
  import opened Encoding
  import opened Listing
  import opened ListScan
  import opened ListingPages
  import opened ScopedListing
  import opened ContinuationTokens

  datatype ListRequest = ListRequest(
    isV2: bool, prefix: Bytes, delimiter: Bytes, maxKeys: Bytes,
    token: Bytes, startAfter: Bytes, marker: Bytes, encodeURL: bool)

  datatype ListResponse = ListResponse(
    prefix: Bytes, delimiter: Bytes, maxKeys: int, contents: seq<Bytes>, commonPrefixes: seq<Bytes>, keyCount: nat,
    isTruncated: bool, token: Bytes, startAfter: Bytes, marker: Bytes, nextToken: Bytes, nextMarker: Bytes)

  datatype ListError = BadMaxKeys | BadToken

  // More than a page holds is taken for a page.
  function ParseMaxKeys(raw: Bytes): Option<int> {
    if raw == [] then Some(MAX_MAX_KEYS) else
    match Atoi(raw)
    case None => None
    case Some(n) => if n < 0 then None else if n > MAX_MAX_KEYS then Some(MAX_MAX_KEYS) else Some(n)
  }

  // A token, where there is one, counts before start-after.
  function StartOf(r: ListRequest): Option<Bytes> {
    if !r.isV2 then Some(r.marker)
    else if r.token == [] then Some(r.startAfter)
    else DecodeToken(r.token)
  }

  function Spelled(r: ListRequest, s: Bytes): Bytes {
    if r.encodeURL then Encoded(s, true) else s
  }

  function AllSpelled(r: ListRequest, names: seq<Bytes>): seq<Bytes> {
    Mapped(s => Spelled(r, s), names)
  }

  function Respond(r: ListRequest, maxKeys: int, page: ListResult): ListResponse {
    ListResponse(
      Spelled(r, r.prefix), Spelled(r, r.delimiter), maxKeys,
      AllSpelled(r, page.objects), AllSpelled(r, page.commonPrefixes), Size(page), page.isTruncated,
      if r.isV2 then r.token else [], if r.isV2 then Spelled(r, r.startAfter) else [],
      if r.isV2 then [] else Spelled(r, r.marker),
      if r.isV2 && page.isTruncated then EncodeToken(page.nextStartAfter) else [],
      if !r.isV2 && page.isTruncated then Spelled(r, page.nextStartAfter) else [])
  }

  // What a caller so limited is answered.
  function Answer(limit: ListingLimit, rows: seq<Bytes>, r: ListRequest): Result<ListResponse, ListError> {
    match ParseMaxKeys(r.maxKeys)
    case None => Err(BadMaxKeys)
    case Some(maxKeys) =>
      match StartOf(r)
      case None => Err(BadToken)
      case Some(start) =>
        Ok(Respond(r, maxKeys,
                   ScopedPage(limit, PageFor(rows, Query(limit.Narrow(r.prefix), r.delimiter), start, maxKeys))))
  }

  // The start a request names: a V1 marker; for V2 the cursor of its token,
  // whatever start-after says, and start-after where it has no token.
  predicate StartsAt(r: ListRequest, start: Bytes) {
    if !r.isV2 then start == r.marker
    else if r.token == [] then start == r.startAfter
    else DecodeToken(r.token) == Some(start)
  }

  lemma StartIs(r: ListRequest, start: Bytes)
    ensures StartsAt(r, start) <==> StartOf(r) == Some(start)
    ensures r.isV2 && start != [] && r.token == EncodeToken(start) ==> StartsAt(r, start)
  {
    TokenRoundTrip(start);
    hide DecodeToken, EncodeToken;
  }

  // All that is listed lies in the bucket past the start, has the prefix asked
  // for, and may be read by the caller.
  ghost predicate OnlyExpected(grant: Option<Grant>, bucket: Bytes, rows: seq<Bytes>, r: ListRequest, start: Bytes,
      response: ListResponse) {
    && (forall c :: c in response.contents ==> Expected(grant, bucket, rows, r.prefix, start, Understood(r, c)))
    && forall c :: c in response.commonPrefixes ==>
      && (exists key :: HasPrefix(key, Understood(r, c)) && MayRead(grant, bucket, key))
      && exists key ::
        HasPrefix(key, Understood(r, c)) && key in rows && Less(start, key) && HasPrefix(key, r.prefix)
  }

  lemma NarrowExtends(limit: ListingLimit, requested: Bytes)
    ensures HasPrefix(limit.Narrow(requested), requested)
  {
  }

  lemma PrefixOfPrefix(a: Bytes, b: Bytes, c: Bytes)
    requires HasPrefix(a, b) && HasPrefix(b, c)
    ensures HasPrefix(a, c)
  {
    assert c == b[..|c|] == a[..|c|];
  }

  lemma AnswerLists(grant: Option<Grant>, bucket: Bytes, limit: ListingLimit, rows: seq<Bytes>, r: ListRequest,
      start: Bytes)
    requires Sorted(rows) && LimitFor(grant, bucket, limit) && StartOf(r) == Some(start)
    ensures Answer(limit, rows, r).Ok? ==> OnlyExpected(grant, bucket, rows, r, start, Answer(limit, rows, r).value)
  {
    hide StartOf, ParseMaxKeys, Sorted, LimitFor, Page, InPrefix, ListingLimit.AllowsKey,
        ListingLimit.AllowsCommonPrefix, ListingLimit.Narrow, Understood, Spelled, EffectiveMaxKeys, MayRead, Less;
    var maxKeys := ParseMaxKeys(r.maxKeys);
    if maxKeys.Some? {
      var q := Query(limit.Narrow(r.prefix), r.delimiter);
      var page := PageFor(rows, q, start, maxKeys.value);
      var response := Answer(limit, rows, r).value;
      AnswerIs(limit, rows, r, maxKeys.value, start);
      PageHolds(rows, q, start, EffectiveMaxKeys(maxKeys.value));
      NarrowExtends(limit, r.prefix);
      ResponseIsUnderstood(r, maxKeys.value, ScopedPage(limit, page));
      assert response == Respond(r, maxKeys.value, ScopedPage(limit, page));
      hide Answer, Respond;
      forall c | c in response.contents ensures Expected(grant, bucket, rows, r.prefix, start, Understood(r, c)) {
        var key := Understood(r, c);
        UnderstoodIsIn(r, response.contents, c);
        ShownMembers(limit, page.objects, key);
        LimitIsGrant(grant, bucket, limit, key);
        PrefixOfPrefix(key, q.prefix, r.prefix);
      }
      forall c | c in response.commonPrefixes
        ensures exists key :: HasPrefix(key, Understood(r, c)) && MayRead(grant, bucket, key)
        ensures exists key ::
          HasPrefix(key, Understood(r, c)) && key in rows && Less(start, key) && HasPrefix(key, r.prefix)
      {
        var common := Understood(r, c);
        UnderstoodIsIn(r, response.commonPrefixes, c);
        ShownPrefixMembers(limit, page.commonPrefixes, common);
        FolderIsShownIff(limit, common);
        var readable :| HasPrefix(readable, common) && limit.AllowsKey(readable);
        LimitIsGrant(grant, bucket, limit, readable);
        var key :| key in rows && Less(start, key) && HasPrefix(key, common);
        PrefixOfPrefix(common, q.prefix, r.prefix);
        PrefixOfPrefix(key, common, r.prefix);
      }
    }
  }

  lemma UnderstoodIsIn(r: ListRequest, names: seq<Bytes>, c: Bytes)
    requires c in names
    ensures Understood(r, c) in AllUnderstood(r, names)
  {
    var i :| 0 <= i < |names| && names[i] == c;
    assert AllUnderstood(r, names)[i] == Understood(r, c);
  }

  // What a response says of the request, and of itself.
  predicate Echoes(r: ListRequest, response: ListResponse) {
    && Understood(r, response.prefix) == r.prefix && Understood(r, response.delimiter) == r.delimiter
    && response.maxKeys == (if r.maxKeys == [] then 1000
                            else match Atoi(r.maxKeys) case None => -1 case Some(n) => if n > 1000 then 1000 else n)
    && response.keyCount == |response.contents| + |response.commonPrefixes|
    && (response.maxKeys >= 1 ==> response.keyCount <= response.maxKeys)
    && response.token == (if r.isV2 then r.token else [])
    && Understood(r, response.startAfter) == (if r.isV2 then r.startAfter else [])
    && Understood(r, response.marker) == (if r.isV2 then [] else r.marker)
    && (response.nextToken != [] <==> r.isV2 && response.isTruncated)
    && (response.nextMarker != [] <==> !r.isV2 && response.isTruncated)
  }

  lemma AnswerEchoes(limit: ListingLimit, rows: seq<Bytes>, r: ListRequest)
    requires Sorted(rows)
    ensures Answer(limit, rows, r).Ok? ==> Echoes(r, Answer(limit, rows, r).value)
  {
    hide Sorted, Page, InPrefix, Shown, ShownPrefixes, AllSpelled, Atoi, ListingLimit.Narrow, Spelled, Understood,
        EncodeToken, DecodeToken, EffectiveMaxKeys;
    var maxKeys, start := ParseMaxKeys(r.maxKeys), StartOf(r);
    if maxKeys.Some? && start.Some? {
      var q := Query(limit.Narrow(r.prefix), r.delimiter);
      var n := EffectiveMaxKeys(maxKeys.value);
      var all := InPrefix(rows, q.prefix);
      var whole := Page(all, start.value, q, n);
      var page := ScopedPage(limit, whole);
      InPrefixSorted(rows, q);
      ScopedPageEnds(limit, all, start.value, q, n);
      PageSize(all, start.value, q, n);
      ShownIsShorter(limit, whole.objects, whole.commonPrefixes);
      SpelledSize(r, page.objects);
      SpelledSize(r, page.commonPrefixes);
      SpellingIsUnderstood(r, r.prefix);
      SpellingIsUnderstood(r, r.delimiter);
      SpellingIsUnderstood(r, r.startAfter);
      SpellingIsUnderstood(r, r.marker);
      SpelledIsEmptyIff(r, page.nextStartAfter);
      SpelledIsEmptyIff(r, []);
      SpellingIsUnderstood(r, []);
      TokenRoundTrip(page.nextStartAfter);
    }
  }

  lemma SpelledIsEmptyIff(r: ListRequest, s: Bytes)
    ensures Spelled(r, s) == [] <==> s == []
  {
  }

  lemma {:induction false} ShownIsShorter(limit: ListingLimit, keys: seq<Bytes>, commons: seq<Bytes>)
    ensures |Shown(limit, keys)| <= |keys| && |ShownPrefixes(limit, commons)| <= |commons|
    decreases |keys| + |commons|
  {
    if keys != [] {
      ShownIsShorter(limit, keys[1..], commons);
    } else if commons != [] {
      ShownIsShorter(limit, keys, commons[1..]);
    }
  }

  method Spell(r: ListRequest, s: Bytes) returns (spelled: Bytes)
    ensures spelled == Spelled(r, s)
  {
    if r.encodeURL {
      spelled := UriEncode(s, true);
    } else {
      spelled := s;
    }
  }

  method HandleListObjects(grant: Option<Grant>, bucket: Bytes, rows: seq<Bytes>, r: ListRequest)
    returns (response: Result<ListResponse, ListError>)
    requires Sorted(rows)
    ensures exists limit :: LimitFor(grant, bucket, limit) && response == Answer(limit, rows, r)
    ensures response == Err(BadMaxKeys) <==> r.maxKeys != [] && (Atoi(r.maxKeys).None? || Atoi(r.maxKeys).value < 0)
    ensures response == Err(BadToken) ==> r.isV2 && r.token != [] && DecodeToken(r.token).None?
    ensures response.Ok? && !r.isV2 ==> OnlyExpected(grant, bucket, rows, r, r.marker, response.value)
    ensures response.Ok? && r.isV2 && r.token == [] ==>
      OnlyExpected(grant, bucket, rows, r, r.startAfter, response.value)
    ensures response.Ok? && r.isV2 && r.token != [] ==>
      DecodeToken(r.token).Some? && OnlyExpected(grant, bucket, rows, r, DecodeToken(r.token).value, response.value)
    ensures response.Ok? ==> forall c ::
      r.isV2 && c != [] && r.token == EncodeToken(c) ==> OnlyExpected(grant, bucket, rows, r, c, response.value)
    ensures response.Ok? ==> Echoes(r, response.value)
  {
    hide LimitFor, Page, InPrefix, Sorted, Tidy, Encoded, Size, Shown, ShownPrefixes, AllSpelled;
    hide ListingLimit.AllowsKey, ListingLimit.AllowsCommonPrefix, EncodeToken, DecodeToken, Atoi, Spelled, OnlyExpected,
        Echoes;
    var limit := ListingLimitFor(grant, bucket);
    var maxKeys := ParseMaxKeys(r.maxKeys);
    if maxKeys.None? {
      return Err(BadMaxKeys);
    }
    var start := StartOf(r);
    if start.None? {
      return Err(BadToken);
    }
    var result, _ := ListObjects(rows, Query(limit.Narrow(r.prefix), r.delimiter), start.value, maxKeys.value);
    var contents := ShowKeys(limit, r, result.objects);
    var commonPrefixes := ShowPrefixes(limit, r, result.commonPrefixes);
    ghost var page := ScopedPage(limit, result);
    SpelledSize(r, page.objects);
    SpelledSize(r, page.commonPrefixes);
    assert Size(page) == |contents| + |commonPrefixes| by {
      SizeIs(page);
    }
    var prefix := Spell(r, r.prefix);
    var delimiter := Spell(r, r.delimiter);
    var startAfter, marker, nextToken, nextMarker := [], [], [], [];
    if r.isV2 {
      startAfter := Spell(r, r.startAfter);
      if result.isTruncated {
        nextToken := EncodeToken(result.nextStartAfter);
      }
    } else {
      marker := Spell(r, r.marker);
      if result.isTruncated {
        nextMarker := Spell(r, result.nextStartAfter);
      }
    }
    response := Ok(ListResponse(prefix, delimiter, maxKeys.value, contents, commonPrefixes,
                                |contents| + |commonPrefixes|, result.isTruncated,
                                if r.isV2 then r.token else [], startAfter, marker, nextToken, nextMarker));
    assert response == Answer(limit, rows, r);
    hide Answer;
    AnswerLists(grant, bucket, limit, rows, r, start.value);
    AnswerEchoes(limit, rows, r);
    forall c | c != [] && r.isV2 && r.token == EncodeToken(c) ensures start.value == c {
      StartIs(r, c);
    }
  }

  lemma SpelledSize(r: ListRequest, names: seq<Bytes>)
    ensures |AllSpelled(r, names)| == |names|
  {
  }

  lemma SizeIs(page: ListResult)
    ensures Size(page) == |page.objects| + |page.commonPrefixes|
  {
  }

  // The keys of a page that the caller may see, as the response spells them.
  method ShowKeys(limit: ListingLimit, r: ListRequest, keys: seq<Bytes>) returns (contents: seq<Bytes>)
    ensures contents == AllSpelled(r, Shown(limit, keys))
  {
    hide ListingLimit.AllowsKey, Spelled;
    contents := [];
    for i := 0 to |keys|
      invariant contents + AllSpelled(r, Shown(limit, keys[i..])) == AllSpelled(r, Shown(limit, keys))
    {
      assert keys[i..][1..] == keys[i + 1..];
      if !limit.AllowsKey(keys[i]) {
        continue;
      }
      SpelledCons(r, keys[i], Shown(limit, keys[i + 1..]));
      var spelled := Spell(r, keys[i]);
      contents := contents + [spelled];
    }
    assert AllSpelled(r, []) == [] && contents + [] == contents;
  }

  method ShowPrefixes(limit: ListingLimit, r: ListRequest, commons: seq<Bytes>) returns (shown: seq<Bytes>)
    ensures shown == AllSpelled(r, ShownPrefixes(limit, commons))
  {
    hide ListingLimit.AllowsCommonPrefix, Spelled;
    shown := [];
    for i := 0 to |commons|
      invariant shown + AllSpelled(r, ShownPrefixes(limit, commons[i..]))
             == AllSpelled(r, ShownPrefixes(limit, commons))
    {
      assert commons[i..][1..] == commons[i + 1..];
      if !limit.AllowsCommonPrefix(commons[i]) {
        continue;
      }
      SpelledCons(r, commons[i], ShownPrefixes(limit, commons[i + 1..]));
      var spelled := Spell(r, commons[i]);
      shown := shown + [spelled];
    }
    assert AllSpelled(r, []) == [] && shown + [] == shown;
  }

  lemma SpelledCons(r: ListRequest, name: Bytes, rest: seq<Bytes>)
    ensures AllSpelled(r, [name] + rest) == [Spelled(r, name)] + AllSpelled(r, rest)
  {
  }

  // ---------------------------------------------------------- the client's side

  // A client that asked for URL encoding decodes what it is sent.
  function Understood(r: ListRequest, s: Bytes): Bytes {
    if r.encodeURL then DecodedOrRaw(s) else s
  }

  function AllUnderstood(r: ListRequest, names: seq<Bytes>): seq<Bytes> {
    Mapped(s => Understood(r, s), names)
  }

  function NextRequest(r: ListRequest, response: ListResponse): ListRequest {
    if r.isV2 then r.(token := response.nextToken) else r.(marker := Understood(r, response.nextMarker))
  }

  lemma SpellingIsUnderstood(r: ListRequest, s: Bytes)
    ensures Understood(r, Spelled(r, s)) == s
  {
    DecodeEncoded(s, true);
  }

  lemma NamesAreUnderstood(r: ListRequest, names: seq<Bytes>)
    ensures AllUnderstood(r, AllSpelled(r, names)) == names
  {
    forall i | 0 <= i < |names| ensures AllUnderstood(r, AllSpelled(r, names))[i] == names[i] {
      SpellingIsUnderstood(r, names[i]);
    }
  }

  // A token stands in a query as it is.
  lemma TokenNeedsNoEscape(cursor: Bytes)
    ensures Encoded(EncodeToken(cursor), true) == EncodeToken(cursor)
  {
    var token := EncodeToken(cursor);
    forall i | 0 <= i < |token| ensures IsUnreserved(token[i]) {
      DigitIsUnreserved(Sextets(cursor)[i]);
    }
    UnreservedIsEncoded(token);
  }

  lemma DigitIsUnreserved(v: sextet)
    ensures IsUnreserved(Digit(v))
  {
  }

  // Where a page ends is past where it began, so its cursor is never empty.
  lemma CursorIsNotEmpty(all: seq<Bytes>, startAfter: Bytes, q: Query, n: nat)
    requires Sorted(all) && q.Keys(all) && n >= 1 && Page(all, startAfter, q, n).isTruncated
    ensures Page(all, startAfter, q, n).nextStartAfter != []
  {
    hide Sorted, Query.Keys, Walk, Position;
    EntriesAreTheListing(all, startAfter, q);
    var es := First(Entries(all, startAfter, q), n);
    var e := es[n - 1];
    assert e == Entries(all, startAfter, q)[n - 1] && e in Entries(all, startAfter, q);
    var k :| k in all && Less(startAfter, k) && q.EntryOf(k) == e;
    assert k != [];
  }

  // The request after a truncated page starts where that page left off: a token
  // is decoded to the cursor, a marker is the cursor, however it was spelled.
  lemma NextRequestResumes(r: ListRequest, maxKeys: int, page: ListResult)
    requires page.isTruncated && page.nextStartAfter != []
    ensures StartOf(NextRequest(r, Respond(r, maxKeys, page))) == Some(page.nextStartAfter)
  {
    hide Size, AllSpelled;
    TokenRoundTrip(page.nextStartAfter);
    SpellingIsUnderstood(r, page.nextStartAfter);
  }

  // The client's view: every response's names as it understands them, and
  // whether it came to the end.
  function Browse(limit: ListingLimit, rows: seq<Bytes>, r: ListRequest, steps: nat): Merged
    decreases steps
  {
    if steps == 0 then Merged([], [], false) else
    match Answer(limit, rows, r)
    case Err(_) => Merged([], [], false)
    case Ok(response) =>
      var objects := AllUnderstood(r, response.contents);
      var commons := AllUnderstood(r, response.commonPrefixes);
      if !response.isTruncated then Merged(objects, commons, true) else
      var rest := Browse(limit, rows, NextRequest(r, response), steps - 1);
      Merged(objects + rest.objects, commons + rest.commonPrefixes, rest.finished)
  }

  lemma AnswerIs(limit: ListingLimit, rows: seq<Bytes>, r: ListRequest, maxKeys: int, start: Bytes)
    requires ParseMaxKeys(r.maxKeys) == Some(maxKeys) && StartOf(r) == Some(start)
    ensures
      var q := Query(limit.Narrow(r.prefix), r.delimiter);
      var page := ScopedPage(limit, Page(InPrefix(rows, q.prefix), start, q, EffectiveMaxKeys(maxKeys)));
      Answer(limit, rows, r) == Ok(Respond(r, maxKeys, page))
  {
    hide ParseMaxKeys, StartOf, Respond, Page, ScopedPage, InPrefix;
  }

  // Tokens or markers, encoded or not: a client sees the pages themselves.
  lemma {:induction false} BrowsingFollowsThePages(limit: ListingLimit, rows: seq<Bytes>, r: ListRequest, maxKeys: int,
      start: Bytes, steps: nat)
    requires Sorted(rows) && ParseMaxKeys(r.maxKeys) == Some(maxKeys) && StartsAt(r, start)
    ensures
      var q := Query(limit.Narrow(r.prefix), r.delimiter);
      Browse(limit, rows, r, steps)
      == FollowScoped(limit, InPrefix(rows, q.prefix), start, q, EffectiveMaxKeys(maxKeys), steps)
    decreases steps
  {
    hide Page, InPrefix, Sorted, StartOf, StartsAt, ParseMaxKeys, AllUnderstood, AllSpelled, Shown, ShownPrefixes,
        Query.Keys, EffectiveMaxKeys, Respond, ScopedPage, Answer, ListingLimit.Narrow;
    StartIs(r, start);
    if steps > 0 {
      var q := Query(limit.Narrow(r.prefix), r.delimiter);
      var all, n := InPrefix(rows, q.prefix), EffectiveMaxKeys(maxKeys);
      InPrefixSorted(rows, q);
      AnswerIs(limit, rows, r, maxKeys, start);
      var page := ScopedPage(limit, Page(all, start, q, n));
      var response := Respond(r, maxKeys, page);
      ResponseIsUnderstood(r, maxKeys, page);
      if page.isTruncated {
        ScopedPageEnds(limit, all, start, q, n);
        NextRequestResumes(r, maxKeys, page);
        StartIs(NextRequest(r, response), page.nextStartAfter);
        BrowsingFollowsThePages(limit, rows, NextRequest(r, response), maxKeys, page.nextStartAfter, steps - 1);
      }
    }
  }

  lemma ResponseIsUnderstood(r: ListRequest, maxKeys: int, page: ListResult)
    ensures
      var response := Respond(r, maxKeys, page);
      && AllUnderstood(r, response.contents) == page.objects
      && AllUnderstood(r, response.commonPrefixes) == page.commonPrefixes
      && response.isTruncated == page.isTruncated
  {
    hide AllUnderstood, AllSpelled, Size, Spelled;
    NamesAreUnderstood(r, page.objects);
    NamesAreUnderstood(r, page.commonPrefixes);
  }

  lemma ScopedPageEnds(limit: ListingLimit, all: seq<Bytes>, start: Bytes, q: Query, n: nat)
    requires Sorted(all) && q.Keys(all) && n >= 1
    ensures ScopedPage(limit, Page(all, start, q, n)).isTruncated ==>
      ScopedPage(limit, Page(all, start, q, n)).nextStartAfter != []
  {
    hide Page, Sorted, Query.Keys, Shown, ShownPrefixes;
    if Page(all, start, q, n).isTruncated {
      CursorIsNotEmpty(all, start, q, n);
    }
  }

  // Whatever version of the call a client speaks, whatever page size it asks for
  // and however it has names spelled, it ends up with exactly the keys that have
  // the prefix it asked for and that its grant allows it to read, in order.
  lemma ClientsSeeTheirGrant(grant: Option<Grant>, bucket: Bytes, limit: ListingLimit, rows: seq<Bytes>,
      r: ListRequest, maxKeys: int, start: Bytes, steps: nat)
    requires Sorted(rows) && LimitFor(grant, bucket, limit) && r.delimiter == []
    requires ParseMaxKeys(r.maxKeys) == Some(maxKeys) && StartsAt(r, start)
    requires Bounded(r.prefix) && Bounded(limit.Narrow(r.prefix)) && steps > |rows|
    ensures
      var seen := Browse(limit, rows, r, steps);
      && seen.finished && Sorted(seen.objects)
      && forall key :: key in seen.objects <==> Expected(grant, bucket, rows, r.prefix, start, key)
  {
    hide Browse, Sorted, LimitFor, ParseMaxKeys, StartsAt, Bounded, Expected, FollowScoped, InPrefix, EffectiveMaxKeys;
    BrowsingFollowsThePages(limit, rows, r, maxKeys, start, steps);
    ScopedListingIsTheGrant(grant, bucket, limit, rows, r.prefix, start, EffectiveMaxKeys(maxKeys), steps);
  }
}
