// What a scoped access key sees in a listing: a narrowed scan and a filter on
// each page, against what its grant allows key by key.
module ScopedListing {
  import opened Outcomes
  import opened Bytes
  import opened Listing
  import opened ListScan
  import opened ListingPages

  datatype Permission = Read | Write | Delete

  datatype GrantRule = GrantRule(bucket: Bytes, prefix: Bytes, permissions: seq<Permission>) {
    predicate Grants(perm: Permission) {
      perm in permissions
    }

    predicate Covers(key: Bytes) {
      HasPrefix(key, prefix)
    }
  }

  datatype Grant = Grant(unrestricted: bool, rules: seq<GrantRule>) {
    predicate Allows(bucket: Bytes, key: Bytes, perm: Permission) {
      unrestricted || exists i ::
        0 <= i < |rules| && rules[i].bucket == bucket && rules[i].Covers(key) && rules[i].Grants(perm)
    }

    predicate AllowsAnywhereIn(bucket: Bytes, perm: Permission) {
      unrestricted || exists i :: 0 <= i < |rules| && rules[i].bucket == bucket && rules[i].Grants(perm)
    }

    predicate AllowsWholeBucket(bucket: Bytes, perm: Permission) {
      unrestricted || exists i ::
        0 <= i < |rules| && rules[i].bucket == bucket && rules[i].prefix == [] && rules[i].Grants(perm)
    }

    // The prefix of a rule that lets the key read some of the bucket.
    predicate Readable(bucket: Bytes, prefix: Bytes) {
      exists i :: 0 <= i < |rules| && rules[i].bucket == bucket && rules[i].prefix == prefix && rules[i].Grants(Read)
    }
  }

  // A whole-bucket permission is one that holds of every key there could be.
  lemma WholeBucketMeansEveryKey(g: Grant, bucket: Bytes, perm: Permission)
    ensures g.AllowsWholeBucket(bucket, perm) <==> forall key :: g.Allows(bucket, key, perm)
    ensures g.AllowsAnywhereIn(bucket, perm) <==> exists key :: g.Allows(bucket, key, perm)
  {
    if g.AllowsWholeBucket(bucket, perm) {
      forall key ensures g.Allows(bucket, key, perm) {
        if !g.unrestricted {
          var i :| 0 <= i < |g.rules| && g.rules[i].bucket == bucket && g.rules[i].prefix == []
                   && g.rules[i].Grants(perm);
          assert g.rules[i].Covers(key);
        }
      }
    } else {
      assert !g.Allows(bucket, [], perm);
    }
    if g.AllowsAnywhereIn(bucket, perm) && !g.unrestricted {
      var i :| 0 <= i < |g.rules| && g.rules[i].bucket == bucket && g.rules[i].Grants(perm);
      assert g.rules[i].Covers(g.rules[i].prefix);
      assert g.Allows(bucket, g.rules[i].prefix, perm);
    }
    if g.unrestricted {
      assert g.Allows(bucket, [], perm);
    }
  }

  // None where the whole bucket is readable; otherwise each readable prefix.
  ghost predicate AreReadable(g: Grant, bucket: Bytes, prefixes: Option<seq<Bytes>>) {
    match prefixes
    case None => g.unrestricted || g.Readable(bucket, [])
    case Some(ps) => !g.unrestricted && [] !in ps && forall p :: p in ps <==> g.Readable(bucket, p)
  }

  method ReadablePrefixes(g: Grant, bucket: Bytes) returns (r: Option<seq<Bytes>>)
    ensures AreReadable(g, bucket, r)
    ensures r.Some? ==> forall i, j :: 0 <= i < j < |r.value| ==> r.value[i] != r.value[j]
  {
    if g.unrestricted {
      return None;
    }
    var prefixes: seq<Bytes> := [];
    for i := 0 to |g.rules|
      invariant [] !in prefixes
      invariant forall p :: p in prefixes <==>
        exists j :: 0 <= j < i && g.rules[j].bucket == bucket && g.rules[j].prefix == p && g.rules[j].Grants(Read)
      invariant forall j, k :: 0 <= j < k < |prefixes| ==> prefixes[j] != prefixes[k]
    {
      var rule := g.rules[i];
      if rule.bucket != bucket || !rule.Grants(Read) {
        continue;
      }
      if rule.prefix == [] {
        return None;
      }
      if rule.prefix !in prefixes {
        prefixes := prefixes + [rule.prefix];
      }
    }
    return Some(prefixes);
  }

  // --------------------------------------------------------------- narrowing

  datatype ListingLimit = ListingLimit(unrestricted: bool, prefixes: seq<Bytes>) {
    predicate AllowsKey(key: Bytes) {
      unrestricted || exists i :: 0 <= i < |prefixes| && HasPrefix(key, prefixes[i])
    }

    predicate AllowsCommonPrefix(common: Bytes) {
      unrestricted || exists i ::
        0 <= i < |prefixes| && (HasPrefix(common, prefixes[i]) || HasPrefix(prefixes[i], common))
    }

    function Narrow(requested: Bytes): Bytes {
      if unrestricted || |prefixes| != 1 then requested
      else if HasPrefix(prefixes[0], requested) then prefixes[0] else requested
    }
  }

  // A folder is shown exactly when the caller could read some key in it.
  lemma FolderIsShownIff(limit: ListingLimit, common: Bytes)
    ensures limit.AllowsCommonPrefix(common) <==> exists key :: HasPrefix(key, common) && limit.AllowsKey(key)
  {
    if limit.AllowsCommonPrefix(common) {
      if limit.unrestricted {
        assert limit.AllowsKey(common);
      } else {
        var i :| 0 <= i < |limit.prefixes|
          && (HasPrefix(common, limit.prefixes[i]) || HasPrefix(limit.prefixes[i], common));
        var key := if HasPrefix(common, limit.prefixes[i]) then common else limit.prefixes[i];
        assert HasPrefix(key, common) && limit.AllowsKey(key);
      }
    }
    if key :| HasPrefix(key, common) && limit.AllowsKey(key) {
      if !limit.unrestricted {
        var i :| 0 <= i < |limit.prefixes| && HasPrefix(key, limit.prefixes[i]);
        if |common| <= |limit.prefixes[i]| {
          assert common == limit.prefixes[i][..|common|];
        } else {
          assert limit.prefixes[i] == common[..|limit.prefixes[i]|];
        }
      }
    }
  }

  method ListingLimitFor(grant: Option<Grant>, bucket: Bytes) returns (limit: ListingLimit)
    ensures LimitFor(grant, bucket, limit)
  {
    if grant.None? {
      return ListingLimit(true, []);
    }
    var prefixes := ReadablePrefixes(grant.value, bucket);
    return if prefixes.None? then ListingLimit(true, []) else ListingLimit(false, prefixes.value);
  }

  // An anonymous caller has reached a public bucket.
  ghost predicate LimitFor(grant: Option<Grant>, bucket: Bytes, limit: ListingLimit) {
    if grant.None? then limit.unrestricted
    else AreReadable(grant.value, bucket, if limit.unrestricted then None else Some(limit.prefixes))
  }

  predicate MayRead(grant: Option<Grant>, bucket: Bytes, key: Bytes) {
    grant.None? || grant.value.Allows(bucket, key, Read)
  }

  // The filter is the grant.
  lemma LimitIsGrant(grant: Option<Grant>, bucket: Bytes, limit: ListingLimit, key: Bytes)
    requires LimitFor(grant, bucket, limit)
    ensures limit.AllowsKey(key) <==> MayRead(grant, bucket, key)
  {
    if grant.Some? && !grant.value.unrestricted {
      var g := grant.value;
      if limit.unrestricted {
        var i :| 0 <= i < |g.rules| && g.rules[i].bucket == bucket && g.rules[i].prefix == []
                   && g.rules[i].Grants(Read);
        assert g.rules[i].Covers(key);
      } else {
        if limit.AllowsKey(key) {
          var i :| 0 <= i < |limit.prefixes| && HasPrefix(key, limit.prefixes[i]);
          assert limit.prefixes[i] in limit.prefixes;
        }
        if g.Allows(bucket, key, Read) {
          var i :| 0 <= i < |g.rules| && g.rules[i].bucket == bucket && g.rules[i].Covers(key)
                   && g.rules[i].Grants(Read);
          assert g.Readable(bucket, g.rules[i].prefix);
        }
      }
    }
  }

  // ---------------------------------------------------------------- one page

  function Shown(limit: ListingLimit, keys: seq<Bytes>): seq<Bytes> {
    if keys == [] then [] else
    (if limit.AllowsKey(keys[0]) then [keys[0]] else []) + Shown(limit, keys[1..])
  }

  function ShownPrefixes(limit: ListingLimit, commons: seq<Bytes>): seq<Bytes> {
    if commons == [] then [] else
    (if limit.AllowsCommonPrefix(commons[0]) then [commons[0]] else []) + ShownPrefixes(limit, commons[1..])
  }

  // The page as scanned, with what the caller may not see taken out; where it
  // ends and resumes is left as the scan reported it.
  function ScopedPage(limit: ListingLimit, page: ListResult): ListResult {
    page.(objects := Shown(limit, page.objects), commonPrefixes := ShownPrefixes(limit, page.commonPrefixes))
  }

  lemma {:induction false} AllShown(limit: ListingLimit, keys: seq<Bytes>)
    requires forall key :: key in keys ==> limit.AllowsKey(key)
    ensures Shown(limit, keys) == keys
  {
    if keys != [] {
      AllShown(limit, keys[1..]);
      assert keys == [keys[0]] + keys[1..];
    }
  }

  lemma {:induction false} AllPrefixesShown(limit: ListingLimit, commons: seq<Bytes>)
    requires forall common :: common in commons ==> limit.AllowsCommonPrefix(common)
    ensures ShownPrefixes(limit, commons) == commons
  {
    if commons != [] {
      AllPrefixesShown(limit, commons[1..]);
      assert commons == [commons[0]] + commons[1..];
    }
  }

  // What is on a page: the keys and folders of rows in range, past the start.
  lemma PageHolds(rows: seq<Bytes>, q: Query, startAfter: Bytes, n: nat)
    requires Sorted(rows) && n >= 1
    ensures
      var page := Page(InPrefix(rows, q.prefix), startAfter, q, n);
      && (forall key :: key in page.objects ==> key in rows && Less(startAfter, key) && HasPrefix(key, q.prefix))
      && forall common :: common in page.commonPrefixes ==>
        HasPrefix(common, q.prefix) && exists key :: key in rows && Less(startAfter, key) && HasPrefix(key, common)
  {
    var all := InPrefix(rows, q.prefix);
    var es, page := First(Entries(all, startAfter, q), n), Page(all, startAfter, q, n);
    InPrefixSorted(rows, q);
    InPrefixMembers(rows, q.prefix);
    EntriesAreTheListing(all, startAfter, q);
    PartsAreEntries(es);
    hide Page, Entries, Sorted, InPrefix, Less, InRange, GroupOf;
    assert page.objects == ObjectsOf(es) && page.commonPrefixes == GroupsOf(es) by {
      PageIsFirst(all, startAfter, q, n);
    }
    hide ObjectsOf, GroupsOf;
    forall key | key in page.objects ensures key in rows && Less(startAfter, key) && HasPrefix(key, q.prefix) {
      var k := EntryHasKey(all, startAfter, q, n, ObjectEntry(key));
      RangeIsPrefix(k, q.prefix);
    }
    forall common | common in page.commonPrefixes
      ensures HasPrefix(common, q.prefix)
      ensures exists key :: key in rows && Less(startAfter, key) && HasPrefix(key, common)
    {
      var k := EntryHasKey(all, startAfter, q, n, GroupEntry(common));
      RangeIsPrefix(k, q.prefix);
      GroupIsPrefix(k, q.prefix, q.delimiter);
    }
  }

  lemma PageIsFirst(all: seq<Bytes>, startAfter: Bytes, q: Query, n: nat)
    requires n >= 1
    ensures
      var es := First(Entries(all, startAfter, q), n);
      Page(all, startAfter, q, n).objects == ObjectsOf(es) && Page(all, startAfter, q, n).commonPrefixes == GroupsOf(es)
  {
  }

  lemma EntryHasKey(all: seq<Bytes>, startAfter: Bytes, q: Query, n: nat, e: Entry) returns (k: Bytes)
    requires Sorted(all) && q.Keys(all) && e in First(Entries(all, startAfter, q), n)
    ensures k in all && Less(startAfter, k) && q.EntryOf(k) == e
  {
    EntriesAreTheListing(all, startAfter, q);
    hide Less, Entries, Sorted, Query.Keys, Query.EntryOf;
    var es := Entries(all, startAfter, q);
    assert e in es;
    k :| k in all && Less(startAfter, k) && q.EntryOf(k) == e;
  }

  // Narrowing is for this: the one prefix a caller may read is scanned alone, and
  // nothing has to be taken out of any page.
  lemma NarrowedPagesAreWhole(limit: ListingLimit, rows: seq<Bytes>, requested: Bytes, delimiter: Bytes,
      startAfter: Bytes, n: nat)
    requires Sorted(rows) && n >= 1
    requires !limit.unrestricted && |limit.prefixes| == 1 && HasPrefix(limit.prefixes[0], requested)
    ensures
      var q := Query(limit.Narrow(requested), delimiter);
      var page := Page(InPrefix(rows, q.prefix), startAfter, q, n);
      ScopedPage(limit, page) == page
  {
    var q := Query(limit.Narrow(requested), delimiter);
    var page := Page(InPrefix(rows, q.prefix), startAfter, q, n);
    PageHolds(rows, q, startAfter, n);
    hide Page, Sorted, InPrefix, Less;
    forall key | key in page.objects ensures limit.AllowsKey(key) {
      assert HasPrefix(key, limit.prefixes[0]);
    }
    forall common | common in page.commonPrefixes ensures limit.AllowsCommonPrefix(common) {
      assert HasPrefix(common, limit.prefixes[0]);
    }
    AllShown(limit, page.objects);
    AllPrefixesShown(limit, page.commonPrefixes);
  }

  // --------------------------------------------------------------- all pages

  function FollowScoped(limit: ListingLimit, all: seq<Bytes>, startAfter: Bytes, q: Query, n: nat, steps: nat): Merged
    requires n >= 1
    decreases steps
  {
    if steps == 0 then Merged([], [], false) else
    var page := ScopedPage(limit, Page(all, startAfter, q, n));
    if !page.isTruncated then Merged(page.objects, page.commonPrefixes, true) else
    var rest := FollowScoped(limit, all, page.nextStartAfter, q, n, steps - 1);
    Merged(page.objects + rest.objects, page.commonPrefixes + rest.commonPrefixes, rest.finished)
  }

  lemma {:induction false} ShownJoins(limit: ListingLimit, a: seq<Bytes>, b: seq<Bytes>)
    ensures Shown(limit, a + b) == Shown(limit, a) + Shown(limit, b)
  {
    if a == [] {
      assert a + b == b;
    } else {
      assert (a + b)[1..] == a[1..] + b;
      ShownJoins(limit, a[1..], b);
    }
  }

  lemma {:induction false} FilterCommutes(limit: ListingLimit, all: seq<Bytes>, startAfter: Bytes, q: Query, n: nat,
      steps: nat)
    requires n >= 1
    ensures
      var scoped, whole := FollowScoped(limit, all, startAfter, q, n, steps), Follow(all, startAfter, q, n, steps);
      scoped.objects == Shown(limit, whole.objects) && scoped.finished == whole.finished
    decreases steps
  {
    hide Page, Shown, ShownPrefixes;
    if steps > 0 {
      var page := Page(all, startAfter, q, n);
      if page.isTruncated {
        FilterCommutes(limit, all, page.nextStartAfter, q, n, steps - 1);
        ShownJoins(limit, page.objects, Follow(all, page.nextStartAfter, q, n, steps - 1).objects);
      }
    } else {
      ShownNothing(limit);
    }
  }

  lemma ShownNothing(limit: ListingLimit)
    ensures Shown(limit, []) == []
  {
  }

  // Without a delimiter every key is its own entry.
  lemma {:induction false} WalkOfKeys(ks: seq<Bytes>, q: Query)
    requires q.delimiter == []
    ensures ObjectsOf(Walk(ks, {}, q)) == ks && |Walk(ks, {}, q)| == |ks|
  {
    if ks != [] {
      WalkOfKeys(ks[1..], q);
      PartsConcat([ObjectEntry(ks[0])], Walk(ks[1..], {}, q));
      assert [ObjectEntry(ks[0])][..0] == [];
      assert ObjectsOf([ObjectEntry(ks[0])]) == [ks[0]];
    }
  }

  // Some byte below 0xFF, so that the prefix has an upper bound.
  predicate Bounded(prefix: Bytes) {
    prefix == [] || exists i :: 0 <= i < |prefix| && prefix[i] < 0xFF
  }

  // What the caller should see.
  ghost predicate Expected(grant: Option<Grant>, bucket: Bytes, rows: seq<Bytes>, requested: Bytes, startAfter: Bytes,
      key: Bytes) {
    key in rows && Less(startAfter, key) && HasPrefix(key, requested) && MayRead(grant, bucket, key)
  }

  lemma {:induction false} ShownMembers(limit: ListingLimit, keys: seq<Bytes>, key: Bytes)
    ensures key in Shown(limit, keys) <==> key in keys && limit.AllowsKey(key)
  {
    if keys != [] {
      ShownMembers(limit, keys[1..], key);
      assert keys == [keys[0]] + keys[1..];
    }
  }

  lemma {:induction false} ShownPrefixMembers(limit: ListingLimit, commons: seq<Bytes>, common: Bytes)
    ensures common in ShownPrefixes(limit, commons) <==> common in commons && limit.AllowsCommonPrefix(common)
  {
    if commons != [] {
      ShownPrefixMembers(limit, commons[1..], common);
      assert commons == [commons[0]] + commons[1..];
    }
  }

  lemma {:induction false} ShownSorted(limit: ListingLimit, keys: seq<Bytes>)
    requires Sorted(keys)
    ensures Sorted(Shown(limit, keys))
  {
    if keys != [] {
      ShownSorted(limit, keys[1..]);
      var rest := Shown(limit, keys[1..]);
      forall i | 0 <= i < |rest| ensures Less(keys[0], rest[i]) {
        ShownMembers(limit, keys[1..], rest[i]);
      }
    }
  }

  // The narrowed range holds every key the caller may see in the one asked for.
  lemma NarrowLosesNothing(limit: ListingLimit, requested: Bytes, key: Bytes)
    requires Bounded(requested) && Bounded(limit.Narrow(requested))
    ensures limit.AllowsKey(key) ==> (InRange(key, limit.Narrow(requested)) <==> HasPrefix(key, requested))
  {
    RangeIsPrefix(key, requested);
    RangeIsPrefix(key, limit.Narrow(requested));
  }

  // Every page followed to the end, whatever the page size and whether or not
  // the scan was narrowed, shows in ascending order exactly the keys with the
  // requested prefix that the grant allows the caller to read.
  lemma ScopedListingIsTheGrant(grant: Option<Grant>, bucket: Bytes, limit: ListingLimit, rows: seq<Bytes>,
                                requested: Bytes, startAfter: Bytes, n: nat, steps: nat)
    requires Sorted(rows) && LimitFor(grant, bucket, limit)
    requires Bounded(requested) && Bounded(limit.Narrow(requested))
    requires n >= 1 && steps > |rows|
    ensures
      var q := Query(limit.Narrow(requested), []);
      var shown := FollowScoped(limit, InPrefix(rows, q.prefix), startAfter, q, n, steps);
      && shown.finished && Sorted(shown.objects)
      && forall key :: key in shown.objects <==> Expected(grant, bucket, rows, requested, startAfter, key)
  {
    var q := Query(limit.Narrow(requested), []);
    var all := InPrefix(rows, q.prefix);
    var rest := After(all, startAfter);
    InPrefixSorted(rows, q);
    InPrefixShorter(rows, q.prefix);
    WalkOfKeys(rest, q);
    PagesAreTheListing(all, startAfter, q, n, steps);
    FilterCommutes(limit, all, startAfter, q, n, steps);
    ShownSorted(limit, rest);
    forall key ensures key in Shown(limit, rest) <==> Expected(grant, bucket, rows, requested, startAfter, key) {
      ShownMembers(limit, rest, key);
      LimitIsGrant(grant, bucket, limit, key);
      NarrowLosesNothing(limit, requested, key);
      InPrefixMembers(rows, q.prefix);
      AfterMembers(all, startAfter, key);
    }
  }

  lemma {:induction false} InPrefixShorter(rows: seq<Bytes>, prefix: Bytes)
    ensures |InPrefix(rows, prefix)| <= |rows|
  {
    if rows != [] {
      InPrefixShorter(rows[1..], prefix);
    }
  }
}
