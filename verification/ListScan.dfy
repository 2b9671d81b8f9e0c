// The scan behind ListObjects: batches of keys, a cursor that jumps over whole
// folders, and a probe once the page is full, against the page that the
// specification cuts from the grouped listing.
module ListScan {
  import opened Outcomes
  import opened Bytes
  import opened Listing

  function Entries(all: seq<Bytes>, startAfter: Bytes, q: Query): seq<Entry> {
    Walk(After(all, startAfter), {}, q)
  }

  // The first n entries, marked truncated exactly when keys remain past them.
  function Page(all: seq<Bytes>, startAfter: Bytes, q: Query, n: nat): ListResult
    requires n >= 1
  {
    var es := First(Entries(all, startAfter, q), n);
    if |es| == n && After(all, Cursor(es[n - 1])) != [] then
      ListResult(ObjectsOf(es), GroupsOf(es), true, Cursor(es[n - 1]))
    else
      ListResult(ObjectsOf(es), GroupsOf(es), false, [])
  }

  function EffectiveMaxKeys(maxKeys: int): (n: nat)
    ensures 1 <= n <= MAX_MAX_KEYS
    ensures 1 <= maxKeys <= MAX_MAX_KEYS ==> n == maxKeys
    ensures maxKeys < 1 || maxKeys > MAX_MAX_KEYS ==> n == MAX_MAX_KEYS
  {
    if maxKeys <= 0 || maxKeys > MAX_MAX_KEYS then MAX_MAX_KEYS else maxKeys
  }

  // The page a request for maxKeys gets.
  function PageFor(rows: seq<Bytes>, q: Query, startAfter: Bytes, maxKeys: int): ListResult {
    Page(InPrefix(rows, q.prefix), startAfter, q, EffectiveMaxKeys(maxKeys))
  }

  function Size(page: ListResult): nat {
    |page.objects| + |page.commonPrefixes|
  }

  // No key past the start sorts above its group followed by U+10FFFF.
  ghost predicate Tidy(all: seq<Bytes>, startAfter: Bytes, q: Query) {
    forall i :: Position(all, startAfter) <= i < |all| ==> TidyKey(all[i], q)
  }

  predicate TidyKey(k: Bytes, q: Query) {
    q.EntryOf(k).GroupEntry? ==> AtMost(k, Cursor(q.EntryOf(k)))
  }

  function PreviousCursor(objects: seq<Bytes>, commonPrefixes: seq<Bytes>, unconsumed: Bytes): Bytes {
    if objects != [] && (commonPrefixes == [] || Less(commonPrefixes[|commonPrefixes| - 1], objects[|objects| - 1]))
    then objects[|objects| - 1]
    else if commonPrefixes != [] then commonPrefixes[|commonPrefixes| - 1] + HIGHEST_RUNE
    else unconsumed
  }

  lemma {:induction false} PartsAreEntries(es: seq<Entry>)
    ensures forall k :: k in ObjectsOf(es) <==> ObjectEntry(k) in es
    ensures forall g :: g in GroupsOf(es) <==> GroupEntry(g) in es
    ensures |ObjectsOf(es)| + |GroupsOf(es)| == |es|
  {
    if es != [] {
      var front, last := es[..|es| - 1], es[|es| - 1];
      PartsAreEntries(front);
      assert es == front + [last];
      var objects, groups := ObjectsOf(front), GroupsOf(front);
      assert ObjectsOf(es) == if last.ObjectEntry? then objects + [last.key] else objects;
      assert GroupsOf(es) == if last.GroupEntry? then groups + [last.group] else groups;
      hide ObjectsOf, GroupsOf;
    }
  }

  lemma LastOfEach(es: seq<Entry>)
    ensures ObjectsOf(es) != [] ==> ObjectEntry(ObjectsOf(es)[|ObjectsOf(es)| - 1]) in es
    ensures GroupsOf(es) != [] ==> GroupEntry(GroupsOf(es)[|GroupsOf(es)| - 1]) in es
    ensures es != [] ==> match es[|es| - 1]
      case ObjectEntry(k) => ObjectsOf(es) != [] && ObjectsOf(es)[|ObjectsOf(es)| - 1] == k
      case GroupEntry(g) => GroupsOf(es) != [] && GroupsOf(es)[|GroupsOf(es)| - 1] == g
  {
    PartsAreEntries(es);
  }

  lemma LastIsGreatest(es: seq<Entry>, e: Entry)
    requires Ascending(es) && e in es && e != es[|es| - 1]
    ensures Less(Name(e), Name(es[|es| - 1])) && !Less(Name(es[|es| - 1]), Name(e))
  {
    LessAsymmetric(Name(e), Name(es[|es| - 1]));
  }

  // previousCursor finds the entry emitted last, though it sees only two lists.
  lemma PreviousCursorIsLast(es: seq<Entry>, unconsumed: Bytes)
    requires Ascending(es) && es != []
    ensures PreviousCursor(ObjectsOf(es), GroupsOf(es), unconsumed) == Cursor(es[|es| - 1])
  {
    var last, objects, groups := es[|es| - 1], ObjectsOf(es), GroupsOf(es);
    LastOfEach(es);
    if last.ObjectEntry? && groups != [] {
      LastIsGreatest(es, GroupEntry(groups[|groups| - 1]));
    }
    if last.GroupEntry? && objects != [] {
      LastIsGreatest(es, ObjectEntry(objects[|objects| - 1]));
    }
    hide ObjectsOf, GroupsOf, Less, Ascending;
  }

  // ------------------------------------------------------- the scan's state

  ghost predicate Listed(emitted: seq<Entry>, seen: set<Bytes>) {
    forall g :: g in seen <==> GroupEntry(g) in emitted
  }

  ghost predicate Behind(seen: set<Bytes>, cursor: Bytes) {
    forall g :: g in seen ==> AtMost(g + HIGHEST_RUNE, cursor)
  }

  ghost predicate Scanned(all: seq<Bytes>, startAfter: Bytes, q: Query, emitted: seq<Entry>, seen: set<Bytes>,
      cursor: Bytes) {
    && Entries(all, startAfter, q) == emitted + Walk(After(all, cursor), seen, q)
    && Listed(emitted, seen)
    && Behind(seen, cursor)
    && (Tidy(all, startAfter, q) ==> AtMost(startAfter, cursor))
  }

  lemma EmittedAreEntries(all: seq<Bytes>, startAfter: Bytes, q: Query, emitted: seq<Entry>, seen: set<Bytes>,
      cursor: Bytes)
    requires Sorted(all) && q.Keys(all) && Scanned(all, startAfter, q, emitted, seen, cursor)
    ensures Ascending(Entries(all, startAfter, q)) && Ascending(emitted)
    ensures forall e :: e in emitted ==> exists k :: k in all && HasPrefix(k, q.prefix) && q.EntryOf(k) == e
  {
    var rest := After(all, startAfter);
    WalkAscending(rest, {}, q);
    var total := Entries(all, startAfter, q);
    assert forall i :: 0 <= i < |emitted| ==> emitted[i] == total[i];
    forall e | e in emitted ensures exists k :: k in all && HasPrefix(k, q.prefix) && q.EntryOf(k) == e {
      assert e in total;
      WalkMembers(rest, {}, q, e);
      var k :| k in rest && q.EntryOf(k) == e;
      assert k in all;
    }
  }

  // A seen group's cursor lies at or before the scan's, so a later key of the
  // group means that everything between is in the group too.
  lemma PastCursor(all: seq<Bytes>, startAfter: Bytes, q: Query, emitted: seq<Entry>, seen: set<Bytes>, cursor: Bytes,
      k: Bytes)
    requires Sorted(all) && q.Keys(all) && Scanned(all, startAfter, q, emitted, seen, cursor)
    requires Less(cursor, k) && Passed(q.EntryOf(k), seen) && k in all
    ensures q.EntryOf(cursor) == q.EntryOf(k)
    ensures !TidyKey(k, q)
  {
    var g := q.EntryOf(k).group;
    NameIsPrefix(k, q);
    GroupConvex(k, q, g + HIGHEST_RUNE, cursor, k);
    AtMostTransitive(g + HIGHEST_RUNE, cursor, k);
    LessAsymmetric(g + HIGHEST_RUNE, k);
  }

  lemma BehindStill(seen: set<Bytes>, cursor: Bytes, cursor': Bytes)
    requires Behind(seen, cursor) && Less(cursor, cursor')
    ensures Behind(seen, cursor')
  {
    forall g | g in seen ensures AtMost(g + HIGHEST_RUNE, cursor') {
      AtMostTransitive(g + HIGHEST_RUNE, cursor, cursor');
    }
  }

  // The key after the cursor, and the cursor moved onto it.
  lemma NextKey(all: seq<Bytes>, cursor: Bytes)
    requires Sorted(all) && After(all, cursor) != []
    ensures
      var i := Position(all, cursor);
      && i < |all| && After(all, cursor)[0] == all[i]
      && Less(cursor, all[i])
      && Position(all, all[i]) == i + 1
  {
    var i := Position(all, cursor);
    PositionSplits(all, cursor);
    PositionOfKey(all, i);
    LessTotal(cursor, all[i]);
  }

  lemma SkipStep(all: seq<Bytes>, startAfter: Bytes, q: Query, emitted: seq<Entry>, seen: set<Bytes>, cursor: Bytes)
    requires Sorted(all) && q.Keys(all) && Scanned(all, startAfter, q, emitted, seen, cursor)
    requires After(all, cursor) != [] && Passed(q.EntryOf(After(all, cursor)[0]), seen)
    ensures Scanned(all, startAfter, q, emitted, seen, After(all, cursor)[0])
  {
    hide Less, Walk, Listed, Behind, Tidy, Query.EntryOf, Entries, Position, Sorted, Query.Keys;
    var i := Position(all, cursor);
    NextKey(all, cursor);
    WalkPasses(all, i, i + 1, seen, q);
    BehindStill(seen, cursor, all[i]);
    if Tidy(all, startAfter, q) {
      AtMostTransitive(startAfter, cursor, all[i]);
    }
  }

  // A group's cursor is past every cursor the scan has already jumped to.
  lemma CursorsGrow(all: seq<Bytes>, startAfter: Bytes, q: Query, emitted: seq<Entry>, seen: set<Bytes>,
      cursor: Bytes, k: Bytes)
    requires Sorted(all) && q.Keys(all) && Scanned(all, startAfter, q, emitted, seen, cursor)
    requires Less(cursor, k) && k in all && !Passed(q.EntryOf(k), seen)
    ensures forall g :: g in seen ==> Less(g + HIGHEST_RUNE, Cursor(q.EntryOf(k)))
  {
    EmittedAreEntries(all, startAfter, q, emitted, seen, cursor);
    forall g | g in seen ensures Less(g + HIGHEST_RUNE, Cursor(q.EntryOf(k))) {
      assert GroupEntry(g) in emitted;
      var w :| w in all && HasPrefix(w, q.prefix) && q.EntryOf(w) == GroupEntry(g);
      NameIsPrefix(w, q);
      AtMostTransitive(g + HIGHEST_RUNE, cursor, k);
      GroupBefore(w, g, k, q);
    }
  }

  // A key past g + U+10FFFF but not in g has its cursor past it as well.
  lemma GroupBefore(w: Bytes, g: Bytes, k: Bytes, q: Query)
    requires HasPrefix(w, q.prefix) && q.EntryOf(w) == GroupEntry(g)
    requires HasPrefix(k, q.prefix) && Less(g + HIGHEST_RUNE, k) && q.EntryOf(k) != GroupEntry(g)
    ensures Less(g + HIGHEST_RUNE, Cursor(q.EntryOf(k)))
  {
    var c := g + HIGHEST_RUNE;
    GroupIsPrefix(w, q.prefix, q.delimiter);
    GroupOfExtends(w, c, q.prefix, q.delimiter);
    assert q.EntryOf(c) == GroupEntry(g);
    EntriesOrdered(c, k, q);
  }

  lemma ListOne(emitted: seq<Entry>, seen: set<Bytes>, e: Entry)
    requires Listed(emitted, seen)
    ensures Listed(emitted + [e], SeenAfter(e, seen))
  {
  }

  lemma BehindNow(all: seq<Bytes>, startAfter: Bytes, q: Query, emitted: seq<Entry>, seen: set<Bytes>, cursor: Bytes,
      k: Bytes)
    requires Sorted(all) && q.Keys(all) && Scanned(all, startAfter, q, emitted, seen, cursor)
    requires Less(cursor, k) && k in all && !Passed(q.EntryOf(k), seen)
    ensures Behind(SeenAfter(q.EntryOf(k), seen), Cursor(q.EntryOf(k)))
  {
    CursorsGrow(all, startAfter, q, emitted, seen, cursor, k);
  }

  lemma EmitStep(all: seq<Bytes>, startAfter: Bytes, q: Query, emitted: seq<Entry>, seen: set<Bytes>, cursor: Bytes)
    requires Sorted(all) && q.Keys(all) && Scanned(all, startAfter, q, emitted, seen, cursor)
    requires After(all, cursor) != [] && !Passed(q.EntryOf(After(all, cursor)[0]), seen)
    ensures
      var e := q.EntryOf(After(all, cursor)[0]);
      Scanned(all, startAfter, q, emitted + [e], SeenAfter(e, seen), Cursor(e))
  {
    hide Less, Walk, Listed, Behind, Tidy, Query.EntryOf, Entries, Position, Sorted, Query.Keys, Cursor, SeenAfter;
    var i := Position(all, cursor);
    NextKey(all, cursor);
    var e := q.EntryOf(all[i]);
    BehindNow(all, startAfter, q, emitted, seen, cursor, all[i]);
    ListOne(emitted, seen, e);
    EmitOne(all, i, seen, q);
    var rest := Walk(After(all, Cursor(e)), SeenAfter(e, seen), q);
    assert emitted + ([e] + rest) == (emitted + [e]) + rest;
    if Tidy(all, startAfter, q) {
      StartStaysBehind(all, startAfter, q, cursor);
    }
  }

  lemma StartStaysBehind(all: seq<Bytes>, startAfter: Bytes, q: Query, cursor: Bytes)
    requires Sorted(all) && Tidy(all, startAfter, q) && AtMost(startAfter, cursor) && After(all, cursor) != []
    ensures TidyKey(After(all, cursor)[0], q)
    ensures AtMost(startAfter, Cursor(q.EntryOf(After(all, cursor)[0])))
  {
    var i := Position(all, cursor);
    PositionSplits(all, cursor);
    PositionSplits(all, startAfter);
    LessTotal(cursor, all[i]);
    AtMostTransitive(startAfter, cursor, all[i]);
    LessAsymmetric(startAfter, all[i]);
    AtMostTransitive(startAfter, all[i], Cursor(q.EntryOf(all[i])));
  }

  // ------------------------------------------------------------ the scan

  // A full page has nothing emitted past its cursor.
  predicate AtLast(emitted: seq<Entry>, cursor: Bytes, limit: nat) {
    && |emitted| <= limit
    && (|emitted| == limit && limit > 0 ==> Cursor(emitted[limit - 1]) == cursor)
  }

  lemma PageIs(all: seq<Bytes>, startAfter: Bytes, q: Query, n: nat, emitted: seq<Entry>, seen: set<Bytes>,
      cursor: Bytes)
    requires n >= 1 && Scanned(all, startAfter, q, emitted, seen, cursor) && AtLast(emitted, cursor, n)
    requires |emitted| == n || After(all, cursor) == []
    ensures Page(all, startAfter, q, n) ==
      if After(all, cursor) != [] then ListResult(ObjectsOf(emitted), GroupsOf(emitted), true, cursor)
      else ListResult(ObjectsOf(emitted), GroupsOf(emitted), false, [])
  {
    hide ObjectsOf, GroupsOf, Cursor, After, Less, Behind, Listed;
    assert First(Entries(all, startAfter, q), n) == emitted;
  }

  lemma AppendParts(es: seq<Entry>, e: Entry)
    ensures ObjectsOf(es + [e]) == ObjectsOf(es) + (match e case ObjectEntry(k) => [k] case GroupEntry(_) => [])
    ensures GroupsOf(es + [e]) == GroupsOf(es) + (match e case ObjectEntry(_) => [] case GroupEntry(g) => [g])
  {
    assert (es + [e])[..|es|] == es;
  }

  ghost function AllGroups(all: seq<Bytes>, q: Query): set<Bytes> {
    set k | k in all && q.EntryOf(k).GroupEntry? :: q.EntryOf(k).group
  }

  // The batch is the next stretch of keys.
  lemma BatchIs(rows: seq<Bytes>, q: Query, cursor: Bytes, limit: nat)
    requires Sorted(rows)
    ensures FetchKeyBatch(rows, q.prefix, cursor, limit) == First(After(InPrefix(rows, q.prefix), cursor), limit)
  {
    SelectedIsAfter(rows, q.prefix, cursor);
  }

  // A key of a group already listed never follows an object: the group would
  // reach across it.
  lemma NoneToSkip(all: seq<Bytes>, startAfter: Bytes, q: Query, emitted: seq<Entry>, seen: set<Bytes>, cursor: Bytes,
      k: Bytes)
    requires Sorted(all) && q.Keys(all) && Scanned(all, startAfter, q, emitted, seen, cursor)
    requires Less(cursor, k) && k in all
    requires ObjectEntry(cursor) in emitted || TidyKey(k, q)
    ensures !Passed(q.EntryOf(k), seen)
  {
    if Passed(q.EntryOf(k), seen) {
      PastCursor(all, startAfter, q, emitted, seen, cursor, k);
      EmittedAreEntries(all, startAfter, q, emitted, seen, cursor);
      assert false;
    }
  }

  lemma TidyAhead(all: seq<Bytes>, startAfter: Bytes, q: Query, cursor: Bytes)
    requires Sorted(all) && Tidy(all, startAfter, q) && AtMost(startAfter, cursor) && After(all, cursor) != []
    ensures TidyKey(After(all, cursor)[0], q)
  {
    StartStaysBehind(all, startAfter, q, cursor);
  }

  // One key of a batch, as the loop body sees it.
  lemma KeyInHand(all: seq<Bytes>, startAfter: Bytes, q: Query, limit: nat, emitted: seq<Entry>, seen: set<Bytes>,
      cursor: Bytes)
    requires Sorted(all) && q.Keys(all) && Scanned(all, startAfter, q, emitted, seen, cursor)
    requires After(all, cursor) != []
    requires 1 <= limit && |emitted| == limit ==> emitted[limit - 1] == ObjectEntry(cursor)
    ensures
      var k := After(all, cursor)[0];
      && k in all && Less(cursor, k) && Position(all, k) == Position(all, cursor) + 1
      && (1 <= limit == |emitted| ==> !Passed(q.EntryOf(k), seen))
      && (Tidy(all, startAfter, q) ==> !Passed(q.EntryOf(k), seen))
  {
    NextKey(all, cursor);
    var k := After(all, cursor)[0];
    if 1 <= limit == |emitted| {
      assert ObjectEntry(cursor) in emitted;
      NoneToSkip(all, startAfter, q, emitted, seen, cursor, k);
    }
    if Tidy(all, startAfter, q) {
      TidyAhead(all, startAfter, q, cursor);
      NoneToSkip(all, startAfter, q, emitted, seen, cursor, k);
    }
  }

  predicate HasSuffix(s: Bytes, suffix: Bytes) {
    |suffix| <= |s| && s[|s| - |suffix|..] == suffix
  }

  lemma EndsSo(s: Bytes, suffix: Bytes)
    ensures HasSuffix(s + suffix, suffix)
  {
  }

  lemma StartsEmpty(all: seq<Bytes>, startAfter: Bytes, q: Query)
    ensures Scanned(all, startAfter, q, [], {}, startAfter)
    ensures ObjectsOf([]) == [] && GroupsOf([]) == []
  {
  }

  // A page that filled up before the key in hand.
  lemma FullBefore(all: seq<Bytes>, startAfter: Bytes, q: Query, n: nat, emitted: seq<Entry>, seen: set<Bytes>,
      cursor: Bytes, k: Bytes)
    requires Sorted(all) && q.Keys(all) && Scanned(all, startAfter, q, emitted, seen, cursor)
    requires 1 <= n == |emitted| && emitted[n - 1] == ObjectEntry(cursor) && After(all, cursor) != []
    ensures Page(all, startAfter, q, n)
         == ListResult(ObjectsOf(emitted), GroupsOf(emitted), true, PreviousCursor(ObjectsOf(emitted),
             GroupsOf(emitted), k))
  {
    hide Page, PreviousCursor, ObjectsOf, GroupsOf, Scanned, After, Ascending, Entries;
    EmittedAreEntries(all, startAfter, q, emitted, seen, cursor);
    PreviousCursorIsLast(emitted, k);
    assert AtLast(emitted, cursor, n);
    hide Cursor, AtLast, Sorted, Query.Keys;
    PageIs(all, startAfter, q, n, emitted, seen, cursor);
  }

  // Listing a new group uses it up.
  lemma GroupUsed(all: seq<Bytes>, q: Query, seen: set<Bytes>, k: Bytes)
    requires k in all && q.EntryOf(k).GroupEntry? && q.EntryOf(k).group !in seen
    ensures AllGroups(all, q) - (seen + {q.EntryOf(k).group}) < AllGroups(all, q) - seen
  {
    assert q.EntryOf(k).group in AllGroups(all, q) - seen;
  }

  // One page of a bucket's keys, held in key order. fetches counts the queries
  // made: on tidy keys, one per folder and two more, whatever the folders hold.
  method ListObjects(rows: seq<Bytes>, q: Query, startAfter: Bytes, maxKeys: int)
    returns (result: ListResult, ghost fetches: nat)
    requires Sorted(rows)
    ensures result == PageFor(rows, q, startAfter, maxKeys)
    ensures Tidy(InPrefix(rows, q.prefix), startAfter, q) ==> fetches <= |result.commonPrefixes| + 2
  {
    hide Scanned, Walk, Entries, Position, Less, ObjectsOf, GroupsOf, FetchKeyBatch, Page, InPrefix, Sorted, AllGroups;
    hide Query.Keys, AtMost, GroupOf, Selected, PreviousCursor, Tidy, TidyKey, HasSuffix, EffectiveMaxKeys;
    var limit := EffectiveMaxKeys(maxKeys);
    var objects: seq<Bytes>, commonPrefixes: seq<Bytes> := [], [];
    var seenPrefixes: set<Bytes> := {};
    var cursor := startAfter;
    ghost var all := InPrefix(rows, q.prefix);
    ghost var emitted: seq<Entry> := [];
    fetches := 0;
    InPrefixSorted(rows, q);
    StartsEmpty(all, startAfter, q);
    while true
      invariant Scanned(all, startAfter, q, emitted, seenPrefixes, cursor)
      invariant objects == ObjectsOf(emitted) && commonPrefixes == GroupsOf(emitted)
      invariant |emitted| < limit
      invariant Tidy(all, startAfter, q) ==>
        fetches <= |commonPrefixes| || (fetches <= |commonPrefixes| + 1 && After(all, cursor) == [])
      decreases AllGroups(all, q) - seenPrefixes, |After(all, cursor)|
    {
      BatchIs(rows, q, cursor, LIST_BATCH_SIZE);
      var batch := FetchKeyBatch(rows, q.prefix, cursor, LIST_BATCH_SIZE);
      fetches := fetches + 1;
      if |batch| == 0 {
        PageIs(all, startAfter, q, limit, emitted, seenPrefixes, cursor);
        return ListResult(objects, commonPrefixes, false, []), fetches;
      }
      ghost var start, shown, jumped := Position(all, cursor), commonPrefixes, false;
      ghost var seenBefore := seenPrefixes;
      var i := 0;
      while i < |batch|
        invariant 0 <= i <= |batch| && !jumped
        invariant Position(all, cursor) == start + i
        invariant Scanned(all, startAfter, q, emitted, seenPrefixes, cursor)
        invariant objects == ObjectsOf(emitted) && commonPrefixes == GroupsOf(emitted) == shown
        invariant seenPrefixes == seenBefore
        invariant |emitted| <= limit && (|emitted| == limit ==> emitted[limit - 1] == ObjectEntry(cursor))
        invariant Tidy(all, startAfter, q) ==> |objects| >= i
      {
        KeyInHand(all, startAfter, q, limit, emitted, seenPrefixes, cursor);
        PartsAreEntries(emitted);
        var k := batch[i];
        ghost var behind := cursor;
        assert After(all, behind)[0] == k;
        cursor := k;
        var group := GroupOf(k, q.prefix, q.delimiter);
        if group.Some? && group.value in seenPrefixes {
          SkipStep(all, startAfter, q, emitted, seenPrefixes, behind);
          i := i + 1;
          continue;
        }
        if |objects| + |commonPrefixes| >= limit {
          FullBefore(all, startAfter, q, limit, emitted, seenPrefixes, behind, k);
          return ListResult(objects, commonPrefixes, true, PreviousCursor(objects, commonPrefixes, k)), fetches;
        }
        ghost var e := q.EntryOf(k);
        EmitStep(all, startAfter, q, emitted, seenPrefixes, behind);
        AppendParts(emitted, e);
        emitted := emitted + [e];
        if group.Some? {
          GroupUsed(all, q, seenPrefixes, k);
          seenPrefixes := seenPrefixes + {group.value};
          commonPrefixes := commonPrefixes + [group.value];
          cursor := group.value + HIGHEST_RUNE;
          jumped := true;
          EndsSo(group.value, HIGHEST_RUNE);
          break;
        }
        objects := objects + [k];
        i := i + 1;
      }
      PartsAreEntries(emitted);
      if |objects| + |commonPrefixes| >= limit {
        BatchIs(rows, q, cursor, 1);
        var more := FetchKeyBatch(rows, q.prefix, cursor, 1);
        fetches := fetches + 1;
        PageIs(all, startAfter, q, limit, emitted, seenPrefixes, cursor);
        if |more| > 0 {
          return ListResult(objects, commonPrefixes, true, cursor), fetches;
        }
        return ListResult(objects, commonPrefixes, false, []), fetches;
      }
      if |batch| < LIST_BATCH_SIZE && !HasSuffix(cursor, HIGHEST_RUNE) {
        PageIs(all, startAfter, q, limit, emitted, seenPrefixes, cursor);
        return ListResult(objects, commonPrefixes, false, []), fetches;
      }
    }
  }

  // --------------------------------------------------------- how many keys

  lemma PageSize(all: seq<Bytes>, startAfter: Bytes, q: Query, n: nat)
    requires n >= 1
    ensures Size(Page(all, startAfter, q, n)) <= n
  {
    PartsAreEntries(First(Entries(all, startAfter, q), n));
  }

  // A request for no keys is taken for one that names no limit.
  lemma NoKeysAskedForOneSent()
    ensures EffectiveMaxKeys(0) == MAX_MAX_KEYS
    ensures Size(PageFor([[0x61]], Query([], []), [], 0)) == 1
  {
    var rows: seq<Bytes> := [[0x61]];
    var q := Query([], []);
    assert InPrefix(rows, []) == rows;
    assert rows[1..] == [] && After(rows, []) == rows;
    assert Walk(rows[1..], {}, q) == [];
    assert Entries(rows, [], q) == [ObjectEntry([0x61])];
    PartsAreEntries([ObjectEntry([0x61])]);
  }

  // No listing of any bucket ever sends more than was asked for.
  ghost predicate NeverOver(maxKeys: int) {
    forall rows, q, startAfter :: Sorted(rows) ==> Size(PageFor(rows, q, startAfter, maxKeys)) <= maxKeys
  }

  // max-keys is a maximum exactly when it is at least one.
  lemma MaxKeysIsAMaximumIff(maxKeys: int)
    ensures NeverOver(maxKeys) <==> maxKeys >= 1
  {
    if maxKeys >= 1 {
      forall rows, q: Query, startAfter | Sorted(rows)
        ensures Size(PageFor(rows, q, startAfter, maxKeys)) <= maxKeys
      {
        PageSize(InPrefix(rows, q.prefix), startAfter, q, EffectiveMaxKeys(maxKeys));
      }
    } else {
      NoKeysAskedForOneSent();
      assert Sorted([[0x61]]);
      assert PageFor([[0x61]], Query([], []), [], maxKeys) == PageFor([[0x61]], Query([], []), [], 0);
    }
  }
}
