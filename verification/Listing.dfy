// ListObjects: one page of a bucket listing, skipping a whole folder by jumping
// the cursor, against the plain specification: take the sorted keys in range,
// turn each into its entry, keep each entry once.
module Listing {
  import opened Outcomes
  import opened Bytes

  const MAX_MAX_KEYS := 1000
  const LIST_BATCH_SIZE := 1000

  // U+10FFFF in UTF-8.
  const HIGHEST_RUNE: Bytes := [0xF4, 0x8F, 0xBF, 0xBF]

  datatype ListResult = ListResult(
    objects: seq<Bytes>, commonPrefixes: seq<Bytes>, isTruncated: bool, nextStartAfter: Bytes)

  // The page's entries in the order they were found.
  datatype Entry = ObjectEntry(key: Bytes) | GroupEntry(group: Bytes)

  // ---------------------------------------------------------- prefix range

  // The bound of a prefix scan: the prefix with its last byte below 0xFF
  // incremented and everything after that byte dropped.
  function UpperBound(prefix: Bytes): Bytes {
    UpperBoundFrom(prefix, |prefix|)
  }

  function UpperBoundFrom(prefix: Bytes, n: nat): Bytes
    requires n <= |prefix|
  {
    if n == 0 then prefix + HIGHEST_RUNE
    else if prefix[n - 1] < 0xFF then prefix[..n - 1] + [prefix[n - 1] + 1]
    else UpperBoundFrom(prefix, n - 1)
  }

  method PrefixUpperBound(prefix: Bytes) returns (bound: Bytes)
    ensures bound == UpperBound(prefix)
  {
    var buf := prefix;
    var i := |buf| - 1;
    while i >= 0
      invariant -1 <= i < |prefix| && buf == prefix
      invariant UpperBound(prefix) == UpperBoundFrom(prefix, i + 1)
    {
      if buf[i] < 0xFF {
        buf := buf[i := buf[i] + 1];
        assert buf[..i + 1] == prefix[..i] + [prefix[i] + 1];
        return buf[..i + 1];
      }
      i := i - 1;
    }
    return prefix + HIGHEST_RUNE;
  }

  predicate InRange(k: Bytes, prefix: Bytes) {
    prefix == [] || (AtMost(prefix, k) && Less(k, UpperBound(prefix)))
  }

  lemma {:induction false} AllHighBound(prefix: Bytes, n: nat)
    requires n <= |prefix| && forall i :: 0 <= i < n ==> prefix[i] == 0xFF
    ensures UpperBoundFrom(prefix, n) == prefix + HIGHEST_RUNE
  {
    if n > 0 {
      AllHighBound(prefix, n - 1);
    }
  }

  lemma {:induction false} BoundSplitsAt(prefix: Bytes, n: nat)
    requires n <= |prefix| && exists i :: 0 <= i < n && prefix[i] < 0xFF
    ensures exists i :: 0 <= i < n && prefix[i] < 0xFF && UpperBoundFrom(prefix, n) == prefix[..i] + [prefix[i] + 1]
                        && forall j :: i < j < n ==> prefix[j] == 0xFF
  {
    if prefix[n - 1] == 0xFF {
      BoundSplitsAt(prefix, n - 1);
    }
  }

  // Nothing sorts between an all-0xFF string's extensions and the end.
  lemma {:induction false} AboveAllHigh(p: Bytes, k: Bytes)
    requires forall i :: 0 <= i < |p| ==> p[i] == 0xFF
    requires AtMost(p, k)
    ensures HasPrefix(k, p)
  {
    if p != [] && p != k {
      assert k[0] == 0xFF;
      AboveAllHigh(p[1..], k[1..]);
    }
  }

  lemma RangeAtSplit(a: Bytes, b: byte, tail: Bytes, k: Bytes)
    requires b < 0xFF && forall i :: 0 <= i < |tail| ==> tail[i] == 0xFF
    ensures AtMost(a + [b] + tail, k) && Less(k, a + [b + 1]) <==> HasPrefix(k, a + [b] + tail)
    decreases |a|
  {
    var p := a + [b] + tail;
    if a == [] {
      assert p == [b] + tail && a + [b + 1] == [b + 1];
      assert p[1..] == tail;
      if k != [] {
        assert k == [k[0]] + k[1..];
        if AtMost(p, k) && Less(k, [b + 1]) {
          assert [b + 1][1..] == [] && !Less(k[1..], []);
          assert k[0] <= b;
          assert p[0] == b && b <= k[0];
          assert AtMost(tail, k[1..]);
          AboveAllHigh(tail, k[1..]);
        }
        if HasPrefix(k, p) {
          PrefixAtMost(p, k);
        }
      }
    } else {
      assert p[1..] == a[1..] + [b] + tail && (a + [b + 1])[1..] == a[1..] + [b + 1];
      if k != [] && k[0] == a[0] {
        assert k == [k[0]] + k[1..] && p == [p[0]] + p[1..];
        RangeAtSplit(a[1..], b, tail, k[1..]);
      }
    }
  }

  // The half-open range holds exactly the keys with the prefix, unless the
  // prefix is all 0xFF bytes, when it leaves out those past U+10FFFF.
  lemma RangeIsPrefix(k: Bytes, prefix: Bytes)
    ensures InRange(k, prefix) ==> HasPrefix(k, prefix)
    ensures (exists i :: 0 <= i < |prefix| && prefix[i] < 0xFF) ==> (InRange(k, prefix) <==> HasPrefix(k, prefix))
    ensures (forall i :: 0 <= i < |prefix| ==> prefix[i] == 0xFF) && prefix != [] ==>
      (InRange(k, prefix) <==> HasPrefix(k, prefix) && Less(k, prefix + HIGHEST_RUNE))
  {
    if exists i :: 0 <= i < |prefix| && prefix[i] < 0xFF {
      BoundSplitsAt(prefix, |prefix|);
      var i :| 0 <= i < |prefix| && prefix[i] < 0xFF && UpperBound(prefix) == prefix[..i] + [prefix[i] + 1]
               && forall j :: i < j < |prefix| ==> prefix[j] == 0xFF;
      assert prefix == prefix[..i] + [prefix[i]] + prefix[i + 1..];
      RangeAtSplit(prefix[..i], prefix[i], prefix[i + 1..], k);
    } else {
      AllHighBound(prefix, |prefix|);
      if AtMost(prefix, k) {
        AboveAllHigh(prefix, k);
      }
      if HasPrefix(k, prefix) {
        PrefixAtMost(prefix, k);
      }
    }
  }

  // ---------------------------------------------------------------- groups

  // A key's group, where it has one: as much of the key as ends with the first
  // delimiter found past the prefix.
  function GroupOf(key: Bytes, prefix: Bytes, delimiter: Bytes): Option<Bytes> {
    if delimiter == [] then None else
    var rest := if HasPrefix(key, prefix) then key[|prefix|..] else key;
    var index := IndexOf(rest, delimiter);
    if index < 0 then None else Some(prefix + rest[..index + |delimiter|])
  }

  // A group is a prefix of its keys, and every key starting with it is in it.
  lemma GroupIsPrefix(k: Bytes, prefix: Bytes, delimiter: Bytes)
    requires HasPrefix(k, prefix) && GroupOf(k, prefix, delimiter).Some?
    ensures HasPrefix(k, GroupOf(k, prefix, delimiter).value)
    ensures HasPrefix(GroupOf(k, prefix, delimiter).value, prefix)
  {
    var rest := k[|prefix|..];
    assert k == prefix + rest;
  }

  // What a key starts with, past the prefix and through the first delimiter there.
  predicate ThroughFirst(k: Bytes, prefix: Bytes, delimiter: Bytes, g: Bytes) {
    && HasPrefix(k, g) && |g| >= |prefix| + |delimiter| && g[|g| - |delimiter|..] == delimiter
    && forall j :: |prefix| <= j < |g| - |delimiter| ==> !HasPrefix(k[j..], delimiter)
  }

  // That, and nothing else, is its group.
  lemma GroupIff(k: Bytes, prefix: Bytes, delimiter: Bytes, g: Bytes)
    requires HasPrefix(k, prefix)
    ensures GroupOf(k, prefix, delimiter) == Some(g) <==> delimiter != [] && ThroughFirst(k, prefix, delimiter, g)
  {
    hide IndexOf;
    if GroupOf(k, prefix, delimiter).Some? {
      GroupIsThroughFirst(k, prefix, delimiter);
    }
    if delimiter != [] && ThroughFirst(k, prefix, delimiter, g) {
      ThroughFirstIsGroup(k, prefix, delimiter, g);
    }
  }

  lemma GroupIsThroughFirst(k: Bytes, prefix: Bytes, delimiter: Bytes)
    requires HasPrefix(k, prefix) && GroupOf(k, prefix, delimiter).Some?
    ensures ThroughFirst(k, prefix, delimiter, GroupOf(k, prefix, delimiter).value)
  {
    var rest := k[|prefix|..];
    AroundFirst(rest, delimiter);
    GroupIsPrefix(k, prefix, delimiter);
    var i := IndexOf(rest, delimiter);
    assert k == prefix + rest;
    hide IndexOf, HasPrefix;
    EndsAt(prefix, rest, i, delimiter);
    forall j | |prefix| <= j < |prefix| + i ensures !HasPrefix(k[j..], delimiter) {
      assert k[j..] == rest[j - |prefix|..];
    }
  }

  lemma EndsAt(prefix: Bytes, rest: Bytes, i: nat, d: Bytes)
    requires i + |d| <= |rest| && rest == rest[..i] + d + rest[i + |d|..]
    ensures
      var g := prefix + rest[..i + |d|];
      |g| == |prefix| + i + |d| && g[|g| - |d|..] == d
  {
    assert rest[..i + |d|] == rest[..i] + d;
  }

  lemma ThroughFirstIsGroup(k: Bytes, prefix: Bytes, delimiter: Bytes, g: Bytes)
    requires HasPrefix(k, prefix) && delimiter != [] && ThroughFirst(k, prefix, delimiter, g)
    ensures GroupOf(k, prefix, delimiter) == Some(g)
  {
    hide IndexOf;
    var rest, end := k[|prefix|..], |g| - |delimiter|;
    var a, tail := k[|prefix|..end], k[|g|..];
    assert g == k[..|g|];
    assert k[end..|g|] == g[end..] == delimiter;
    assert rest == a + delimiter + tail;
    forall j | 0 <= j < |a| ensures !HasPrefix((a + delimiter + tail)[j..], delimiter) {
      assert rest[j..] == k[|prefix| + j..];
    }
    FirstIs(a, delimiter, tail);
    assert prefix + rest[..|a| + |delimiter|] == g;
  }

  lemma GroupOfExtends(k0: Bytes, k: Bytes, prefix: Bytes, delimiter: Bytes)
    requires HasPrefix(k0, prefix) && GroupOf(k0, prefix, delimiter).Some?
    requires HasPrefix(k, GroupOf(k0, prefix, delimiter).value)
    ensures HasPrefix(k, prefix) && GroupOf(k, prefix, delimiter) == GroupOf(k0, prefix, delimiter)
  {
    GroupIsPrefix(k0, prefix, delimiter);
    var g := GroupOf(k0, prefix, delimiter).value;
    var r0, r := k0[|prefix|..], k[|prefix|..];
    var i := IndexOf(r0, delimiter);
    assert g == prefix + r0[..i + |delimiter|];
    assert k == g + k[|g|..];
    assert r == r0[..i + |delimiter|] + k[|g|..];
    SameFirstIndex(r0, r, i, delimiter);
  }

  lemma {:induction false} IndexOfAppend(c: Bytes, x: Bytes, d: Bytes)
    requires IndexOf(c, d) >= 0
    ensures IndexOf(c + x, d) == IndexOf(c, d)
    ensures |d| <= |c|
  {
    if HasPrefix(c, d) {
      assert (c + x)[..|d|] == c[..|d|];
    } else {
      assert (c + x)[1..] == c[1..] + x;
      IndexOfAppend(c[1..], x, d);
      PrefixOfAppend(c, x, d);
    }
  }

  lemma PrefixOfAppend(c: Bytes, x: Bytes, d: Bytes)
    ensures |d| <= |c| ==> (HasPrefix(c + x, d) <==> HasPrefix(c, d))
  {
    if |d| <= |c| {
      assert (c + x)[..|d|] == c[..|d|];
    }
  }

  lemma MatchInside(r0: Bytes, i: nat, d: Bytes)
    requires i + |d| <= |r0| && HasPrefix(r0[i..], d)
    ensures IndexOf(r0[..i + |d|], d) >= 0
  {
    hide IndexOf;
    var c := r0[..i + |d|];
    assert c[i..] == r0[i..][..|d|];
    assert c[i..] == d;
    IndexOfFound(c, d, i);
  }

  lemma SameFirstIndex(r0: Bytes, r: Bytes, i: nat, d: Bytes)
    requires i == IndexOf(r0, d) && i + |d| <= |r0|
    requires HasPrefix(r, r0[..i + |d|])
    ensures IndexOf(r, d) == i
  {
    var c := r0[..i + |d|];
    assert r0 == c + r0[|c|..] && r == c + r[|c|..];
    assert HasPrefix(r0[i..], d);
    hide IndexOf, HasPrefix;
    MatchInside(r0, i, d);
    IndexOfAppend(c, r0[|c|..], d);
    IndexOfAppend(c, r[|c|..], d);
  }

  // ------------------------------------------------------------- entries

  datatype Query = Query(prefix: Bytes, delimiter: Bytes) {
    function EntryOf(key: Bytes): Entry {
      match GroupOf(key, prefix, delimiter)
      case Some(g) => GroupEntry(g)
      case None => ObjectEntry(key)
    }

    predicate Keys(ks: seq<Bytes>) {
      forall i :: 0 <= i < |ks| ==> HasPrefix(ks[i], prefix)
    }
  }

  function Name(e: Entry): Bytes {
    match e case ObjectEntry(k) => k case GroupEntry(g) => g
  }

  // The cursor that resumes a listing after an entry.
  function Cursor(e: Entry): Bytes {
    match e case ObjectEntry(k) => k case GroupEntry(g) => g + HIGHEST_RUNE
  }

  lemma NameIsPrefix(k: Bytes, q: Query)
    requires HasPrefix(k, q.prefix)
    ensures HasPrefix(k, Name(q.EntryOf(k))) && AtMost(Name(q.EntryOf(k)), k)
  {
    if q.EntryOf(k).GroupEntry? {
      GroupIsPrefix(k, q.prefix, q.delimiter);
    }
    PrefixAtMost(Name(q.EntryOf(k)), k);
  }

  // Everything between two strings of a group is in that group.
  lemma GroupConvex(k0: Bytes, q: Query, a: Bytes, b: Bytes, c: Bytes)
    requires HasPrefix(k0, q.prefix) && q.EntryOf(k0).GroupEntry?
    requires HasPrefix(a, q.EntryOf(k0).group) && HasPrefix(c, q.EntryOf(k0).group) && AtMost(a, b) && AtMost(b, c)
    ensures q.EntryOf(b) == q.EntryOf(k0)
  {
    PrefixConvex(q.EntryOf(k0).group, a, b, c);
    GroupOfExtends(k0, b, q.prefix, q.delimiter);
  }

  lemma {:induction false} LessCut(a: Bytes, p: Bytes, x: Bytes)
    requires Less(a, p + x) && !HasPrefix(a, p)
    ensures Less(a, p)
  {
    if a != [] && a[0] == p[0] {
      assert (p + x)[1..] == p[1..] + x;
      LessCut(a[1..], p[1..], x);
    }
  }

  lemma {:induction false} LessExtend(p: Bytes, b: Bytes, y: Bytes)
    requires Less(p, b) && !HasPrefix(b, p)
    ensures Less(p + y, b)
  {
    if p[0] == b[0] {
      assert (p + y)[1..] == p[1..] + y;
      LessExtend(p[1..], b[1..], y);
    }
  }

  // Entries come out in the order of their names, and so do their cursors.
  lemma EntriesOrdered(k1: Bytes, k2: Bytes, q: Query)
    requires HasPrefix(k1, q.prefix) && HasPrefix(k2, q.prefix)
    requires Less(k1, k2) && q.EntryOf(k1) != q.EntryOf(k2)
    ensures Less(Name(q.EntryOf(k1)), Name(q.EntryOf(k2)))
    ensures Less(Cursor(q.EntryOf(k1)), Cursor(q.EntryOf(k2)))
  {
    var e1, e2 := q.EntryOf(k1), q.EntryOf(k2);
    NameIsPrefix(k1, q);
    NameIsPrefix(k2, q);
    AtMostTransitive(Name(e1), k1, k2);
    NotUnder(k1, k2, q);
    assert k2 == Name(e2) + k2[|Name(e2)|..];
    LessCut(Name(e1), Name(e2), k2[|Name(e2)|..]);
    PrefixAtMost(Name(e2), Cursor(e2));
    AtMostTransitive(Name(e1), Name(e2), Cursor(e2));
    if e1.GroupEntry? {
      LessExtend(Name(e1), Name(e2), HIGHEST_RUNE);
      AtMostTransitive(Cursor(e1), Name(e2), Cursor(e2));
    }
  }

  // Neither of two entries' names starts with the other, group first.
  lemma NotUnder(k1: Bytes, k2: Bytes, q: Query)
    requires HasPrefix(k1, q.prefix) && HasPrefix(k2, q.prefix)
    requires Less(k1, k2) && q.EntryOf(k1) != q.EntryOf(k2)
    ensures !HasPrefix(Name(q.EntryOf(k1)), Name(q.EntryOf(k2)))
    ensures q.EntryOf(k1).GroupEntry? ==> !HasPrefix(Name(q.EntryOf(k2)), Name(q.EntryOf(k1)))
  {
    var n1, n2 := Name(q.EntryOf(k1)), Name(q.EntryOf(k2));
    NameIsPrefix(k1, q);
    NameIsPrefix(k2, q);
    if HasPrefix(n1, n2) {
      assert HasPrefix(k1, n2);
      if q.EntryOf(k2).GroupEntry? {
        GroupOfExtends(k2, k1, q.prefix, q.delimiter);
      } else {
        PrefixAtMost(k2, k1);
        LessAsymmetric(k1, k2);
      }
    }
    if q.EntryOf(k1).GroupEntry? && HasPrefix(n2, n1) {
      assert HasPrefix(k2, n1);
      GroupOfExtends(k1, k2, q.prefix, q.delimiter);
    }
  }

  // ------------------------------------------------ the specification

  // Each key in turn becomes its entry; a group already seen is passed over.
  function Walk(ks: seq<Bytes>, seen: set<Bytes>, q: Query): seq<Entry> {
    if ks == [] then [] else
    match q.EntryOf(ks[0])
    case GroupEntry(g) =>
      if g in seen then Walk(ks[1..], seen, q) else [GroupEntry(g)] + Walk(ks[1..], seen + {g}, q)
    case ObjectEntry(k) => [ObjectEntry(k)] + Walk(ks[1..], seen, q)
  }

  predicate Passed(e: Entry, seen: set<Bytes>) {
    e.GroupEntry? && e.group in seen
  }

  function SeenAfter(e: Entry, seen: set<Bytes>): set<Bytes> {
    if e.GroupEntry? then seen + {e.group} else seen
  }

  lemma WalkStep(ks: seq<Bytes>, seen: set<Bytes>, q: Query)
    requires ks != []
    ensures
      var e := q.EntryOf(ks[0]);
      Walk(ks, seen, q) == (if Passed(e, seen) then [] else [e]) + Walk(ks[1..], SeenAfter(e, seen), q)
  {
    if Passed(q.EntryOf(ks[0]), seen) {
      assert seen + {q.EntryOf(ks[0]).group} == seen;
    }
  }

  // The walk holds exactly the entries of the keys, less the groups seen.
  lemma {:induction false} WalkMembers(ks: seq<Bytes>, seen: set<Bytes>, q: Query, e: Entry)
    ensures e in Walk(ks, seen, q) <==> !Passed(e, seen) && exists k :: k in ks && q.EntryOf(k) == e
  {
    if ks != [] {
      var e0 := q.EntryOf(ks[0]);
      WalkStep(ks, seen, q);
      WalkMembers(ks[1..], SeenAfter(e0, seen), q, e);
      assert ks == [ks[0]] + ks[1..];
    }
  }

  ghost predicate Ascending(w: seq<Entry>) {
    forall i, j :: 0 <= i < j < |w| ==> Less(Name(w[i]), Name(w[j])) && Less(Cursor(w[i]), Cursor(w[j]))
  }

  // In ascending order of name, so each entry appears once.
  lemma {:induction false} WalkAscending(ks: seq<Bytes>, seen: set<Bytes>, q: Query)
    requires Sorted(ks) && q.Keys(ks)
    ensures Ascending(Walk(ks, seen, q))
  {
    if ks != [] {
      var e0 := q.EntryOf(ks[0]);
      WalkStep(ks, seen, q);
      WalkAscending(ks[1..], SeenAfter(e0, seen), q);
      if !Passed(e0, seen) {
        forall e | e in Walk(ks[1..], SeenAfter(e0, seen), q)
          ensures Less(Name(e0), Name(e)) && Less(Cursor(e0), Cursor(e))
        {
          FirstEntryIsLeast(ks, seen, q, e);
        }
      }
    }
  }

  lemma FirstEntryIsLeast(ks: seq<Bytes>, seen: set<Bytes>, q: Query, e: Entry)
    requires Sorted(ks) && q.Keys(ks) && ks != []
    requires e in Walk(ks[1..], SeenAfter(q.EntryOf(ks[0]), seen), q)
    ensures Less(Name(q.EntryOf(ks[0])), Name(e)) && Less(Cursor(q.EntryOf(ks[0])), Cursor(e))
  {
    WalkMembers(ks[1..], SeenAfter(q.EntryOf(ks[0]), seen), q, e);
    var i :| 0 <= i < |ks[1..]| && q.EntryOf(ks[1..][i]) == e;
    LessIrreflexive(ks[0]);
    EntriesOrdered(ks[0], ks[1..][i], q);
  }

  // --------------------------------------------------------- key ranges

  function InPrefix(rows: seq<Bytes>, prefix: Bytes): seq<Bytes> {
    if rows == [] then [] else
    (if InRange(rows[0], prefix) then [rows[0]] else []) + InPrefix(rows[1..], prefix)
  }

  // WHERE key > after AND key in range ORDER BY key, on keys held in order.
  function Selected(rows: seq<Bytes>, prefix: Bytes, after: Bytes): seq<Bytes> {
    if rows == [] then [] else
    (if Less(after, rows[0]) && InRange(rows[0], prefix) then [rows[0]] else []) + Selected(rows[1..], prefix, after)
  }

  function First<T>(s: seq<T>, n: nat): seq<T> {
    if |s| <= n then s else s[..n]
  }

  function FetchKeyBatch(rows: seq<Bytes>, prefix: Bytes, after: Bytes, limit: nat): seq<Bytes> {
    First(Selected(rows, prefix, after), limit)
  }

  // How many of the keys lie at or before the cursor.
  function Position(all: seq<Bytes>, cursor: Bytes): (n: nat)
    ensures n <= |all|
  {
    if all == [] || Less(cursor, all[0]) then 0 else 1 + Position(all[1..], cursor)
  }

  function After(all: seq<Bytes>, cursor: Bytes): seq<Bytes> {
    all[Position(all, cursor)..]
  }

  lemma {:induction false} PositionSplits(all: seq<Bytes>, cursor: Bytes)
    requires Sorted(all)
    ensures forall i :: 0 <= i < |all| ==> (i < Position(all, cursor) <==> AtMost(all[i], cursor))
  {
    if all != [] {
      LessTotal(cursor, all[0]);
      PositionSplits(all[1..], cursor);
      forall i | 0 <= i < |all| ensures i < Position(all, cursor) <==> AtMost(all[i], cursor) {
        if i > 0 {
          assert all[i] == all[1..][i - 1];
        }
        if Less(cursor, all[0]) {
          assert i > 0 ==> Less(all[0], all[i]);
          if i > 0 {
            LessTransitive(cursor, all[0], all[i]);
          }
          LessAsymmetric(cursor, all[i]);
        }
      }
    }
  }

  lemma PositionIs(all: seq<Bytes>, cursor: Bytes, n: nat)
    requires Sorted(all) && n <= |all|
    requires n > 0 ==> AtMost(all[n - 1], cursor)
    requires n < |all| ==> Less(cursor, all[n])
    ensures Position(all, cursor) == n
  {
    PositionSplits(all, cursor);
    if n < |all| {
      LessAsymmetric(cursor, all[n]);
    }
  }

  lemma PositionOfKey(all: seq<Bytes>, i: nat)
    requires Sorted(all) && i < |all|
    ensures Position(all, all[i]) == i + 1
  {
    PositionIs(all, all[i], i + 1);
  }

  lemma {:induction false} SelectedIsAfter(rows: seq<Bytes>, prefix: Bytes, after: Bytes)
    requires Sorted(rows)
    ensures Selected(rows, prefix, after) == After(InPrefix(rows, prefix), after)
  {
    hide Less, InRange;
    if rows != [] {
      SelectedIsAfter(rows[1..], prefix, after);
      if Less(after, rows[0]) {
        NothingBefore(rows, prefix, after);
      }
      SelectedStep(rows, prefix, after);
    }
  }

  lemma SelectedStep(rows: seq<Bytes>, prefix: Bytes, after: Bytes)
    requires rows != []
    requires Selected(rows[1..], prefix, after) == After(InPrefix(rows[1..], prefix), after)
    requires Less(after, rows[0]) ==> Position(InPrefix(rows[1..], prefix), after) == 0
    ensures Selected(rows, prefix, after) == After(InPrefix(rows, prefix), after)
  {
    hide Less, InRange;
    var rest := InPrefix(rows[1..], prefix);
    if InRange(rows[0], prefix) {
      assert InPrefix(rows, prefix) == [rows[0]] + rest;
    } else {
      assert InPrefix(rows, prefix) == rest;
    }
  }

  lemma NothingBefore(rows: seq<Bytes>, prefix: Bytes, after: Bytes)
    requires Sorted(rows) && rows != [] && Less(after, rows[0])
    ensures Position(InPrefix(rows[1..], prefix), after) == 0
  {
    var rest := InPrefix(rows[1..], prefix);
    if rest != [] {
      InPrefixMembers(rows[1..], prefix);
      assert rest[0] in rest;
      LessTransitive(after, rows[0], rest[0]);
    }
  }

  lemma {:induction false} InPrefixMembers(rows: seq<Bytes>, prefix: Bytes)
    ensures forall k :: k in InPrefix(rows, prefix) <==> k in rows && InRange(k, prefix)
  {
    if rows != [] {
      InPrefixMembers(rows[1..], prefix);
      assert rows == [rows[0]] + rows[1..];
    }
  }

  lemma {:induction false} InPrefixSorted(rows: seq<Bytes>, q: Query)
    requires Sorted(rows)
    ensures Sorted(InPrefix(rows, q.prefix)) && q.Keys(InPrefix(rows, q.prefix))
  {
    if rows != [] {
      InPrefixSorted(rows[1..], q);
      InPrefixMembers(rows[1..], q.prefix);
      RangeIsPrefix(rows[0], q.prefix);
      var rest := InPrefix(rows[1..], q.prefix);
      forall i | 0 <= i < |rest| ensures Less(rows[0], rest[i]) {
        assert rest[i] in rows[1..];
      }
    }
  }

  // ------------------------------------------------------- skipping ahead

  // Keys of groups already seen add nothing to the walk.
  lemma {:induction false} WalkPasses(all: seq<Bytes>, i: nat, j: nat, seen: set<Bytes>, q: Query)
    requires i <= j <= |all| && forall m :: i <= m < j ==> Passed(q.EntryOf(all[m]), seen)
    ensures Walk(all[i..], seen, q) == Walk(all[j..], seen, q)
    decreases j - i
  {
    if i < j {
      assert all[i..][1..] == all[i + 1..];
      WalkPasses(all, i + 1, j, seen, q);
    }
  }

  // Jumping to the end of a seen group, forwards or backwards, changes nothing.
  lemma SkipGroup(all: seq<Bytes>, k0: Bytes, a: Bytes, b: Bytes, seen: set<Bytes>, q: Query)
    requires Sorted(all) && HasPrefix(k0, q.prefix) && Passed(q.EntryOf(k0), seen)
    requires HasPrefix(a, q.EntryOf(k0).group) && HasPrefix(b, q.EntryOf(k0).group)
    ensures Walk(After(all, a), seen, q) == Walk(After(all, b), seen, q)
  {
    LessTotal(a, b);
    var lo, hi := if Less(a, b) then a else b, if Less(a, b) then b else a;
    PositionSplits(all, lo);
    PositionSplits(all, hi);
    var i, j := Position(all, lo), Position(all, hi);
    forall m | i <= m < j ensures Passed(q.EntryOf(all[m]), seen) {
      LessTotal(lo, all[m]);
      GroupConvex(k0, q, lo, all[m], hi);
    }
    if j < i {
      AtMostTransitive(all[j], lo, hi);
    }
    WalkPasses(all, i, j, seen, q);
  }

  // Emitting the entry of the key in hand moves the walk on to its cursor.
  lemma EmitOne(all: seq<Bytes>, i: nat, seen: set<Bytes>, q: Query)
    requires Sorted(all) && q.Keys(all) && i < |all| && !Passed(q.EntryOf(all[i]), seen)
    ensures
      var e := q.EntryOf(all[i]);
      Walk(all[i..], seen, q) == [e] + Walk(After(all, Cursor(e)), SeenAfter(e, seen), q)
  {
    var e := q.EntryOf(all[i]);
    WalkStep(all[i..], seen, q);
    assert all[i..][1..] == all[i + 1..];
    PositionOfKey(all, i);
    if e.GroupEntry? {
      NameIsPrefix(all[i], q);
      SkipGroup(all, all[i], all[i], Cursor(e), SeenAfter(e, seen), q);
    }
  }

  function ObjectsOf(es: seq<Entry>): seq<Bytes> {
    if es == [] then [] else
    ObjectsOf(es[..|es| - 1]) + (match es[|es| - 1] case ObjectEntry(k) => [k] case GroupEntry(_) => [])
  }

  function GroupsOf(es: seq<Entry>): seq<Bytes> {
    if es == [] then [] else
    GroupsOf(es[..|es| - 1]) + (match es[|es| - 1] case ObjectEntry(_) => [] case GroupEntry(g) => [g])
  }

  function SeenAll(es: seq<Entry>, seen: set<Bytes>): set<Bytes> {
    if es == [] then seen else SeenAll(es[1..], SeenAfter(es[0], seen))
  }

  lemma SeenAllStep(w: seq<Entry>, rest: seq<Entry>, e: Entry, seen: set<Bytes>, m: nat)
    requires w == [e] + rest && 1 <= m <= |w|
    ensures w[m..] == rest[m - 1..]
    ensures SeenAll(w[..m], seen) == SeenAll(rest[..m - 1], SeenAfter(e, seen))
  {
    assert w[..m][1..] == rest[..m - 1];
  }

  // What remains after the first m entries is the walk from the m-th cursor
  // that passes over the groups already listed.
  lemma {:induction false} WalkResumes(all: seq<Bytes>, i: nat, seen: set<Bytes>, q: Query, m: nat)
    requires Sorted(all) && q.Keys(all) && i <= |all| && 1 <= m <= |Walk(all[i..], seen, q)|
    ensures
      var w := Walk(all[i..], seen, q);
      w[m..] == Walk(After(all, Cursor(w[m - 1])), SeenAll(w[..m], seen), q)
    decreases |all| - i
  {
    assert i < |all|;
    hide Cursor, After, Sorted, Query.EntryOf, Query.Keys, SeenAll, Walk, Passed, SeenAfter;
    var e := q.EntryOf(all[i]);
    WalkFrom(all, i, seen, q);
    if Passed(e, seen) {
      WalkResumes(all, i + 1, seen, q, m);
    } else {
      var w, rest := Walk(all[i..], seen, q), Walk(all[i + 1..], SeenAfter(e, seen), q);
      SeenAllStep(w, rest, e, seen, m);
      if m == 1 {
        EmitOne(all, i, seen, q);
        NothingSeenYet(rest[..0], SeenAfter(e, seen));
      } else {
        WalkResumes(all, i + 1, SeenAfter(e, seen), q, m - 1);
        assert w[m - 1] == rest[m - 2];
      }
    }
  }

  lemma WalkFrom(all: seq<Bytes>, i: nat, seen: set<Bytes>, q: Query)
    requires i < |all|
    ensures
      var e := q.EntryOf(all[i]);
      Walk(all[i..], seen, q)
      == if Passed(e, seen) then Walk(all[i + 1..], seen, q) else [e] + Walk(all[i + 1..], SeenAfter(e, seen), q)
  {
    assert all[i..][1..] == all[i + 1..];
    WalkStep(all[i..], seen, q);
  }

  lemma NothingSeenYet(es: seq<Entry>, seen: set<Bytes>)
    ensures es == [] ==> SeenAll(es, seen) == seen
  {
  }
}
