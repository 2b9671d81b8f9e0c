// Following continuation cursors: the pages of a listing put back together.
module ListingPages {
  import opened Bytes
  import opened Listing
  import opened ListScan

  // The merged pages, and whether the last of them said there were no more.
  datatype Merged = Merged(objects: seq<Bytes>, commonPrefixes: seq<Bytes>, finished: bool)

  function Follow(all: seq<Bytes>, startAfter: Bytes, q: Query, n: nat, steps: nat): Merged
    requires n >= 1
    decreases steps
  {
    if steps == 0 then Merged([], [], false) else
    var page := Page(all, startAfter, q, n);
    if !page.isTruncated then Merged(page.objects, page.commonPrefixes, true) else
    var rest := Follow(all, page.nextStartAfter, q, n, steps - 1);
    Merged(page.objects + rest.objects, page.commonPrefixes + rest.commonPrefixes, rest.finished)
  }

  function Whole(all: seq<Bytes>, startAfter: Bytes, q: Query): Merged {
    Merged(ObjectsOf(Entries(all, startAfter, q)), GroupsOf(Entries(all, startAfter, q)), true)
  }

  lemma EntriesAscend(all: seq<Bytes>, startAfter: Bytes, q: Query)
    requires Sorted(all) && q.Keys(all)
    ensures Ascending(Entries(all, startAfter, q))
  {
    WalkAscending(After(all, startAfter), {}, q);
  }

  lemma AfterMembers(all: seq<Bytes>, cursor: Bytes, key: Bytes)
    requires Sorted(all)
    ensures key in After(all, cursor) <==> key in all && Less(cursor, key)
  {
    hide Less;
    var p, rest := Position(all, cursor), After(all, cursor);
    if key in all {
      var i :| 0 <= i < |all| && all[i] == key;
      KeysPast(all, cursor, i);
      assert p <= i ==> rest[i - p] == key;
    }
    if key in rest {
      var j :| 0 <= j < |rest| && rest[j] == key;
      KeysPast(all, cursor, p + j);
    }
  }

  // What the whole listing is: the keys past the start that roll up into no
  // group, the groups of those that do, each once, in ascending order.
  lemma EntriesAreTheListing(all: seq<Bytes>, startAfter: Bytes, q: Query)
    requires Sorted(all) && q.Keys(all)
    ensures forall e :: e in Entries(all, startAfter, q) <==>
      exists k :: k in all && Less(startAfter, k) && q.EntryOf(k) == e
    ensures Ascending(Entries(all, startAfter, q))
  {
    EntriesAscend(all, startAfter, q);
    hide Less, Sorted, Query.Keys, Position;
    forall e ensures e in Entries(all, startAfter, q) <==>
      exists k :: k in all && Less(startAfter, k) && q.EntryOf(k) == e
    {
      WalkMembers(After(all, startAfter), {}, q, e);
      forall k ensures k in After(all, startAfter) <==> k in all && Less(startAfter, k) {
        AfterMembers(all, startAfter, k);
      }
    }
  }

  // ------------------------------------------------- resuming a tidy listing

  lemma {:induction false} SeenAllMembers(es: seq<Entry>, seen: set<Bytes>, g: Bytes)
    requires g in SeenAll(es, seen)
    ensures g in seen || GroupEntry(g) in es
  {
    if es != [] {
      SeenAllMembers(es[1..], SeenAfter(es[0], seen), g);
    }
  }

  lemma {:induction false} WalkIgnores(ks: seq<Bytes>, s1: set<Bytes>, s2: set<Bytes>, q: Query)
    requires forall i :: 0 <= i < |ks| ==> Passed(q.EntryOf(ks[i]), s1) == Passed(q.EntryOf(ks[i]), s2)
    ensures Walk(ks, s1, q) == Walk(ks, s2, q)
  {
    if ks != [] {
      var e := q.EntryOf(ks[0]);
      WalkStep(ks, s1, q);
      WalkStep(ks, s2, q);
      forall i | 0 <= i < |ks[1..]|
        ensures Passed(q.EntryOf(ks[1..][i]), SeenAfter(e, s1)) == Passed(q.EntryOf(ks[1..][i]), SeenAfter(e, s2))
      {
        assert ks[1..][i] == ks[i + 1];
      }
      WalkIgnores(ks[1..], SeenAfter(e, s1), SeenAfter(e, s2), q);
    }
  }

  // On tidy keys an entry's cursor lies past the start of its listing.
  lemma CursorMovesOn(all: seq<Bytes>, startAfter: Bytes, q: Query, e: Entry)
    requires Sorted(all) && q.Keys(all) && Tidy(all, startAfter, q) && e in Entries(all, startAfter, q)
    ensures Less(startAfter, Cursor(e))
  {
    EntriesAreTheListing(all, startAfter, q);
    var k :| k in all && Less(startAfter, k) && q.EntryOf(k) == e;
    var i :| 0 <= i < |all| && all[i] == k;
    KeysPast(all, startAfter, i);
    assert TidyKey(all[i], q);
    AtMostTransitive(startAfter, k, Cursor(e));
  }

  lemma KeysPast(all: seq<Bytes>, cursor: Bytes, i: nat)
    requires Sorted(all) && i < |all|
    ensures Position(all, cursor) <= i <==> Less(cursor, all[i])
  {
    PositionSplits(all, cursor);
    LessTotal(cursor, all[i]);
    if Less(cursor, all[i]) {
      LessAsymmetric(cursor, all[i]);
    }
  }

  lemma TidyFurther(all: seq<Bytes>, startAfter: Bytes, cursor: Bytes, q: Query)
    requires Sorted(all) && Tidy(all, startAfter, q) && Less(startAfter, cursor)
    ensures Tidy(all, cursor, q)
  {
    forall i | Position(all, cursor) <= i < |all| ensures TidyKey(all[i], q) {
      KeysPast(all, cursor, i);
      LessTransitive(startAfter, cursor, all[i]);
      KeysPast(all, startAfter, i);
    }
  }

  // No key past an entry's cursor belongs to a group listed by then.
  lemma NoneLeftOver(all: seq<Bytes>, startAfter: Bytes, q: Query, m: nat, i: nat, g: Bytes)
    requires Sorted(all) && q.Keys(all) && Tidy(all, startAfter, q)
    requires 1 <= m <= |Entries(all, startAfter, q)|
    requires
      var c := Cursor(Entries(all, startAfter, q)[m - 1]);
      Position(all, c) <= i < |all| && Tidy(all, c, q)
    requires GroupEntry(g) in Entries(all, startAfter, q)[..m]
    ensures q.EntryOf(all[i]) != GroupEntry(g)
  {
    hide Entries, Less, Position, Sorted, Query.Keys, Query.EntryOf, Cursor, Ascending;
    var c := Cursor(Entries(all, startAfter, q)[m - 1]);
    ListedByThen(all, startAfter, q, m, GroupEntry(g));
    KeysPast(all, c, i);
    AtMostTransitive(Cursor(GroupEntry(g)), c, all[i]);
    LessAsymmetric(Cursor(GroupEntry(g)), all[i]);
    assert TidyKey(all[i], q);
  }

  lemma ListedByThen(all: seq<Bytes>, startAfter: Bytes, q: Query, m: nat, e: Entry)
    requires Sorted(all) && q.Keys(all)
    requires 1 <= m <= |Entries(all, startAfter, q)| && e in Entries(all, startAfter, q)[..m]
    ensures AtMost(Cursor(e), Cursor(Entries(all, startAfter, q)[m - 1]))
  {
    hide Entries, Less, Sorted, Query.Keys, Cursor;
    EntriesAscend(all, startAfter, q);
    var es := Entries(all, startAfter, q);
    var k :| 0 <= k < m && es[k] == e;
  }

  // The listing from an entry's cursor is what came after that entry.
  lemma Resumes(all: seq<Bytes>, startAfter: Bytes, q: Query, m: nat)
    requires Sorted(all) && q.Keys(all) && Tidy(all, startAfter, q)
    requires 1 <= m <= |Entries(all, startAfter, q)|
    ensures
      var es := Entries(all, startAfter, q);
      var c := Cursor(es[m - 1]);
      Tidy(all, c, q) && Entries(all, c, q) == es[m..]
  {
    var es := Entries(all, startAfter, q);
    var c := Cursor(es[m - 1]);
    CursorMovesOn(all, startAfter, q, es[m - 1]);
    TidyFurther(all, startAfter, c, q);
    WalkResumes(all, Position(all, startAfter), {}, q, m);
    var seen, rest := SeenAll(es[..m], {}), After(all, c);
    hide Tidy, Sorted, Query.Keys, Cursor, Less, Position;
    forall i | 0 <= i < |rest| ensures !Passed(q.EntryOf(rest[i]), seen) {
      NotPassed(all, startAfter, q, m, i);
    }
    WalkIgnores(rest, seen, {}, q);
  }

  lemma NotPassed(all: seq<Bytes>, startAfter: Bytes, q: Query, m: nat, i: nat)
    requires Sorted(all) && q.Keys(all) && Tidy(all, startAfter, q)
    requires 1 <= m <= |Entries(all, startAfter, q)|
    requires
      var c := Cursor(Entries(all, startAfter, q)[m - 1]);
      i < |After(all, c)| && Tidy(all, c, q)
    ensures
      var es := Entries(all, startAfter, q);
      !Passed(q.EntryOf(After(all, Cursor(es[m - 1]))[i]), SeenAll(es[..m], {}))
  {
    hide Entries, Less, Tidy, Sorted, Query.Keys;
    var es := Entries(all, startAfter, q);
    var c := Cursor(es[m - 1]);
    var e := q.EntryOf(After(all, c)[i]);
    if Passed(e, SeenAll(es[..m], {})) {
      SeenAllMembers(es[..m], {}, e.group);
      NoneLeftOver(all, startAfter, q, m, Position(all, c) + i, e.group);
    }
  }

  // ------------------------------------------------------------- theorems

  lemma {:induction false} PartsConcat(a: seq<Entry>, b: seq<Entry>)
    ensures ObjectsOf(a + b) == ObjectsOf(a) + ObjectsOf(b)
    ensures GroupsOf(a + b) == GroupsOf(a) + GroupsOf(b)
  {
    if b == [] {
      assert a + b == a;
    } else {
      assert (a + b)[..|a + b| - 1] == a + b[..|b| - 1];
      PartsConcat(a, b[..|b| - 1]);
    }
  }

  // A truncated page is followed by one that is not empty, on any keys; on tidy
  // keys a page is truncated exactly when there are more entries than it holds.
  lemma TruncatedMeansMore(all: seq<Bytes>, startAfter: Bytes, q: Query, n: nat)
    requires Sorted(all) && q.Keys(all) && n >= 1
    ensures
      var page := Page(all, startAfter, q, n);
      page.isTruncated ==> Entries(all, page.nextStartAfter, q) != []
    ensures Tidy(all, startAfter, q) ==>
      (Page(all, startAfter, q, n).isTruncated <==> |Entries(all, startAfter, q)| > n)
  {
    var es := Entries(all, startAfter, q);
    if |es| >= n {
      var c := Cursor(es[n - 1]);
      assert First(es, n)[n - 1] == es[n - 1];
      if Tidy(all, startAfter, q) {
        Resumes(all, startAfter, q, n);
        assert |es| > n <==> Entries(all, c, q) != [];
      }
    }
  }

  // Any page size and enough pages give the whole listing and then stop.
  lemma {:induction false} PagesAreTheListing(all: seq<Bytes>, startAfter: Bytes, q: Query, n: nat, steps: nat)
    requires Sorted(all) && q.Keys(all) && Tidy(all, startAfter, q)
    requires n >= 1 && steps > |Entries(all, startAfter, q)|
    ensures Follow(all, startAfter, q, n, steps) == Whole(all, startAfter, q)
    decreases steps
  {
    var es := Entries(all, startAfter, q);
    hide Tidy, Sorted, Query.Keys, ObjectsOf, GroupsOf, Entries, Cursor;
    TruncatedMeansMore(all, startAfter, q, n);
    if |es| > n {
      var c := Cursor(es[n - 1]);
      assert First(es, n)[n - 1] == es[n - 1];
      Resumes(all, startAfter, q, n);
      PagesAreTheListing(all, c, q, n, steps - 1);
      assert es == es[..n] + es[n..];
      PartsConcat(es[..n], es[n..]);
    } else {
      assert First(es, n) == es;
    }
  }

  ghost predicate Completes(all: seq<Bytes>, startAfter: Bytes, q: Query, n: nat)
    requires n >= 1
  {
    exists steps: nat :: Follow(all, startAfter, q, n, steps) == Whole(all, startAfter, q)
  }

  // The next cursor of a one-entry page stays below a key that is not tidy.
  lemma CursorStaysBelow(all: seq<Bytes>, startAfter: Bytes, q: Query, j: nat)
    requires Sorted(all) && q.Keys(all) && Position(all, startAfter) <= j < |all| && !TidyKey(all[j], q)
    ensures
      var page := Page(all, startAfter, q, 1);
      page.isTruncated && Position(all, page.nextStartAfter) <= j
  {
    FirstOfOne(all, startAfter, q);
    hide Less, Sorted, Query.Keys, Query.EntryOf, Cursor, Page;
    var p := Position(all, startAfter);
    BelowUntidy(all, q, p, j);
    KeysPast(all, Cursor(q.EntryOf(all[p])), j);
  }

  // A page of one holds the entry of the first key, and is truncated wherever
  // keys remain past its cursor.
  lemma FirstOfOne(all: seq<Bytes>, startAfter: Bytes, q: Query)
    requires Position(all, startAfter) < |all|
    ensures
      var page, c := Page(all, startAfter, q, 1), Cursor(q.EntryOf(all[Position(all, startAfter)]));
      Position(all, c) < |all| ==> page.isTruncated && page.nextStartAfter == c
  {
    var p := Position(all, startAfter);
    hide Position, Cursor, Query.EntryOf;
    WalkStep(all[p..], {}, q);
    assert First(Entries(all, startAfter, q), 1) == [q.EntryOf(all[p])];
  }

  lemma BelowUntidy(all: seq<Bytes>, q: Query, p: nat, j: nat)
    requires Sorted(all) && q.Keys(all) && p <= j < |all| && !TidyKey(all[j], q)
    ensures Less(Cursor(q.EntryOf(all[p])), all[j])
  {
    hide Less;
    var e, u := q.EntryOf(all[p]), q.EntryOf(all[j]);
    LessTotal(Cursor(u), all[j]);
    if e != u && e.GroupEntry? {
      EntriesOrdered(all[p], all[j], q);
      LessTransitive(Cursor(e), Cursor(u), all[j]);
    }
  }

  lemma {:induction false} UntidyNeverFinishes(all: seq<Bytes>, startAfter: Bytes, q: Query, j: nat, steps: nat)
    requires Sorted(all) && q.Keys(all) && Position(all, startAfter) <= j < |all| && !TidyKey(all[j], q)
    ensures !Follow(all, startAfter, q, 1, steps).finished
    decreases steps
  {
    hide Page, Position, TidyKey, Sorted, Query.Keys;
    if steps > 0 {
      CursorStaysBelow(all, startAfter, q, j);
      UntidyNeverFinishes(all, Page(all, startAfter, q, 1).nextStartAfter, q, j, steps - 1);
    }
  }

  // Exactly when pagination can be relied on, at every page size the API allows.
  lemma PagesCompleteIffTidy(all: seq<Bytes>, startAfter: Bytes, q: Query)
    requires Sorted(all) && q.Keys(all)
    ensures (forall n :: 1 <= n <= MAX_MAX_KEYS ==> Completes(all, startAfter, q, n)) <==> Tidy(all, startAfter, q)
  {
    if Tidy(all, startAfter, q) {
      forall n | 1 <= n <= MAX_MAX_KEYS ensures Completes(all, startAfter, q, n) {
        PagesAreTheListing(all, startAfter, q, n, |Entries(all, startAfter, q)| + 1);
      }
    } else {
      var j :| Position(all, startAfter) <= j < |all| && !TidyKey(all[j], q);
      forall steps: nat ensures Follow(all, startAfter, q, 1, steps) != Whole(all, startAfter, q) {
        UntidyNeverFinishes(all, startAfter, q, j, steps);
      }
      assert !Completes(all, startAfter, q, 1);
    }
  }

  // One key on which the pages never end: "/" then U+10FFFF then "a".
  lemma EndlessPages(steps: nat)
    ensures
      var slash: Bytes := [0x2F];
      !Follow([slash + HIGHEST_RUNE + [0x61]], [], Query([], slash), 1, steps).finished
  {
    var slash: Bytes := [0x2F];
    var k := slash + HIGHEST_RUNE + [0x61];
    var q := Query([], slash);
    assert k[|q.prefix|..] == k;
    assert HasPrefix(k, slash) && IndexOf(k, slash) == 0;
    assert q.EntryOf(k) == GroupEntry(slash);
    PrefixAtMost(slash + HIGHEST_RUNE, k);
    LessAsymmetric(slash + HIGHEST_RUNE, k);
    UntidyNeverFinishes([k], [], q, 0, steps);
  }
}
