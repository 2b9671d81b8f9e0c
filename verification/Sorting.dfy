// Sorting by a total order: sort.Slice and slices.Sort, whose result is fixed by
// the multiset of what they sort.
module Sorting {
  ghost predicate TotalOrder<T(!new)>(atMost: (T, T) -> bool) {
    && (forall a, b :: atMost(a, b) || atMost(b, a))
    && (forall a, b :: atMost(a, b) && atMost(b, a) ==> a == b)
    && (forall a, b, c :: atMost(a, b) && atMost(b, c) ==> atMost(a, c))
  }

  ghost predicate Ordered<T(!new)>(s: seq<T>, atMost: (T, T) -> bool) {
    forall i, j :: 0 <= i < j < |s| ==> atMost(s[i], s[j])
  }

  function Insert<T>(x: T, s: seq<T>, atMost: (T, T) -> bool): seq<T> {
    if s == [] then [x] else if atMost(x, s[0]) then [x] + s else [s[0]] + Insert(x, s[1..], atMost)
  }

  function Sort<T>(s: seq<T>, atMost: (T, T) -> bool): seq<T> {
    if s == [] then [] else Insert(s[0], Sort(s[1..], atMost), atMost)
  }

  lemma OrderedCons<T(!new)>(x: T, s: seq<T>, atMost: (T, T) -> bool)
    requires Ordered(s, atMost) && forall y :: y in s ==> atMost(x, y)
    ensures Ordered([x] + s, atMost)
  {
  }

  lemma {:induction false} InsertMembers<T>(x: T, s: seq<T>, atMost: (T, T) -> bool)
    ensures multiset(Insert(x, s, atMost)) == multiset(s) + multiset{x}
    ensures forall y :: y in Insert(x, s, atMost) ==> y == x || y in s
  {
    if s != [] && !atMost(x, s[0]) {
      InsertMembers(x, s[1..], atMost);
      assert s == [s[0]] + s[1..];
    }
  }

  lemma {:induction false} InsertKeeps<T(!new)>(x: T, s: seq<T>, atMost: (T, T) -> bool)
    requires TotalOrder(atMost) && Ordered(s, atMost)
    ensures Ordered(Insert(x, s, atMost), atMost)
  {
    if s != [] {
      if atMost(x, s[0]) {
        OrderedCons(x, s, atMost);
      } else {
        InsertKeeps(x, s[1..], atMost);
        InsertMembers(x, s[1..], atMost);
        OrderedCons(s[0], Insert(x, s[1..], atMost), atMost);
      }
    }
  }

  lemma {:induction false} SortSorts<T(!new)>(s: seq<T>, atMost: (T, T) -> bool)
    requires TotalOrder(atMost)
    ensures multiset(Sort(s, atMost)) == multiset(s)
    ensures Ordered(Sort(s, atMost), atMost)
  {
    if s != [] {
      SortSorts(s[1..], atMost);
      InsertMembers(s[0], Sort(s[1..], atMost), atMost);
      InsertKeeps(s[0], Sort(s[1..], atMost), atMost);
      assert s == [s[0]] + s[1..];
    }
  }

  // The head is the least member, whatever sequence holds them.
  lemma HeadsAgree<T(!new)>(a: seq<T>, b: seq<T>, atMost: (T, T) -> bool)
    requires TotalOrder(atMost) && Ordered(a, atMost) && Ordered(b, atMost)
    requires a != [] && multiset(a) == multiset(b)
    ensures b != [] && a[0] == b[0]
  {
    assert a[0] in multiset(b);
    assert b[0] in multiset(a);
    var i :| 0 <= i < |b| && b[i] == a[0];
    var j :| 0 <= j < |a| && a[j] == b[0];
    assert i == 0 || atMost(b[0], b[i]);
    assert j == 0 || atMost(a[0], a[j]);
  }

  lemma TailOrdered<T(!new)>(s: seq<T>, atMost: (T, T) -> bool)
    requires Ordered(s, atMost) && s != []
    ensures Ordered(s[1..], atMost)
  {
  }

  lemma TailMultiset<T>(s: seq<T>)
    requires s != []
    ensures multiset(s[1..]) == multiset(s) - multiset{s[0]}
  {
    assert s == [s[0]] + s[1..];
  }

  // An ordered sequence is determined by what it holds.
  lemma {:induction false} OrderedUnique<T(!new)>(a: seq<T>, b: seq<T>, atMost: (T, T) -> bool)
    requires TotalOrder(atMost) && Ordered(a, atMost) && Ordered(b, atMost)
    requires multiset(a) == multiset(b)
    ensures a == b
  {
    hide TotalOrder, Ordered;
    if a == [] {
      assert |multiset(b)| == 0;
    } else {
      HeadsAgree(a, b, atMost);
      TailMultiset(a);
      TailMultiset(b);
      TailOrdered(a, atMost);
      TailOrdered(b, atMost);
      OrderedUnique(a[1..], b[1..], atMost);
      assert a == [a[0]] + a[1..] && b == [b[0]] + b[1..];
    }
  }

  lemma SortUnique<T(!new)>(a: seq<T>, b: seq<T>, atMost: (T, T) -> bool)
    requires TotalOrder(atMost)
    ensures multiset(a) == multiset(b) <==> Sort(a, atMost) == Sort(b, atMost)
    ensures Ordered(a, atMost) <==> Sort(a, atMost) == a
  {
    SortSorts(a, atMost);
    SortSorts(b, atMost);
    if multiset(a) == multiset(b) {
      OrderedUnique(Sort(a, atMost), Sort(b, atMost), atMost);
    }
    if Ordered(a, atMost) {
      OrderedUnique(Sort(a, atMost), a, atMost);
    }
  }
}
