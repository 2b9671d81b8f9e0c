// Byte strings in the order object keys are compared: COLLATE "C" and Go's
// string comparison, byte by byte with a proper prefix first.
module Bytes {
  type byte = b: int | 0 <= b < 256

  type Bytes = seq<byte>

  predicate Less(a: Bytes, b: Bytes) {
    b != [] && (a == [] || a[0] < b[0] || (a[0] == b[0] && Less(a[1..], b[1..])))
  }

  predicate AtMost(a: Bytes, b: Bytes) {
    a == b || Less(a, b)
  }

  // p <= k on sequences: k starts with p.
  predicate HasPrefix(k: Bytes, p: Bytes) {
    p <= k
  }

  lemma {:induction false} LessIrreflexive(a: Bytes)
    ensures !Less(a, a)
  {
    if a != [] {
      LessIrreflexive(a[1..]);
    }
  }

  lemma {:induction false} LessTotal(a: Bytes, b: Bytes)
    ensures Less(a, b) || a == b || Less(b, a)
  {
    if a != [] && b != [] && a[0] == b[0] {
      LessTotal(a[1..], b[1..]);
      assert a == [a[0]] + a[1..] && b == [b[0]] + b[1..];
    }
  }

  lemma {:induction false} LessTransitive(a: Bytes, b: Bytes, c: Bytes)
    requires Less(a, b) && Less(b, c)
    ensures Less(a, c)
  {
    if a != [] && a[0] == b[0] == c[0] {
      LessTransitive(a[1..], b[1..], c[1..]);
    }
  }

  lemma LessAsymmetric(a: Bytes, b: Bytes)
    requires Less(a, b)
    ensures !Less(b, a) && a != b
  {
    LessIrreflexive(a);
    if Less(b, a) {
      LessTransitive(a, b, a);
    }
  }

  lemma AtMostTransitive(a: Bytes, b: Bytes, c: Bytes)
    requires AtMost(a, b) && AtMost(b, c)
    ensures AtMost(a, c)
    ensures Less(a, b) || Less(b, c) ==> Less(a, c)
  {
    if a != b && b != c {
      LessTransitive(a, b, c);
    }
  }

  lemma {:induction false} PrefixAtMost(p: Bytes, k: Bytes)
    requires HasPrefix(k, p)
    ensures AtMost(p, k)
  {
    if p != [] {
      PrefixAtMost(p[1..], k[1..]);
      assert p == [p[0]] + p[1..] && k == [k[0]] + k[1..];
    }
  }

  // The strings starting with p are contiguous in the order.
  lemma {:induction false} PrefixConvex(p: Bytes, a: Bytes, b: Bytes, c: Bytes)
    requires HasPrefix(a, p) && HasPrefix(c, p) && AtMost(a, b) && AtMost(b, c)
    ensures HasPrefix(b, p)
  {
    LessTotal(a, b);
    if p != [] && b != a && b != c {
      LessAsymmetric(a, b);
      LessAsymmetric(b, c);
      assert a[0] == p[0] == c[0] && b != [] && b[0] == p[0];
      PrefixConvex(p[1..], a[1..], b[1..], c[1..]);
    }
  }

  lemma {:induction false} LessAppend(p: Bytes, a: Bytes, b: Bytes)
    ensures Less(p + a, p + b) <==> Less(a, b)
  {
    if p == [] {
      assert p + a == a && p + b == b;
    } else {
      assert (p + a)[1..] == p[1..] + a && (p + b)[1..] == p[1..] + b;
      LessAppend(p[1..], a, b);
    }
  }

  ghost predicate Sorted(ks: seq<Bytes>) {
    forall i, j :: 0 <= i < j < |ks| ==> Less(ks[i], ks[j])
  }

  // ------------------------------------------------------- searching

  // The least index at which sub occurs in s, or -1.
  function IndexOf(s: Bytes, sub: Bytes): (i: int)
    ensures -1 <= i <= |s|
    ensures i >= 0 ==> HasPrefix(s[i..], sub)
  {
    if HasPrefix(s, sub) then 0
    else if s == [] then -1
    else
      var rest := IndexOf(s[1..], sub);
      if rest < 0 then -1 else rest + 1
  }

  lemma {:induction false} IndexOfIsLeast(s: Bytes, sub: Bytes)
    ensures forall j :: 0 <= j <= |s| && HasPrefix(s[j..], sub) ==> 0 <= IndexOf(s, sub) <= j
  {
    if s != [] && !HasPrefix(s, sub) {
      IndexOfIsLeast(s[1..], sub);
      forall j | 0 <= j <= |s| && HasPrefix(s[j..], sub) ensures 0 <= IndexOf(s, sub) <= j {
        assert s[0..] == s;
        if j > 0 {
          assert s[j..] == s[1..][j - 1..];
        }
      }
    } else if s == [] {
      assert s[0..] == s;
    }
  }

  lemma IndexOfFound(s: Bytes, sub: Bytes, j: nat)
    requires j <= |s| && HasPrefix(s[j..], sub)
    ensures 0 <= IndexOf(s, sub) <= j
  {
    IndexOfIsLeast(s, sub);
  }

  // A text around the first occurrence of sub in it.
  lemma AroundFirst(s: Bytes, sub: Bytes)
    requires IndexOf(s, sub) >= 0
    ensures
      var i := IndexOf(s, sub);
      && i + |sub| <= |s| && s == s[..i] + sub + s[i + |sub|..]
      && forall j :: 0 <= j < i ==> !HasPrefix(s[j..], sub)
  {
    IndexOfIsLeast(s, sub);
  }

  lemma IndexIs(s: Bytes, sub: Bytes, n: nat)
    requires n <= |s| && HasPrefix(s[n..], sub) && forall j :: 0 <= j < n ==> !HasPrefix(s[j..], sub)
    ensures IndexOf(s, sub) == n
  {
    hide IndexOf, HasPrefix;
    IndexOfFound(s, sub, n);
  }

  lemma InThree(a: Bytes, b: Bytes, c: Bytes)
    ensures
      var s := a + b + c;
      && s[..|a|] == a && s[|a|..] == b + c && s[|a| + |b|..] == c
      && HasPrefix(b + c, b)
  {
  }

  lemma FirstIs(a: Bytes, sub: Bytes, rest: Bytes)
    requires forall j :: 0 <= j < |a| ==> !HasPrefix((a + sub + rest)[j..], sub)
    ensures
      var s := a + sub + rest;
      IndexOf(s, sub) == |a| && s[..|a|] == a && s[|a| + |sub|..] == rest
  {
    hide IndexOf, HasPrefix;
    var s := a + sub + rest;
    InThree(a, sub, rest);
    IndexIs(s, sub, |a|);
  }
}
