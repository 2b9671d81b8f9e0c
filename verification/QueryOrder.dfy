// Two orders on query parameters: Presign sorts the strings "name=value", the
// canonical query sorts by name and then value. When they agree, and when not.
module QueryOrder {
  import opened Bytes
  import opened Text
  import opened Sorting
  import opened Encoding

  // n1 is a proper prefix of n2, and what follows in n2 sorts before "=".
  predicate Clash(n1: Bytes, n2: Bytes) {
    |n1| < |n2| && HasPrefix(n2, n1) && n2[|n1|] < EQUALS
  }

  lemma {:induction false} ClashSwaps(a: Param, b: Param)
    requires Clash(a.name, b.name)
    ensures Less(Pair(b), Pair(a)) && Less(a.name, b.name)
  {
    var n := a.name;
    assert b.name == n + b.name[|n|..];
    LessAppend(n, [], b.name[|n|..]);
    assert n + [] == n;
    LessAppend(n, b.name[|n|..] + [EQUALS] + b.value, [EQUALS] + a.value);
    assert Pair(b) == n + (b.name[|n|..] + [EQUALS] + b.value);
    assert Pair(a) == n + ([EQUALS] + a.value);
  }

  predicate NameChars(s: Bytes) {
    EQUALS !in s
  }

  lemma ClashTail(a: Bytes, b: Bytes)
    requires a != [] && b != [] && a[0] == b[0]
    ensures Clash(a[1..], b[1..]) <==> Clash(a, b)
  {
    assert a == [a[0]] + a[1..] && b == [b[0]] + b[1..];
  }

  lemma {:induction false} NamesDecide(a: Bytes, va: Bytes, b: Bytes, vb: Bytes)
    requires NameChars(a) && NameChars(b) && !Clash(a, b) && Less(a, b)
    ensures Less(a + [EQUALS] + va, b + [EQUALS] + vb)
  {
    if a == [] {
      assert HasPrefix(b, a) && b[0] > EQUALS;
    } else if a[0] == b[0] {
      assert (a + [EQUALS] + va)[1..] == a[1..] + [EQUALS] + va;
      assert (b + [EQUALS] + vb)[1..] == b[1..] + [EQUALS] + vb;
      ClashTail(a, b);
      NamesDecide(a[1..], va, b[1..], vb);
    }
  }

  lemma PairOrder(a: Param, b: Param)
    requires NameChars(a.name) && NameChars(b.name) && !Clash(a.name, b.name) && !Clash(b.name, a.name)
    ensures AtMost(Pair(a), Pair(b)) ==> ParamAtMost(a, b)
  {
    LessTotal(a.name, b.name);
    if a.name == b.name {
      LessAppend(a.name + [EQUALS], a.value, b.value);
      if Pair(a) == Pair(b) {
        assert Pair(a)[|a.name| + 1..] == a.value && Pair(b)[|a.name| + 1..] == b.value;
      }
    } else if Less(b.name, a.name) {
      NamesDecide(b.name, b.value, a.name, a.value);
      LessAsymmetric(Pair(b), Pair(a));
    }
  }

  // ------------------------------------------------- the query that is signed

  function PairsOf(ps: seq<Param>): seq<Bytes> {
    Mapped(Pair, Mapped(EncodedParam, ps))
  }

  function SignedQuery(ps: seq<Param>): Bytes {
    JoinedBy(Sort(PairsOf(ps), AtMost), AMPERSAND)
  }

  function RawParam(pair: Bytes): Param {
    var cut := Cut(pair, EQUALS);
    Param(cut.before, cut.after)
  }

  // The parameters in the order their "name=value" strings are sorted.
  function ByPair(ps: seq<Param>): seq<Param> {
    Mapped(RawParam, Sort(PairsOf(ps), AtMost))
  }

  lemma RawParamOfPair(p: Param)
    requires NameChars(p.name)
    ensures RawParam(Pair(p)) == p
  {
    CutJoins(p.name, EQUALS, p.value);
  }

  lemma {:induction false} JoinIsRender(ps: seq<Param>)
    ensures JoinedBy(Mapped(Pair, ps), AMPERSAND) == Render(ps)
  {
    if |ps| > 1 {
      assert Mapped(Pair, ps)[1..] == Mapped(Pair, ps[1..]);
      JoinIsRender(ps[1..]);
    }
  }

  lemma PairsOfParse(es: seq<Param>)
    requires PlainParams(es)
    ensures Mapped(RawParam, Mapped(Pair, es)) == es
  {
    forall i | 0 <= i < |es| ensures RawParam(Pair(es[i])) == es[i] {
      assert Plain(es[i].name);
      RawParamOfPair(es[i]);
    }
  }

  // Every string being sorted is the pair of its own parameter.
  lemma PairsStay(ps: seq<Param>)
    ensures
      var pairs := Sort(PairsOf(ps), AtMost);
      && multiset(pairs) == multiset(PairsOf(ps)) && Ordered(pairs, AtMost)
      && forall i :: 0 <= i < |pairs| ==>
           pairs[i] == Pair(RawParam(pairs[i])) && Plain(RawParam(pairs[i]).name) && Plain(RawParam(pairs[i]).value)
  {
    var es, all, pairs := Mapped(EncodedParam, ps), PairsOf(ps), Sort(PairsOf(ps), AtMost);
    BytesAreOrdered();
    SortSorts(all, AtMost);
    DecodedBack(ps);
    forall i | 0 <= i < |pairs|
      ensures pairs[i] == Pair(RawParam(pairs[i])) && Plain(RawParam(pairs[i]).name) && Plain(RawParam(pairs[i]).value)
    {
      assert pairs[i] in multiset(all);
      var j :| 0 <= j < |all| && all[j] == pairs[i];
      assert Plain(es[j].name) && Plain(es[j].value);
      RawParamOfPair(es[j]);
    }
  }

  lemma ByPairKeeps(ps: seq<Param>)
    ensures PlainParams(ByPair(ps)) && SignedQuery(ps) == Render(ByPair(ps))
    ensures multiset(ByPair(ps)) == multiset(Mapped(EncodedParam, ps))
    ensures Ordered(Mapped(Pair, ByPair(ps)), AtMost)
  {
    var pairs := Sort(PairsOf(ps), AtMost);
    PairsStay(ps);
    assert Mapped(Pair, ByPair(ps)) == pairs;
    JoinIsRender(ByPair(ps));
    DecodedBack(ps);
    PairsOfParse(Mapped(EncodedParam, ps));
    MappedMultiset(RawParam, pairs, PairsOf(ps));
  }

  lemma RenderedSize(ps: seq<Param>)
    ensures ps != [] ==> |Render(ps)| > 0
  {
  }

  lemma {:induction false} RenderInjective(a: seq<Param>, b: seq<Param>)
    requires PlainParams(a) && PlainParams(b) && Render(a) == Render(b)
    ensures a == b
  {
    RenderedSize(a);
    RenderedSize(b);
    if a != [] && b != [] {
      RenderSplits(a);
      RenderSplits(b);
      PairsOfParse(a);
      PairsOfParse(b);
    }
  }

  ghost predicate NoClashes(ps: seq<Param>) {
    forall p, q :: p in ps && q in ps ==> !Clash(Encoded(p.name, true), Encoded(q.name, true))
  }

  lemma NoClashesAmong(ps: seq<Param>, fs: seq<Param>)
    requires multiset(fs) == multiset(Mapped(EncodedParam, ps))
    ensures NoClashes(ps) <==> forall i, j :: 0 <= i < |fs| && 0 <= j < |fs| ==> !Clash(fs[i].name, fs[j].name)
  {
    var es := Mapped(EncodedParam, ps);
    forall i | 0 <= i < |fs| ensures exists p :: p in ps && EncodedParam(p) == fs[i] {
      assert fs[i] in multiset(es);
      var k :| 0 <= k < |es| && es[k] == fs[i];
      assert EncodedParam(ps[k]) == fs[i];
    }
    forall p | p in ps ensures EncodedParam(p) in fs {
      var k :| 0 <= k < |ps| && ps[k] == p;
      assert es[k] in multiset(fs);
    }
  }

  // The two orders put the parameters in one sequence exactly when no encoded
  // name is a proper prefix of another that goes on with a byte below "=".
  lemma OrdersAgreeIff(ps: seq<Param>)
    ensures Ordered(ByPair(ps), ParamAtMost) <==> NoClashes(ps)
  {
    var fs := ByPair(ps);
    ByPairKeeps(ps);
    NoClashesAmong(ps, fs);
    var pairs := Mapped(Pair, fs);
    if NoClashes(ps) {
      forall i, j | 0 <= i < j < |fs| ensures ParamAtMost(fs[i], fs[j]) {
        assert AtMost(pairs[i], pairs[j]);
        assert Plain(fs[i].name) && Plain(fs[j].name);
        PairOrder(fs[i], fs[j]);
      }
    } else {
      var i, j :| 0 <= i < |fs| && 0 <= j < |fs| && Clash(fs[i].name, fs[j].name);
      ClashMisplaces(fs, i, j);
    }
  }

  lemma ClashMisplaces(fs: seq<Param>, i: nat, j: nat)
    requires i < |fs| && j < |fs| && Clash(fs[i].name, fs[j].name) && Ordered(Mapped(Pair, fs), AtMost)
    ensures !Ordered(fs, ParamAtMost)
  {
    var pairs := Mapped(Pair, fs);
    ClashSwaps(fs[i], fs[j]);
    LessAsymmetric(pairs[j], pairs[i]);
    LessAsymmetric(fs[i].name, fs[j].name);
    if i < j {
      assert false;
    }
    assert i != j;
    assert !ParamAtMost(fs[j], fs[i]);
  }

  // What Presign signs is what the server will canonicalise it to, exactly when
  // the orders agree.
  lemma SignedIsCanonicalIff(ps: seq<Param>)
    ensures SignedQuery(ps) == Render(SortedParams(ps)) <==> NoClashes(ps)
  {
    var fs, es := ByPair(ps), Mapped(EncodedParam, ps);
    ByPairKeeps(ps);
    OrdersAgreeIff(ps);
    ParamsAreOrdered();
    SortUnique(fs, es, ParamAtMost);
    SortedParamsDecode(ps);
    if Render(fs) == Render(SortedParams(ps)) {
      RenderInjective(fs, SortedParams(ps));
    }
  }
}
