// The encodings a request signature is computed over: percent-encoding by the
// unreserved set of section 2.3 of RFC 3986, and the canonical query string.
module Encoding {
  import opened Outcomes
  import opened Bytes
  import opened Text
  import opened Sorting

  const PERCENT: byte := 0x25
  const SLASH: byte := 0x2F
  const AMPERSAND: byte := 0x26

  // ------------------------------------------------------ percent-encoding

  predicate IsUnreserved(c: byte) {
    || 0x41 <= c <= 0x5A || 0x61 <= c <= 0x7A || 0x30 <= c <= 0x39
    || c == 0x2D || c == 0x5F || c == 0x2E || c == 0x7E
  }

  function UpperHex(v: nat): byte
    requires v < 16
  {
    if v < 10 then 0x30 + v else 0x41 + v - 10
  }

  function EncodedByte(c: byte, encodeSlash: bool): Bytes {
    if IsUnreserved(c) || (c == SLASH && !encodeSlash) then [c] else [PERCENT, UpperHex(c / 16), UpperHex(c % 16)]
  }

  function Encoded(s: Bytes, encodeSlash: bool): Bytes {
    if s == [] then [] else EncodedByte(s[0], encodeSlash) + Encoded(s[1..], encodeSlash)
  }

  method UriEncode(s: Bytes, encodeSlash: bool) returns (b: Bytes)
    ensures b == Encoded(s, encodeSlash)
  {
    b := [];
    for i := 0 to |s|
      invariant b + Encoded(s[i..], encodeSlash) == Encoded(s, encodeSlash)
    {
      var c := s[i];
      EncodedStep(b, s, i, encodeSlash);
      hide Encoded;
      if IsUnreserved(c) {
        b := b + [c];
      } else if c == SLASH && !encodeSlash {
        b := b + [SLASH];
      } else {
        b := b + [PERCENT, UpperHex(c / 16), UpperHex(c % 16)];
      }
    }
  }

  lemma EncodedStep(b: Bytes, s: Bytes, i: nat, encodeSlash: bool)
    requires i < |s|
    ensures b + Encoded(s[i..], encodeSlash) == b + EncodedByte(s[i], encodeSlash) + Encoded(s[i + 1..], encodeSlash)
  {
    assert s[i..][1..] == s[i + 1..];
  }

  predicate Unreserved(s: Bytes) {
    forall i :: 0 <= i < |s| ==> IsUnreserved(s[i])
  }

  lemma {:induction false} UnreservedIsEncoded(s: Bytes)
    requires Unreserved(s)
    ensures Encoded(s, true) == s
  {
    if s != [] {
      UnreservedIsEncoded(s[1..]);
      assert s == [s[0]] + s[1..];
    }
  }

  function Decoded(s: Bytes): Option<Bytes> {
    if s == [] then Some([]) else
    if s[0] != PERCENT then
      (match Decoded(s[1..]) case Some(rest) => Some([s[0]] + rest) case None => None)
    else if |s| < 3 || !IsHexDigit(s[1]) || !IsHexDigit(s[2]) then None
    else match Decoded(s[3..])
      case Some(rest) => Some([DigitValue(s[1]) * 16 + DigitValue(s[2])] + rest)
      case None => None
  }

  predicate WellEscaped(s: Bytes) {
    forall i :: 0 <= i < |s| && s[i] == PERCENT ==> i + 2 < |s| && IsHexDigit(s[i + 1]) && IsHexDigit(s[i + 2])
  }

  // What decodes is what has two digits after every percent sign.
  lemma {:induction false} DecodesIff(s: Bytes)
    ensures Decoded(s).Some? <==> WellEscaped(s)
  {
    if s != [] {
      if s[0] != PERCENT {
        DecodesIff(s[1..]);
        EscapesFrom(s, 1);
      } else if |s| >= 3 && IsHexDigit(s[1]) && IsHexDigit(s[2]) {
        DecodesIff(s[3..]);
        EscapesFrom(s, 3);
      }
    }
  }

  lemma EscapesFrom(s: Bytes, n: nat)
    requires n <= |s|
    requires forall i :: 0 <= i < n && s[i] == PERCENT ==>
      i + 2 < |s| && IsHexDigit(s[i + 1]) && IsHexDigit(s[i + 2])
    ensures WellEscaped(s) <==> WellEscaped(s[n..])
  {
    hide IsHexDigit;
    if WellEscaped(s) {
      forall i | 0 <= i < |s[n..]| && s[n..][i] == PERCENT
        ensures i + 2 < |s[n..]| && IsHexDigit(s[n..][i + 1]) && IsHexDigit(s[n..][i + 2])
      {
        assert s[n + i] == PERCENT;
      }
    }
    if WellEscaped(s[n..]) {
      forall i | 0 <= i < |s| && s[i] == PERCENT
        ensures i + 2 < |s| && IsHexDigit(s[i + 1]) && IsHexDigit(s[i + 2])
      {
        if i >= n {
          assert s[n..][i - n] == PERCENT;
        }
      }
    }
  }

  // What is left to decode, put after what has been decoded.
  function DecodedAfter(b: Bytes, rest: Bytes): Option<Bytes> {
    match Decoded(rest) case Some(r) => Some(b + r) case None => None
  }

  method PercentDecode(s: Bytes) returns (r: Option<Bytes>)
    ensures r == Decoded(s)
  {
    if PERCENT !in s {
      NothingToDecode(s);
      return Some(s);
    }
    var b: Bytes, i := [], 0;
    AfterNothing(s);
    while i < |s|
      invariant 0 <= i <= |s| && DecodedAfter(b, s[i..]) == Decoded(s)
    {
      DecodedStep(b, s, i);
      hide Decoded, DecodedAfter;
      if s[i] != PERCENT {
        b := b + [s[i]];
      } else {
        if i + 2 >= |s| {
          return None;
        }
        if !IsHexDigit(s[i + 1]) || !IsHexDigit(s[i + 2]) {
          return None;
        }
        b := b + [DigitValue(s[i + 1]) * 16 + DigitValue(s[i + 2])];
        i := i + 2;
      }
      i := i + 1;
    }
    NothingLeft(b);
    return Some(b);
  }

  lemma DecodedStep(b: Bytes, s: Bytes, i: nat)
    requires i < |s|
    ensures s[i] != PERCENT ==> DecodedAfter(b, s[i..]) == DecodedAfter(b + [s[i]], s[i + 1..])
    ensures s[i] == PERCENT && (i + 2 >= |s| || !IsHexDigit(s[i + 1]) || !IsHexDigit(s[i + 2])) ==>
      DecodedAfter(b, s[i..]) == None
    ensures s[i] == PERCENT && i + 2 < |s| && IsHexDigit(s[i + 1]) && IsHexDigit(s[i + 2]) ==>
      DecodedAfter(b, s[i..]) == DecodedAfter(b + [DigitValue(s[i + 1]) * 16 + DigitValue(s[i + 2])], s[i + 3..])
  {
    assert s[i..][1..] == s[i + 1..];
    Shift(b, [s[i]], Decoded(s[i + 1..]));
    if i + 2 < |s| && IsHexDigit(s[i + 1]) && IsHexDigit(s[i + 2]) {
      assert s[i..][3..] == s[i + 3..];
      Shift(b, [DigitValue(s[i + 1]) * 16 + DigitValue(s[i + 2])], Decoded(s[i + 3..]));
    }
  }

  lemma Shift(b: Bytes, c: Bytes, rest: Option<Bytes>)
    ensures rest.Some? ==> b + (c + rest.value) == b + c + rest.value
  {
  }

  lemma AfterNothing(s: Bytes)
    ensures DecodedAfter([], s[0..]) == Decoded(s)
  {
    assert s[0..] == s;
    Shift([], [], Decoded(s));
    assert Decoded(s).Some? ==> [] + Decoded(s).value == Decoded(s).value;
  }

  lemma NothingLeft(b: Bytes)
    ensures DecodedAfter(b, []) == Some(b)
  {
    assert b + [] == b;
  }

  lemma {:induction false} NothingToDecode(s: Bytes)
    requires PERCENT !in s
    ensures Decoded(s) == Some(s)
  {
    if s != [] {
      NothingToDecode(s[1..]);
      assert s == [s[0]] + s[1..];
    }
  }

  lemma EncodedByteDecodes(c: byte, encodeSlash: bool, rest: Bytes)
    ensures Decoded(EncodedByte(c, encodeSlash) + rest) == DecodedAfter([c], rest)
  {
    var e := EncodedByte(c, encodeSlash);
    if |e| == 1 {
      assert (e + rest)[1..] == rest;
    } else {
      assert DigitValue(e[1]) == c / 16 && DigitValue(e[2]) == c % 16;
      assert (e + rest)[3..] == rest;
    }
  }

  // Every byte string comes back, whatever it holds.
  lemma {:induction false} DecodeEncoded(s: Bytes, encodeSlash: bool)
    ensures Decoded(Encoded(s, encodeSlash)) == Some(s)
  {
    if s != [] {
      DecodeEncoded(s[1..], encodeSlash);
      EncodedByteDecodes(s[0], encodeSlash, Encoded(s[1..], encodeSlash));
      assert s == [s[0]] + s[1..];
    }
  }

  lemma {:induction false} EncodedJoins(a: Bytes, b: Bytes, encodeSlash: bool)
    ensures Encoded(a + b, encodeSlash) == Encoded(a, encodeSlash) + Encoded(b, encodeSlash)
  {
    if a == [] {
      assert a + b == b;
    } else {
      assert (a + b)[1..] == a[1..] + b;
      EncodedJoins(a[1..], b, encodeSlash);
    }
  }

  // The two settings differ on slashes alone.
  lemma {:induction false} SettingsAgreeIff(s: Bytes)
    ensures |Encoded(s, true)| >= |Encoded(s, false)|
    ensures Encoded(s, true) == Encoded(s, false) <==> SLASH !in s
  {
    if s != [] {
      SettingsAgreeIff(s[1..]);
      var e, f := Encoded(s[1..], true), Encoded(s[1..], false);
      if s[0] == SLASH {
        assert |Encoded(s, true)| == 3 + |e| && |Encoded(s, false)| == 1 + |f|;
      } else {
        var head := EncodedByte(s[0], true);
        assert Encoded(s, true) == head + e && Encoded(s, false) == head + f;
        assert e == (head + e)[|head|..] && f == (head + f)[|head|..];
      }
    }
  }

  lemma {:induction false} DecodedJoins(a: Bytes, b: Bytes)
    requires Decoded(a).Some?
    ensures Decoded(a + b) == DecodedAfter(Decoded(a).value, b)
  {
    if a == [] {
      assert a + b == b;
      AfterNothing(b);
      assert b[0..] == b;
    } else {
      var n := if a[0] != PERCENT then 1 else 3;
      DecodedJoins(a[n..], b);
      assert (a + b)[n..] == a[n..] + b;
      var c := if n == 1 then a[0] else DigitValue(a[1]) * 16 + DigitValue(a[2]);
      Shift([c], Decoded(a[n..]).value, Decoded(b));
    }
  }

  predicate UnreservedChar(c: char) {
    || 'A' <= c <= 'Z' || 'a' <= c <= 'z' || '0' <= c <= '9'
    || c == '-' || c == '_' || c == '.' || c == '~'
  }

  const UPPER_DIGITS := "0123456789ABCDEF"

  // A byte stands for itself or is written as a percent sign and two digits, of
  // which the letters are capitals.
  lemma EncodedByteIs(c: byte, encodeSlash: bool)
    ensures EncodedByte(c, encodeSlash)
         == if UnreservedChar(c as char) || (c as char == '/' && !encodeSlash) then [c]
            else ['%' as int, UPPER_DIGITS[c / 16] as int, UPPER_DIGITS[c % 16] as int]
  {
    DigitIs(c / 16);
    DigitIs(c % 16);
  }

  lemma DigitIs(v: nat)
    requires v < 16
    ensures UpperHex(v) == UPPER_DIGITS[v] as int
  {
  }

  // An encoded byte is unreserved, a percent sign, or a slash left alone.
  predicate EncodedChar(c: byte, encodeSlash: bool) {
    IsUnreserved(c) || c == PERCENT || (c == SLASH && !encodeSlash)
  }

  lemma {:induction false} EncodedAlphabet(s: Bytes, encodeSlash: bool)
    ensures forall i :: 0 <= i < |Encoded(s, encodeSlash)| ==> EncodedChar(Encoded(s, encodeSlash)[i], encodeSlash)
  {
    if s != [] {
      EncodedAlphabet(s[1..], encodeSlash);
      var head, tail := EncodedByte(s[0], encodeSlash), Encoded(s[1..], encodeSlash);
      assert forall i :: 0 <= i < |head| ==> EncodedChar(head[i], encodeSlash);
    }
  }

  // -------------------------------------------------------------- queries

  datatype Param = Param(name: Bytes, value: Bytes)

  predicate ParamAtMost(a: Param, b: Param) {
    Less(a.name, b.name) || (a.name == b.name && AtMost(a.value, b.value))
  }

  lemma BytesAreOrdered()
    ensures TotalOrder(AtMost)
  {
    forall a, b ensures AtMost(a, b) || AtMost(b, a) {
      LessTotal(a, b);
    }
    forall a, b | AtMost(a, b) && AtMost(b, a) ensures a == b {
      if a != b {
        LessAsymmetric(a, b);
      }
    }
    forall a, b, c | AtMost(a, b) && AtMost(b, c) ensures AtMost(a, c) {
      AtMostTransitive(a, b, c);
    }
  }

  lemma ParamsAreOrdered()
    ensures TotalOrder(ParamAtMost)
  {
    forall a, b ensures ParamAtMost(a, b) || ParamAtMost(b, a) {
      LessTotal(a.name, b.name);
      LessTotal(a.value, b.value);
    }
    forall a, b | ParamAtMost(a, b) && ParamAtMost(b, a) ensures a == b {
      AntisymmetricParams(a, b);
    }
    forall a, b, c | ParamAtMost(a, b) && ParamAtMost(b, c) ensures ParamAtMost(a, c) {
      TransitiveParams(a, b, c);
    }
  }

  lemma AntisymmetricParams(a: Param, b: Param)
    requires ParamAtMost(a, b) && ParamAtMost(b, a)
    ensures a == b
  {
    if Less(a.name, b.name) {
      LessAsymmetric(a.name, b.name);
    }
    if Less(b.name, a.name) {
      LessAsymmetric(b.name, a.name);
    }
    if Less(a.value, b.value) {
      LessAsymmetric(a.value, b.value);
    }
  }

  lemma TransitiveParams(a: Param, b: Param, c: Param)
    requires ParamAtMost(a, b) && ParamAtMost(b, c)
    ensures ParamAtMost(a, c)
  {
    AtMostTransitive(a.name, b.name, c.name);
    if a.name == b.name == c.name {
      LessIrreflexive(a.name);
      AtMostTransitive(a.value, b.value, c.value);
    }
  }

  function DecodedOrRaw(s: Bytes): Bytes {
    match Decoded(s) case Some(d) => d case None => s
  }

  function ParamOf(pair: Bytes): Param {
    var cut := Cut(pair, EQUALS);
    Param(DecodedOrRaw(cut.before), DecodedOrRaw(cut.after))
  }

  // The parameters of a list of pairs, decoded, less those excluded by name.
  function Kept(pairs: seq<Bytes>, excluded: Bytes -> bool): seq<Param> {
    if pairs == [] then [] else
    var p := ParamOf(pairs[0]);
    (if pairs[0] == [] || excluded(p.name) then [] else [p]) + Kept(pairs[1..], excluded)
  }

  function Params(rawQuery: Bytes, excluded: Bytes -> bool): seq<Param> {
    Kept(Split(rawQuery, AMPERSAND), excluded)
  }

  // A pair is cut at its first equals sign; a name alone has the empty value; and
  // what does not decode is taken as it is.
  lemma PairSays(name: Bytes, value: Bytes)
    requires EQUALS !in name
    ensures ParamOf(name + [EQUALS] + value) == Param(DecodedOrRaw(name), DecodedOrRaw(value))
    ensures ParamOf(name) == Param(DecodedOrRaw(name), [])
    ensures !WellEscaped(name) ==> DecodedOrRaw(name) == name
  {
    CutJoins(name, EQUALS, value);
    DecodesIff(name);
    hide WellEscaped, Cut;
  }

  // Every pair that is not empty counts, unless its name is excluded.
  lemma {:induction false} KeptIff(pairs: seq<Bytes>, excluded: Bytes -> bool, p: Param)
    ensures p in Kept(pairs, excluded) <==>
      !excluded(p.name) && exists i :: 0 <= i < |pairs| && pairs[i] != [] && ParamOf(pairs[i]) == p
  {
    hide ParamOf;
    if pairs != [] {
      KeptIff(pairs[1..], excluded, p);
      assert forall i :: 0 < i < |pairs| ==> pairs[i] == pairs[1..][i - 1];
    }
  }

  function EncodedParam(p: Param): Param {
    Param(Encoded(p.name, true), Encoded(p.value, true))
  }

  function DecodedParam(p: Param): Param {
    Param(DecodedOrRaw(p.name), DecodedOrRaw(p.value))
  }

  function Mapped<T, U>(f: T -> U, s: seq<T>): seq<U> {
    seq(|s|, i requires 0 <= i < |s| => f(s[i]))
  }

  lemma MappedAppend<T, U>(f: T -> U, s: seq<T>, x: T)
    ensures Mapped(f, s + [x]) == Mapped(f, s) + [f(x)]
  {
  }

  function Pair(p: Param): Bytes {
    p.name + [EQUALS] + p.value
  }

  function Render(ps: seq<Param>): Bytes {
    if ps == [] then [] else if |ps| == 1 then Pair(ps[0]) else Pair(ps[0]) + [AMPERSAND] + Render(ps[1..])
  }

  function CanonicalQueryOf(rawQuery: Bytes, excluded: Bytes -> bool): Bytes {
    Render(Sort(Mapped(EncodedParam, Params(rawQuery, excluded)), ParamAtMost))
  }

  lemma EmptyQuery(excluded: Bytes -> bool)
    ensures CanonicalQueryOf([], excluded) == []
  {
    assert Split([], AMPERSAND) == [[]];
    assert Kept([[]], excluded) == [];
  }

  lemma KeptStep(kept: seq<Param>, pairs: seq<Bytes>, i: nat, excluded: Bytes -> bool)
    requires i < |pairs|
    ensures
      var p := ParamOf(pairs[i]);
      kept + Kept(pairs[i..], excluded)
      == (if pairs[i] == [] || excluded(p.name) then kept else kept + [p]) + Kept(pairs[i + 1..], excluded)
  {
    assert pairs[i..][1..] == pairs[i + 1..];
  }

  method CanonicalQuery(rawQuery: Bytes, excluded: Bytes -> bool) returns (query: Bytes)
    ensures query == CanonicalQueryOf(rawQuery, excluded)
  {
    if rawQuery == [] {
      EmptyQuery(excluded);
      return [];
    }
    var pairs := Split(rawQuery, AMPERSAND);
    var params: seq<Param> := [];
    ghost var kept: seq<Param> := [];
    for i := 0 to |pairs|
      invariant kept + Kept(pairs[i..], excluded) == Params(rawQuery, excluded)
      invariant params == Mapped(EncodedParam, kept)
    {
      var pair := pairs[i];
      KeptStep(kept, pairs, i, excluded);
      hide Kept, Params, Split, Cut, Decoded, Encoded, Sort, Render, Mapped;
      if pair == [] {
        continue;
      }
      var cut := Cut(pair, EQUALS);
      var name := PercentDecode(cut.before);
      var decodedName := if name.Some? then name.value else cut.before;
      if excluded(decodedName) {
        continue;
      }
      var value := PercentDecode(cut.after);
      var decodedValue := if value.Some? then value.value else cut.after;
      var encodedName := UriEncode(decodedName, true);
      var encodedValue := UriEncode(decodedValue, true);
      MappedAppend(EncodedParam, kept, Param(decodedName, decodedValue));
      params := params + [Param(encodedName, encodedValue)];
      kept := kept + [Param(decodedName, decodedValue)];
    }
    assert kept + [] == kept;
    assert params == Mapped(EncodedParam, Params(rawQuery, excluded));
    params := Sort(params, ParamAtMost);
    query := Join(params);
  }

  // A rendered query, from its i-th parameter on, put after what precedes it.
  function RenderedAfter(b: Bytes, params: seq<Param>, i: nat): Bytes
    requires i <= |params|
  {
    if i == 0 then Render(params) else if i == |params| then b else b + [AMPERSAND] + Render(params[i..])
  }

  lemma RenderStep(b: Bytes, params: seq<Param>, i: nat)
    requires i < |params|
    ensures RenderedAfter(b, params, i)
         == RenderedAfter((if i == 0 then [] else b + [AMPERSAND]) + Pair(params[i]), params, i + 1)
  {
    assert params[i..][1..] == params[i + 1..];
    assert params[0..] == params;
  }

  method Join(params: seq<Param>) returns (b: Bytes)
    ensures b == Render(params)
  {
    b := [];
    for i := 0 to |params|
      invariant RenderedAfter(b, params, i) == Render(params)
      invariant i == 0 ==> b == []
    {
      RenderStep(b, params, i);
      hide RenderedAfter, Render;
      if i > 0 {
        b := b + [AMPERSAND];
      }
      b := b + Pair(params[i]);
    }
  }

  // ------------------------------------------------------------- theorems

  predicate Plain(s: Bytes) {
    AMPERSAND !in s && EQUALS !in s
  }

  lemma EncodedIsPlain(s: Bytes)
    ensures Plain(Encoded(s, true))
    ensures DecodedOrRaw(Encoded(s, true)) == s
  {
    EncodedAlphabet(s, true);
    DecodeEncoded(s, true);
  }

  ghost predicate PlainParams(ps: seq<Param>) {
    forall i :: 0 <= i < |ps| ==> Plain(ps[i].name) && Plain(ps[i].value)
  }

  lemma PairHasNoSeparator(p: Param)
    requires Plain(p.name) && Plain(p.value)
    ensures AMPERSAND !in Pair(p)
  {
  }

  lemma MappedCons<T, U>(f: T -> U, s: seq<T>)
    requires s != []
    ensures Mapped(f, s) == [f(s[0])] + Mapped(f, s[1..]) && Mapped(f, s)[1..] == Mapped(f, s[1..])
  {
  }

  // A rendered query splits back into its pairs.
  lemma {:induction false} RenderSplits(ps: seq<Param>)
    requires PlainParams(ps) && ps != []
    ensures Split(Render(ps), AMPERSAND) == Mapped(Pair, ps)
  {
    assert Plain(ps[0].name) && Plain(ps[0].value);
    PairHasNoSeparator(ps[0]);
    MappedCons(Pair, ps);
    assert PlainParams(ps[1..]);
    hide Split, Pair, Plain, PlainParams, Mapped;
    if |ps| == 1 {
      SplitJoins(Pair(ps[0]), AMPERSAND, []);
      assert |Mapped(Pair, ps)| == 1 by {
        MappedSize(Pair, ps);
      }
    } else {
      SplitJoins(Pair(ps[0]), AMPERSAND, Render(ps[1..]));
      RenderSplits(ps[1..]);
    }
  }

  lemma MappedSize<T, U>(f: T -> U, s: seq<T>)
    ensures |Mapped(f, s)| == |s|
  {
  }

  lemma PairParses(p: Param)
    requires Plain(p.name)
    ensures Pair(p) != [] && ParamOf(Pair(p)) == DecodedParam(p)
  {
    CutJoins(p.name, EQUALS, p.value);
  }

  lemma {:induction false} KeptPairs(ps: seq<Param>, excluded: Bytes -> bool)
    requires PlainParams(ps)
    requires forall i :: 0 <= i < |ps| ==> !excluded(DecodedParam(ps[i]).name)
    ensures Kept(Mapped(Pair, ps), excluded) == Mapped(DecodedParam, ps)
  {
    if ps != [] {
      PairParses(ps[0]);
      MappedCons(Pair, ps);
      MappedCons(DecodedParam, ps);
      assert PlainParams(ps[1..]);
      assert !excluded(DecodedParam(ps[0]).name);
      assert forall i :: 0 <= i < |ps[1..]| ==> !excluded(DecodedParam(ps[1..][i]).name);
      hide PlainParams, Pair, DecodedParam, ParamOf, Mapped;
      KeptPairs(ps[1..], excluded);
    }
  }

  // What a rendered list of encoded parameters is read back as.
  lemma RenderReadsBack(ps: seq<Param>, excluded: Bytes -> bool)
    requires PlainParams(ps)
    requires forall i :: 0 <= i < |ps| ==> !excluded(DecodedParam(ps[i]).name)
    ensures Params(Render(ps), excluded) == Mapped(DecodedParam, ps)
  {
    if ps == [] {
      assert Split([], AMPERSAND) == [[]];
      assert Kept([[]], excluded) == [];
    } else {
      RenderSplits(ps);
      KeptPairs(ps, excluded);
    }
  }

  lemma WithoutOne<T>(s: seq<T>, i: nat)
    requires i < |s|
    ensures multiset(s[..i] + s[i + 1..]) == multiset(s) - multiset{s[i]}
  {
    assert s == s[..i] + [s[i]] + s[i + 1..];
  }

  lemma MappedAt<T, U>(f: T -> U, s: seq<T>, i: nat)
    requires i < |s|
    ensures multiset(Mapped(f, s)) == multiset(Mapped(f, s[..i] + s[i + 1..])) + multiset{f(s[i])}
  {
    assert Mapped(f, s) == Mapped(f, s[..i]) + [f(s[i])] + Mapped(f, s[i + 1..]);
    assert Mapped(f, s[..i] + s[i + 1..]) == Mapped(f, s[..i]) + Mapped(f, s[i + 1..]);
  }

  lemma {:induction false} MappedMultiset<T, U>(f: T -> U, a: seq<T>, b: seq<T>)
    requires multiset(a) == multiset(b)
    ensures multiset(Mapped(f, a)) == multiset(Mapped(f, b))
    decreases |a|
  {
    if a == [] {
      assert |multiset(b)| == 0;
    } else {
      assert a[0] in multiset(b);
      var i :| 0 <= i < |b| && b[i] == a[0];
      hide Mapped;
      WithoutOne(a, 0);
      WithoutOne(b, i);
      MappedAt(f, a, 0);
      MappedAt(f, b, i);
      MappedMultiset(f, a[..0] + a[1..], b[..i] + b[i + 1..]);
    }
  }

  lemma DecodedBack(ks: seq<Param>)
    ensures Mapped(DecodedParam, Mapped(EncodedParam, ks)) == ks
    ensures PlainParams(Mapped(EncodedParam, ks))
  {
    forall i | 0 <= i < |ks|
      ensures DecodedParam(EncodedParam(ks[i])) == ks[i]
      ensures Plain(EncodedParam(ks[i]).name) && Plain(EncodedParam(ks[i]).value)
    {
      EncodedIsPlain(ks[i].name);
      EncodedIsPlain(ks[i].value);
    }
  }

  lemma {:induction false} KeptAreNotExcluded(pairs: seq<Bytes>, excluded: Bytes -> bool)
    ensures forall p :: p in Kept(pairs, excluded) ==> !excluded(p.name)
  {
    if pairs != [] {
      KeptAreNotExcluded(pairs[1..], excluded);
    }
  }

  function SortedParams(ks: seq<Param>): seq<Param> {
    Sort(Mapped(EncodedParam, ks), ParamAtMost)
  }

  // Sorting keeps every parameter, each still encoded and decodable.
  lemma SortedParamsDecode(ks: seq<Param>)
    ensures PlainParams(SortedParams(ks))
    ensures multiset(Mapped(DecodedParam, SortedParams(ks))) == multiset(ks)
    ensures forall i :: 0 <= i < |SortedParams(ks)| ==> DecodedParam(SortedParams(ks)[i]) in ks
  {
    var es, sorted := Mapped(EncodedParam, ks), SortedParams(ks);
    ParamsAreOrdered();
    SortSorts(es, ParamAtMost);
    DecodedBack(ks);
    MappedMultiset(DecodedParam, sorted, es);
    forall i | 0 <= i < |sorted|
      ensures Plain(sorted[i].name) && Plain(sorted[i].value) && DecodedParam(sorted[i]) in ks
    {
      assert sorted[i] in multiset(es);
      var j :| 0 <= j < |es| && es[j] == sorted[i];
      assert Mapped(DecodedParam, es)[j] == ks[j];
    }
  }

  // The canonical query carries exactly the parameters kept, no more or fewer.
  lemma CanonicalKeepsParams(rawQuery: Bytes, excluded: Bytes -> bool)
    ensures multiset(Params(CanonicalQueryOf(rawQuery, excluded), excluded)) == multiset(Params(rawQuery, excluded))
  {
    var ks := Params(rawQuery, excluded);
    SortedParamsDecode(ks);
    KeptAreNotExcluded(Split(rawQuery, AMPERSAND), excluded);
    RenderReadsBack(SortedParams(ks), excluded);
  }

  // Two queries have the same canonical form exactly when they say the same
  // thing: the order of the pairs and the spelling of each escape are all that
  // is lost.
  lemma CanonicalIffSameParams(a: Bytes, b: Bytes, excluded: Bytes -> bool)
    ensures CanonicalQueryOf(a, excluded) == CanonicalQueryOf(b, excluded)
       <==> multiset(Params(a, excluded)) == multiset(Params(b, excluded))
  {
    var ka, kb := Params(a, excluded), Params(b, excluded);
    if multiset(ka) == multiset(kb) {
      MappedMultiset(EncodedParam, ka, kb);
      ParamsAreOrdered();
      SortUnique(Mapped(EncodedParam, ka), Mapped(EncodedParam, kb), ParamAtMost);
    }
    CanonicalKeepsParams(a, excluded);
    CanonicalKeepsParams(b, excluded);
  }

  lemma CanonicalIsIdempotent(rawQuery: Bytes, excluded: Bytes -> bool)
    ensures CanonicalQueryOf(CanonicalQueryOf(rawQuery, excluded), excluded) == CanonicalQueryOf(rawQuery, excluded)
  {
    CanonicalKeepsParams(rawQuery, excluded);
    CanonicalIffSameParams(CanonicalQueryOf(rawQuery, excluded), rawQuery, excluded);
  }
}
