// Reading a query the way net/url does: names compared without regard to case,
// and the first value of a name.
module Queries {
  import opened Outcomes
  import opened Bytes
  import opened Text
  import opened Encoding
  import opened QueryOrder

  // strings.EqualFold against an ASCII name: two letters have a case variant
  // outside ASCII, the Kelvin sign and the long s.
  predicate EqualFold(s: Bytes, name: Bytes) {
    if name == [] then s == []
    else if s == [] then false
    else if LowerByte(s[0]) == LowerByte(name[0]) then EqualFold(s[1..], name[1..])
    else if LowerByte(name[0]) == 0x6B && HasPrefix(s, [0xE2, 0x84, 0xAA]) then EqualFold(s[3..], name[1..])
    else if LowerByte(name[0]) == 0x73 && HasPrefix(s, [0xC5, 0xBF]) then EqualFold(s[2..], name[1..])
    else false
  }

  // A string with its case variants undone: capitals, the Kelvin sign and the
  // long s.
  function Folded(s: Bytes): Bytes {
    if s == [] then []
    else if HasPrefix(s, [0xE2, 0x84, 0xAA]) then [0x6B] + Folded(s[3..])
    else if HasPrefix(s, [0xC5, 0xBF]) then [0x73] + Folded(s[2..])
    else [LowerByte(s[0])] + Folded(s[1..])
  }

  lemma {:induction false} EqualFoldIff(s: Bytes, name: Bytes)
    requires forall i :: 0 <= i < |name| ==> name[i] < 0x80
    ensures EqualFold(s, name) <==> Folded(s) == ToLower(name)
  {
    if s != [] && name != [] {
      assert ToLower(name)[0] == LowerByte(name[0]) && ToLower(name)[1..] == ToLower(name[1..]);
      EqualFoldIff(s[1..], name[1..]);
      if HasPrefix(s, [0xE2, 0x84, 0xAA]) {
        EqualFoldIff(s[3..], name[1..]);
        HeadsAgreeIff(0x6B, Folded(s[3..]), ToLower(name));
      } else if HasPrefix(s, [0xC5, 0xBF]) {
        EqualFoldIff(s[2..], name[1..]);
        HeadsAgreeIff(0x73, Folded(s[2..]), ToLower(name));
      } else {
        HeadsAgreeIff(LowerByte(s[0]), Folded(s[1..]), ToLower(name));
      }
    }
  }

  lemma HeadsAgreeIff(b: byte, rest: Bytes, t: Bytes)
    requires t != []
    ensures [b] + rest == t <==> b == t[0] && rest == t[1..]
  {
    assert t == [t[0]] + t[1..];
  }

  // url.ParseQuery: a pair with a semicolon or a bad escape is dropped, and a
  // plus sign is a space.
  function PlusToSpace(s: Bytes): Bytes {
    seq(|s|, i requires 0 <= i < |s| => if s[i] == 0x2B then SPACE else s[i])
  }

  function QueryPair(pair: Bytes): Option<Param> {
    if pair == [] || SEMICOLON in pair then None else
    var cut := Cut(pair, EQUALS);
    match (Decoded(PlusToSpace(cut.before)), Decoded(PlusToSpace(cut.after)))
    case (Some(name), Some(value)) => Some(Param(name, value))
    case _ => None
  }

  function QueryValue(pairs: seq<Bytes>, name: Bytes): Bytes {
    if pairs == [] then [] else
    match QueryPair(pairs[0])
    case Some(p) => if p.name == name then p.value else QueryValue(pairs[1..], name)
    case None => QueryValue(pairs[1..], name)
  }

  function Get(rawQuery: Bytes, name: Bytes): Bytes {
    QueryValue(Split(rawQuery, AMPERSAND), name)
  }

  lemma EncodedHasNoneOf(s: Bytes)
    ensures 0x2B !in Encoded(s, true) && SEMICOLON !in Encoded(s, true)
    ensures PlusToSpace(Encoded(s, true)) == Encoded(s, true)
  {
    EncodedAlphabet(s, true);
  }

  lemma PlusJoins(a: Bytes, b: Bytes)
    ensures PlusToSpace(a + b) == PlusToSpace(a) + PlusToSpace(b)
  {
  }

  // A pair with a semicolon or a bad escape on either side of its equals sign is
  // as if it were not there.
  lemma BadPairIsSkipped(pair: Bytes, rest: seq<Bytes>, name: Bytes)
    requires pair == [] || SEMICOLON in pair || Decoded(PlusToSpace(pair)).None?
    ensures QueryValue([pair] + rest, name) == QueryValue(rest, name)
  {
    var cut := Cut(pair, EQUALS);
    hide Cut;
    assert ([pair] + rest)[1..] == rest;
    var a, b := PlusToSpace(cut.before), PlusToSpace(cut.after);
    if Decoded(PlusToSpace(pair)).None? && Decoded(a).Some? && Decoded(b).Some? {
      CutIs(pair, EQUALS);
      PlusJoins(cut.before, [EQUALS] + cut.after);
      PlusJoins([EQUALS], cut.after);
      assert cut.before + [EQUALS] + cut.after == cut.before + ([EQUALS] + cut.after);
      assert PlusToSpace([EQUALS]) == [EQUALS];
      assert ([EQUALS] + b)[1..] == b;
      DecodedJoins(a, [EQUALS] + b);
    }
  }

  // The encoding of HTML forms: a space is a plus sign.
  function FormEncoded(s: Bytes): Bytes {
    if s == [] then [] else FormByte(s[0]) + FormEncoded(s[1..])
  }

  function FormByte(c: byte): Bytes {
    if c == SPACE then [0x2B] else EncodedByte(c, true)
  }

  lemma FormByteDecodes(c: byte, rest: Bytes)
    ensures Decoded(PlusToSpace(FormByte(c)) + rest) == DecodedAfter([c], rest)
    ensures Plain(FormByte(c)) && SEMICOLON !in FormByte(c)
  {
    if c == SPACE {
      assert PlusToSpace([0x2B]) == [SPACE];
      assert ([SPACE] + rest)[1..] == rest;
    } else {
      EncodedByteDecodes(c, true, rest);
      assert PlusToSpace(EncodedByte(c, true)) == EncodedByte(c, true);
    }
  }

  lemma {:induction false} FormDecodes(s: Bytes)
    ensures Decoded(PlusToSpace(FormEncoded(s))) == Some(s)
    ensures Plain(FormEncoded(s)) && SEMICOLON !in FormEncoded(s)
  {
    if s != [] {
      FormDecodes(s[1..]);
      PlusJoins(FormByte(s[0]), FormEncoded(s[1..]));
      FormByteDecodes(s[0], PlusToSpace(FormEncoded(s[1..])));
      hide FormByte, Decoded, PlusToSpace;
      assert s == [s[0]] + s[1..];
    }
  }

  // A form's pair is read back, as the pairs of a link are.
  lemma FormPairIsRead(p: Param)
    ensures QueryPair(FormEncoded(p.name) + [EQUALS] + FormEncoded(p.value)) == Some(p)
  {
    FormDecodes(p.name);
    FormDecodes(p.value);
    CutJoins(FormEncoded(p.name), EQUALS, FormEncoded(p.value));
    hide FormEncoded, Decoded, Cut;
  }

  lemma PairIsRead(p: Param)
    ensures QueryPair(Pair(EncodedParam(p))) == Some(p)
  {
    var e := EncodedParam(p);
    EncodedIsPlain(p.name);
    CutJoins(e.name, EQUALS, e.value);
    EncodedHasNoneOf(p.name);
    EncodedHasNoneOf(p.value);
    DecodeEncoded(p.name, true);
    DecodeEncoded(p.value, true);
  }

  predicate DistinctNames(ps: seq<Param>) {
    forall i, j :: 0 <= i < j < |ps| ==> ps[i].name != ps[j].name
  }

  // Where a name has one value, that is the value read, whatever comes after.
  lemma {:induction false} ValueIsRead(ps: seq<Param>, rest: seq<Param>, p: Param)
    requires p in ps && forall i :: 0 <= i < |ps| && ps[i].name == p.name ==> ps[i].value == p.value
    ensures QueryValue(PairsOf(ps + rest), p.name) == p.value
  {
    PairIsRead(ps[0]);
    assert PairsOf(ps + rest)[0] == Pair(EncodedParam(ps[0]));
    if ps[0].name != p.name {
      var i :| 0 <= i < |ps| && ps[i] == p;
      assert (ps + rest)[1..] == ps[1..] + rest;
      assert PairsOf(ps + rest)[1..] == PairsOf(ps[1..] + rest);
      ValueIsRead(ps[1..], rest, p);
    }
  }
}
