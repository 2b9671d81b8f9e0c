// The opaque tokens a listing is resumed with: base64 with the URL alphabet and
// no padding.
module ContinuationTokens {
  import opened Outcomes
  import opened Bytes
  import opened Text

  type sextet = v: nat | v < 64

  function Digit(v: sextet): byte {
    if v < 26 then 0x41 + v
    else if v < 52 then 0x61 + v - 26
    else if v < 62 then 0x30 + v - 52
    else if v == 62 then 0x2D else 0x5F
  }

  function DigitValue64(b: byte): Option<sextet> {
    if 0x41 <= b <= 0x5A then Some(b - 0x41)
    else if 0x61 <= b <= 0x7A then Some(b - 0x61 + 26)
    else if 0x30 <= b <= 0x39 then Some(b - 0x30 + 52)
    else if b == 0x2D then Some(62)
    else if b == 0x5F then Some(63)
    else None
  }

  function Sextets(s: Bytes): seq<sextet> {
    if s == [] then []
    else if |s| == 1 then [s[0] / 4, s[0] % 4 * 16]
    else if |s| == 2 then [s[0] / 4, s[0] % 4 * 16 + s[1] / 16, s[1] % 16 * 4]
    else [s[0] / 4, s[0] % 4 * 16 + s[1] / 16, s[1] % 16 * 4 + s[2] / 64, s[2] % 64] + Sextets(s[3..])
  }

  // The three octets that four sextets carry.
  function Octet0(a: sextet, b: sextet): byte {
    var high: int, low: int := a, b;
    high * 4 + low / 16
  }

  function Octet1(b: sextet, c: sextet): byte {
    var high: int, low: int := b, c;
    high % 16 * 16 + low / 4
  }

  function Octet2(c: sextet, d: sextet): byte {
    var high: int, low: int := c, d;
    high % 4 * 64 + low
  }

  // A single digit left over is malformed; bits left over are let go.
  function Octets(v: seq<sextet>): Option<Bytes> {
    if v == [] then Some([])
    else if |v| == 1 then None
    else if |v| == 2 then Some([Octet0(v[0], v[1])])
    else if |v| == 3 then Some([Octet0(v[0], v[1]), Octet1(v[1], v[2])])
    else match Octets(v[4..])
      case None => None
      case Some(rest) => Some([Octet0(v[0], v[1]), Octet1(v[1], v[2]), Octet2(v[2], v[3])] + rest)
  }

  function Digits(v: seq<sextet>): Bytes {
    seq(|v|, i requires 0 <= i < |v| => Digit(v[i]))
  }

  // Line breaks are passed over.
  function Values(t: Bytes): Option<seq<sextet>> {
    if t == [] then Some([])
    else if t[0] == LF || t[0] == CR then Values(t[1..])
    else match (DigitValue64(t[0]), Values(t[1..]))
      case (Some(v), Some(rest)) => Some([v] + rest)
      case _ => None
  }

  function EncodeToken(cursor: Bytes): Bytes {
    Digits(Sextets(cursor))
  }

  function DecodeToken(token: Bytes): Option<Bytes> {
    match Values(token)
    case None => None
    case Some(v) => Octets(v)
  }

  lemma ThreeOctets(a: byte, b: byte, c: byte)
    ensures Octet0(a / 4, a % 4 * 16 + b / 16) == a && Octet0(a / 4, a % 4 * 16) == a
    ensures Octet1(a % 4 * 16 + b / 16, b % 16 * 4 + c / 64) == b && Octet1(a % 4 * 16 + b / 16, b % 16 * 4) == b
    ensures Octet2(b % 16 * 4 + c / 64, c % 64) == c
  {
  }

  lemma {:induction false} OctetsOfSextets(s: Bytes)
    ensures Octets(Sextets(s)) == Some(s)
  {
    hide Octet0, Octet1, Octet2;
    if |s| >= 3 {
      ThreeOctets(s[0], s[1], s[2]);
      OctetsOfSextets(s[3..]);
      assert Sextets(s)[4..] == Sextets(s[3..]);
      assert s == [s[0], s[1], s[2]] + s[3..];
    } else if |s| == 2 {
      ThreeOctets(s[0], s[1], 0);
      assert s == [s[0], s[1]];
    } else if |s| == 1 {
      ThreeOctets(s[0], 0, 0);
      assert s == [s[0]];
    }
  }

  lemma {:induction false} ValuesOfDigits(v: seq<sextet>)
    ensures Values(Digits(v)) == Some(v)
  {
    if v != [] {
      assert Digits(v)[1..] == Digits(v[1..]);
      ValuesOfDigits(v[1..]);
      assert v == [v[0]] + v[1..];
    }
  }

  // A token names the cursor it was made from, and only the empty cursor has the
  // empty token.
  lemma TokenRoundTrip(cursor: Bytes)
    ensures DecodeToken(EncodeToken(cursor)) == Some(cursor)
    ensures EncodeToken(cursor) == [] <==> cursor == []
  {
    OctetsOfSextets(cursor);
    ValuesOfDigits(Sextets(cursor));
  }

  // A token without its line breaks.
  function Bare(t: Bytes): Bytes {
    if t == [] then [] else (if t[0] == LF || t[0] == CR then [] else [t[0]]) + Bare(t[1..])
  }

  predicate TokenChar(c: char) {
    'A' <= c <= 'Z' || 'a' <= c <= 'z' || '0' <= c <= '9' || c == '-' || c == '_'
  }

  lemma ValuesCons(b: byte, rest: Bytes)
    requires b != LF && b != CR
    ensures Values([b] + rest) ==
      if DigitValue64(b).Some? && Values(rest).Some? then Some([DigitValue64(b).value] + Values(rest).value) else None
    ensures DigitValue64(b).Some? <==> TokenChar(b as char)
  {
    assert ([b] + rest)[1..] == rest;
  }

  predicate TokenChars(t: Bytes) {
    forall i :: 0 <= i < |t| ==> TokenChar(t[i] as char)
  }

  lemma TokenCharsCons(b: byte, rest: Bytes)
    ensures TokenChars([b] + rest) <==> TokenChar(b as char) && TokenChars(rest)
  {
    hide TokenChar;
    var t := [b] + rest;
    if TokenChars(t) {
      assert TokenChar(t[0] as char);
      forall i | 0 <= i < |rest| ensures TokenChar(rest[i] as char) {
        assert rest[i] == t[i + 1];
      }
    }
  }

  lemma {:induction false} ValuesIff(t: Bytes)
    ensures Values(t) == Values(Bare(t))
    ensures Values(t).Some? <==> TokenChars(Bare(t))
    ensures Values(t).Some? ==> |Values(t).value| == |Bare(t)|
  {
    if t != [] {
      ValuesIff(t[1..]);
      if t[0] != LF && t[0] != CR {
        assert t == [t[0]] + t[1..] && Bare(t) == [t[0]] + Bare(t[1..]);
        ValuesCons(t[0], t[1..]);
        ValuesCons(t[0], Bare(t[1..]));
        TokenCharsCons(t[0], Bare(t[1..]));
        hide Values, DigitValue64, TokenChar, TokenChars, Bare;
      } else {
        assert Bare(t) == Bare(t[1..]);
      }
    }
  }

  lemma {:induction false} OctetsIff(v: seq<sextet>)
    ensures Octets(v).Some? <==> |v| % 4 != 1
  {
    hide Octet0, Octet1, Octet2;
    if |v| >= 4 {
      OctetsIff(v[4..]);
      assert |v| % 4 == |v[4..]| % 4;
    }
  }

  // What is accepted as a token: the characters of the alphabet, a number of them
  // that some octets have, and line breaks anywhere, which change nothing.
  lemma DecodesIff(token: Bytes)
    ensures DecodeToken(token).Some? <==>
      |Bare(token)| % 4 != 1 && TokenChars(Bare(token))
    ensures DecodeToken(token) == DecodeToken(Bare(token))
  {
    ValuesIff(token);
    if Values(token).Some? {
      OctetsIff(Values(token).value);
    }
  }
}
