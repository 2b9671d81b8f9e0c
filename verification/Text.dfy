// The string helpers the request code leans on: strings.Cut, strings.TrimSpace,
// strings.TrimRight and hexadecimal numbers, on bytes.
module Text {
  import opened Outcomes
  import opened Bytes

  const LF: byte := 0x0A
  const CR: byte := 0x0D
  const SPACE: byte := 0x20
  const QUOTE: byte := 0x22
  const SEMICOLON: byte := 0x3B
  const EQUALS: byte := 0x3D

  function Ascii(s: string): (b: Bytes)
    ensures |b| == |s|
  {
    seq(|s|, i requires 0 <= i < |s| => s[i] as int % 256)
  }

  lemma AsciiChars(s: string)
    requires forall i :: 0 <= i < |s| ==> s[i] < 128 as char
    ensures forall i :: 0 <= i < |s| ==> Ascii(s)[i] == s[i] as int
  {
  }

  // ------------------------------------------------------------- cutting

  // The index of the first b, or the length.
  function FirstOf(s: Bytes, b: byte): (i: nat)
    ensures i <= |s|
    ensures forall j :: 0 <= j < i ==> s[j] != b
    ensures i < |s| ==> s[i] == b
  {
    if s == [] || s[0] == b then 0 else 1 + FirstOf(s[1..], b)
  }

  lemma FirstOfIs(s: Bytes, b: byte, i: nat)
    requires i <= |s| && (i < |s| ==> s[i] == b) && forall j :: 0 <= j < i ==> s[j] != b
    ensures FirstOf(s, b) == i
  {
  }

  datatype Halves = Halves(before: Bytes, after: Bytes, found: bool)

  function Cut(s: Bytes, b: byte): Halves {
    var i := FirstOf(s, b);
    if i < |s| then Halves(s[..i], s[i + 1..], true) else Halves(s, [], false)
  }

  lemma CutJoins(a: Bytes, b: byte, c: Bytes)
    requires b !in a
    ensures Cut(a + [b] + c, b) == Halves(a, c, true)
    ensures Cut(a, b) == Halves(a, [], false)
  {
    var s := a + [b] + c;
    assert s[|a|] == b && forall j :: 0 <= j < |a| ==> s[j] == a[j];
    FirstOfIs(s, b, |a|);
    FirstOfIs(a, b, |a|);
    assert s[..|a|] == a && s[|a| + 1..] == c;
  }

  lemma CutIs(s: Bytes, b: byte)
    ensures
      var cut := Cut(s, b);
      b !in cut.before && (if cut.found then s == cut.before + [b] + cut.after else s == cut.before && cut.after == [])
  {
  }

  lemma CutIff(s: Bytes, b: byte, before: Bytes, after: Bytes)
    requires b !in before
    ensures Cut(s, b) == Halves(before, after, true) <==> s == before + [b] + after
  {
    CutIs(s, b);
    if s == before + [b] + after {
      CutJoins(before, b, after);
    }
  }

  // strings.Split on one byte.
  function Split(s: Bytes, b: byte): seq<Bytes>
    decreases |s|
  {
    var cut := Cut(s, b);
    if cut.found then [cut.before] + Split(cut.after, b) else [s]
  }

  lemma SplitJoins(a: Bytes, b: byte, c: Bytes)
    requires b !in a
    ensures Split(a + [b] + c, b) == [a] + Split(c, b)
    ensures Split(a, b) == [a]
  {
    CutJoins(a, b, c);
    hide Cut;
  }

  function JoinedBy(parts: seq<Bytes>, b: byte): Bytes {
    if parts == [] then [] else if |parts| == 1 then parts[0] else parts[0] + [b] + JoinedBy(parts[1..], b)
  }

  // Parts that do not hold the separator are what their join splits into.
  lemma {:induction false} JoinedSplits(parts: seq<Bytes>, b: byte)
    requires parts != [] && forall i :: 0 <= i < |parts| ==> b !in parts[i]
    ensures Split(JoinedBy(parts, b), b) == parts
  {
    if |parts| == 1 {
      SplitJoins(parts[0], b, []);
    } else {
      JoinedSplits(parts[1..], b);
      SplitJoins(parts[0], b, JoinedBy(parts[1..], b));
    }
  }

  // Splitting loses nothing, and leaves no separator in any part.
  lemma {:induction false} SplitRejoins(s: Bytes, b: byte)
    ensures Split(s, b) != [] && JoinedBy(Split(s, b), b) == s
    ensures forall i :: 0 <= i < |Split(s, b)| ==> b !in Split(s, b)[i]
    decreases |s|
  {
    var cut := Cut(s, b);
    if cut.found {
      SplitRejoins(cut.after, b);
      assert s == cut.before + [b] + cut.after;
    }
  }

  predicate NoLineFeed(s: Bytes) {
    LF !in s
  }

  lemma NotLonger(a: Bytes, x: Bytes, b: Bytes, y: Bytes)
    requires NoLineFeed(y) && a + [LF] + x == b + [LF] + y
    ensures |y| <= |x|
  {
    var s := a + [LF] + x;
    assert s[|a|] == LF;
    assert forall i :: |b| < i < |s| ==> s[i] == y[i - |b| - 1];
  }

  // What follows the last line feed of a text, and what precedes it.
  lemma LastLine(a: Bytes, x: Bytes, b: Bytes, y: Bytes)
    requires NoLineFeed(x) && NoLineFeed(y) && a + [LF] + x == b + [LF] + y
    ensures a == b && x == y
  {
    NotLonger(a, x, b, y);
    NotLonger(b, y, a, x);
    var s := a + [LF] + x;
    assert a == s[..|a|] && b == s[..|b|] && x == s[|a| + 1..] && y == s[|b| + 1..];
  }

  // ------------------------------------------------------------ trimming

  // TrimRight(s, "\r\n")
  function TrimLineEnd(s: Bytes): Bytes {
    if s != [] && (s[|s| - 1] == CR || s[|s| - 1] == LF) then TrimLineEnd(s[..|s| - 1]) else s
  }

  predicate LineEnd(s: Bytes) {
    forall i :: 0 <= i < |s| ==> s[i] == CR || s[i] == LF
  }

  // What goes is every line feed and carriage return at the end, and no more.
  lemma {:induction false} LineEndTrimmed(s: Bytes)
    ensures
      var t := TrimLineEnd(s);
      && |t| <= |s| && t == s[..|t|] && LineEnd(s[|t|..])
      && (t == [] || (t[|t| - 1] != CR && t[|t| - 1] != LF))
  {
    if s != [] && (s[|s| - 1] == CR || s[|s| - 1] == LF) {
      var front := s[..|s| - 1];
      LineEndTrimmed(front);
      var n := |TrimLineEnd(front)|;
      assert s[n..] == front[n..] + [s[|s| - 1]];
    }
  }

  // The UTF-8 encodings of the code points Unicode calls white space.
  predicate IsSpaceRune(e: Bytes) {
    || (|e| == 1 && (0x09 <= e[0] <= 0x0D || e[0] == 0x20))
    || (|e| == 2 && e[0] == 0xC2 && (e[1] == 0x85 || e[1] == 0xA0))
    || (|e| == 3 && (
          || e == [0xE1, 0x9A, 0x80]
          || (e[0] == 0xE2 && e[1] == 0x80 && (0x80 <= e[2] <= 0x8A || e[2] == 0xA8 || e[2] == 0xA9 || e[2] == 0xAF))
          || e == [0xE2, 0x81, 0x9F]
          || e == [0xE3, 0x80, 0x80]))
  }

  // A code point below U+10000 in UTF-8.
  function Utf8(c: nat): Bytes
    requires c < 0x1_0000
  {
    if c < 0x80 then [c]
    else if c < 0x800 then [0xC0 + c / 64, 0x80 + c % 64]
    else [0xE0 + c / 4096, 0x80 + c / 64 % 64, 0x80 + c % 64]
  }

  // The property White_Space of the Unicode character database.
  predicate WhiteSpace(c: nat) {
    || 0x09 <= c <= 0x0D || c == 0x20 || c == 0x85 || c == 0xA0 || c == 0x1680 || 0x2000 <= c <= 0x200A
    || c == 0x2028 || c == 0x2029 || c == 0x202F || c == 0x205F || c == 0x3000
  }

  lemma CodeOf(e: Bytes) returns (c: nat)
    requires IsSpaceRune(e)
    ensures c < 0x1_0000 && WhiteSpace(c) && Utf8(c) == e
  {
    var last: int := e[|e| - 1];
    c := if |e| <= 2 then last else if e[0] == 0xE1 then 0x1680 else if e[0] == 0xE3 then 0x3000
      else if e[1] == 0x81 then 0x205F else 0x2000 + last - 0x80;
  }

  lemma RuneOf(c: nat)
    requires c < 0x1_0000 && WhiteSpace(c)
    ensures IsSpaceRune(Utf8(c))
  {
    if 0x2000 <= c < 0x2040 {
      assert Utf8(c) == [0xE2, 0x80, 0x80 + (c - 0x2000)];
    }
  }

  lemma SpaceRuneIff(e: Bytes)
    ensures IsSpaceRune(e) <==> exists c: nat :: c < 0x1_0000 && WhiteSpace(c) && Utf8(c) == e
  {
    hide IsSpaceRune, WhiteSpace, Utf8;
    if IsSpaceRune(e) {
      var c := CodeOf(e);
    }
    if c: nat :| c < 0x1_0000 && WhiteSpace(c) && Utf8(c) == e {
      RuneOf(c);
    }
  }

  // The width of the white space a string starts or ends with, or 0.
  function LeadingSpace(s: Bytes): (w: nat)
    ensures w <= |s|
  {
    if |s| >= 1 && IsSpaceRune(s[..1]) then 1
    else if |s| >= 2 && IsSpaceRune(s[..2]) then 2
    else if |s| >= 3 && IsSpaceRune(s[..3]) then 3
    else 0
  }

  function TrailingSpace(s: Bytes): (w: nat)
    ensures w <= |s|
  {
    if |s| >= 1 && IsSpaceRune(s[|s| - 1..]) then 1
    else if |s| >= 2 && IsSpaceRune(s[|s| - 2..]) then 2
    else if |s| >= 3 && IsSpaceRune(s[|s| - 3..]) then 3
    else 0
  }

  function TrimLeft(s: Bytes): Bytes {
    var w := LeadingSpace(s);
    if w == 0 then s else TrimLeft(s[w..])
  }

  function TrimTail(s: Bytes): Bytes {
    var w := TrailingSpace(s);
    if w == 0 then s else TrimTail(s[..|s| - w])
  }

  function TrimSpace(s: Bytes): Bytes {
    TrimTail(TrimLeft(s))
  }

  predicate AllSpace(s: Bytes) {
    s == [] || exists w :: 1 <= w <= |s| && IsSpaceRune(s[..w]) && AllSpace(s[w..])
  }

  predicate Unspaced(s: Bytes) {
    forall w :: 0 <= w <= |s| ==> !IsSpaceRune(s[..w]) && !IsSpaceRune(s[|s| - w..])
  }

  lemma ShortSpaces(s: Bytes, w: nat)
    requires w <= |s|
    ensures LeadingSpace(s) == 0 ==> !IsSpaceRune(s[..w])
    ensures TrailingSpace(s) == 0 ==> !IsSpaceRune(s[|s| - w..])
  {
  }

  lemma {:induction false} AllSpaceJoins(a: Bytes, b: Bytes)
    requires AllSpace(a) && AllSpace(b)
    ensures AllSpace(a + b)
  {
    hide IsSpaceRune;
    if a == [] {
      assert a + b == b;
    } else {
      var w :| 1 <= w <= |a| && IsSpaceRune(a[..w]) && AllSpace(a[w..]);
      AllSpaceJoins(a[w..], b);
      assert (a + b)[..w] == a[..w] && (a + b)[w..] == a[w..] + b;
    }
  }

  lemma OneSpace(e: Bytes)
    requires IsSpaceRune(e)
    ensures AllSpace(e)
  {
    assert e[..|e|] == e && e[|e|..] == [];
    assert AllSpace(e[|e|..]);
  }

  lemma LeadingIs(s: Bytes)
    ensures LeadingSpace(s) > 0 ==> AllSpace(s[..LeadingSpace(s)])
  {
    hide IsSpaceRune, AllSpace;
    var w := LeadingSpace(s);
    if w > 0 {
      assert IsSpaceRune(s[..w]);
      OneSpace(s[..w]);
    }
  }

  lemma TrailingIs(s: Bytes)
    ensures TrailingSpace(s) > 0 ==> AllSpace(s[|s| - TrailingSpace(s)..])
  {
    hide IsSpaceRune, AllSpace;
    var w := TrailingSpace(s);
    if w > 0 {
      assert IsSpaceRune(s[|s| - w..]);
      OneSpace(s[|s| - w..]);
    }
  }

  lemma {:induction false} LeftTrimmed(s: Bytes)
    ensures
      var t := TrimLeft(s);
      |t| <= |s| && t == s[|s| - |t|..] && AllSpace(s[..|s| - |t|]) && LeadingSpace(t) == 0
  {
    LeadingIs(s);
    hide LeadingSpace, AllSpace;
    var w := LeadingSpace(s);
    if w > 0 {
      LeftTrimmed(s[w..]);
      var n := |s| - |TrimLeft(s)|;
      AllSpaceJoins(s[..w], s[w..][..n - w]);
      assert s[..n] == s[..w] + s[w..][..n - w];
    } else {
      NoSpaceLeft();
      assert s[..0] == [];
    }
  }

  lemma NoSpaceLeft()
    ensures AllSpace([])
  {
  }

  lemma {:induction false} TailTrimmed(s: Bytes)
    ensures
      var t := TrimTail(s);
      |t| <= |s| && t == s[..|t|] && AllSpace(s[|t|..]) && TrailingSpace(t) == 0
  {
    TrailingIs(s);
    hide TrailingSpace, AllSpace;
    var w := TrailingSpace(s);
    if w > 0 {
      TailTrimmed(s[..|s| - w]);
      var n := |TrimTail(s)|;
      AllSpaceJoins(s[..|s| - w][n..], s[|s| - w..]);
      assert s[n..] == s[..|s| - w][n..] + s[|s| - w..];
    } else {
      NoSpaceLeft();
      assert s[|s|..] == [];
    }
  }

  // White space goes from both ends, and nothing else goes; and what is left
  // neither starts nor ends with any.
  lemma SpaceTrimmed(s: Bytes)
    ensures exists a, b :: AllSpace(a) && AllSpace(b) && s == a + TrimSpace(s) + b
    ensures Unspaced(TrimSpace(s))
  {
    hide AllSpace, LeadingSpace, TrailingSpace, IsSpaceRune, TrimLeft, TrimTail;
    var u := TrimLeft(s);
    var t := TrimTail(u);
    LeftTrimmed(s);
    TailTrimmed(u);
    assert s == s[..|s| - |u|] + t + u[|t|..];
    forall w | 0 <= w <= |t| ensures !IsSpaceRune(t[..w]) && !IsSpaceRune(t[|t| - w..]) {
      ShortSpaces(t, w);
      ShortSpaces(u, w);
      assert t[..w] == u[..w];
    }
  }

  predicate Visible(s: Bytes) {
    forall i :: 0 <= i < |s| ==> 0x20 < s[i] < 0x7F
  }

  lemma NoSpaceRune(e: Bytes)
    requires Visible(e)
    ensures !IsSpaceRune(e)
  {
  }

  lemma NoSpaceRuneAtEnds(s: Bytes, w: nat)
    requires Visible(s) && w <= |s|
    ensures !IsSpaceRune(s[..w]) && !IsSpaceRune(s[|s| - w..])
  {
    hide IsSpaceRune;
    var head, tail := s[..w], s[|s| - w..];
    forall i | 0 <= i < |tail| ensures 0x20 < tail[i] < 0x7F {
      assert tail[i] == s[|s| - w + i];
    }
    NoSpaceRune(head);
    NoSpaceRune(tail);
  }

  lemma NoSpaceAtEnds(s: Bytes)
    requires Visible(s)
    ensures LeadingSpace(s) == 0 && TrailingSpace(s) == 0
  {
    hide IsSpaceRune, Visible;
    if |s| >= 1 {
      NoSpaceRuneAtEnds(s, 1);
    }
    if |s| >= 2 {
      NoSpaceRuneAtEnds(s, 2);
    }
    if |s| >= 3 {
      NoSpaceRuneAtEnds(s, 3);
    }
  }

  lemma LeadingIsRune(s: Bytes, w: nat)
    requires w <= |s| && IsSpaceRune(s[..w])
    ensures LeadingSpace(s) == w
  {
    assert s[..w][0] == s[0];
  }

  lemma TrailingIsRune(s: Bytes, w: nat)
    requires w <= |s| && IsSpaceRune(s[|s| - w..])
    ensures TrailingSpace(s) == w
  {
    var e := s[|s| - w..];
    assert e[w - 1] == s[|s| - 1] && (w > 1 ==> e[w - 2] == s[|s| - 2]);
  }

  lemma {:induction false} SpaceBeforeGoes(a: Bytes, s: Bytes)
    requires AllSpace(a)
    ensures TrimLeft(a + s) == TrimLeft(s)
    decreases |a|
  {
    hide IsSpaceRune, LeadingSpace;
    if a == [] {
      assert a + s == s;
    } else {
      var w :| 1 <= w <= |a| && IsSpaceRune(a[..w]) && AllSpace(a[w..]);
      assert (a + s)[..w] == a[..w] && (a + s)[w..] == a[w..] + s;
      LeadingIsRune(a + s, w);
      SpaceBeforeGoes(a[w..], s);
    }
  }

  // White space can be taken off rune by rune from the end too.
  lemma {:induction false} LastSpace(b: Bytes) returns (w: nat)
    requires AllSpace(b) && b != []
    ensures 1 <= w <= |b| && IsSpaceRune(b[|b| - w..]) && AllSpace(b[..|b| - w])
    decreases |b|
  {
    hide IsSpaceRune;
    var v :| 1 <= v <= |b| && IsSpaceRune(b[..v]) && AllSpace(b[v..]);
    if v == |b| {
      w := v;
      assert b[..v] == b && b[|b| - w..] == b && b[..0] == [];
    } else {
      w := LastSpace(b[v..]);
      assert b[v..][|b[v..]| - w..] == b[|b| - w..];
      var front := b[..|b| - w];
      assert front[..v] == b[..v] && front[v..] == b[v..][..|b[v..]| - w];
    }
  }

  lemma {:induction false} SpaceAfterGoes(s: Bytes, b: Bytes)
    requires AllSpace(b)
    ensures TrimTail(s + b) == TrimTail(s)
    decreases |b|
  {
    hide IsSpaceRune, AllSpace, TrailingSpace;
    if b == [] {
      assert s + b == s;
    } else {
      var w := LastSpace(b);
      assert (s + b)[|s + b| - w..] == b[|b| - w..] && (s + b)[..|s + b| - w] == s + b[..|b| - w];
      TrailingIsRune(s + b, w);
      SpaceAfterGoes(s, b[..|b| - w]);
    }
  }

  lemma VisibleStart(s: Bytes, b: Bytes)
    requires Visible(s) && s != []
    ensures LeadingSpace(s + b) == 0
  {
    hide IsSpaceRune;
    assert (s + b)[0] == s[0];
    forall w | 1 <= w <= 3 && w <= |s + b| ensures !IsSpaceRune((s + b)[..w]) {
      NotARune((s + b)[..w]);
    }
  }

  lemma NotARune(e: Bytes)
    requires e != [] && 0x20 < e[0] < 0x7F
    ensures !IsSpaceRune(e)
  {
  }

  lemma VisibleThenSpace(s: Bytes, b: Bytes)
    requires Visible(s) && AllSpace(b)
    ensures TrimLeft(s + b) == if s == [] then [] else s + b
  {
    if s == [] {
      hide AllSpace, LeadingSpace;
      assert s + b == b + [];
      SpaceBeforeGoes(b, []);
      NoSpaceAtEnds([]);
    } else {
      VisibleStart(s, b);
    }
  }

  lemma VisibleStays(s: Bytes)
    requires Visible(s)
    ensures TrimLeft(s) == s && TrimTail(s) == s
  {
    NoSpaceAtEnds(s);
    hide LeadingSpace, TrailingSpace, Visible;
  }

  // Text is all that is left of text with white space around it.
  lemma SpacesAroundGo(a: Bytes, s: Bytes, b: Bytes)
    requires AllSpace(a) && Visible(s) && AllSpace(b)
    ensures TrimSpace(a + (s + b)) == s
  {
    hide AllSpace, Visible, TrimLeft, TrimTail;
    VisibleStays(s);
    VisibleThenSpace(s, b);
    SpaceBeforeGoes(a, s + b);
    SpaceAfterGoes(s, b);
    if s == [] {
      VisibleStays([]);
    }
  }

  lemma VisibleIsTrimmed(s: Bytes)
    requires Visible(s)
    ensures TrimSpace(s) == s && TrimLineEnd(s) == s
    ensures LF !in s
  {
    NoSpaceAtEnds(s);
    hide LeadingSpace, TrailingSpace;
  }

  // ----------------------------------------------------- hexadecimal

  predicate IsHexDigit(b: byte) {
    0x30 <= b <= 0x39 || 0x41 <= b <= 0x46 || 0x61 <= b <= 0x66
  }

  function DigitValue(b: byte): (v: nat)
    requires IsHexDigit(b)
    ensures v < 16
  {
    if b <= 0x39 then b - 0x30 else if b <= 0x46 then b - 0x41 + 10 else b - 0x61 + 10
  }

  predicate AllHex(s: Bytes) {
    forall i :: 0 <= i < |s| ==> IsHexDigit(s[i])
  }

  function HexValue(s: Bytes): nat
    requires AllHex(s)
  {
    if s == [] then 0 else 16 * HexValue(s[..|s| - 1]) + DigitValue(s[|s| - 1])
  }

  const MAX_INT64 := 0x7FFF_FFFF_FFFF_FFFF

  // ParseInt(s, 16, 64): an optional sign, then digits that fit.
  function ParseHexInt64(s: Bytes): Option<int> {
    var signed := s != [] && (s[0] == 0x2B || s[0] == 0x2D);
    var digits := if signed then s[1..] else s;
    if digits == [] || !AllHex(digits) then None
    else
      var value: int := HexValue(digits);
      if signed && s[0] == 0x2D then
        (if value > MAX_INT64 + 1 then None else Some(-value))
      else if value > MAX_INT64 then None
      else Some(value)
  }

  const PLUS: byte := 0x2B
  const MINUS: byte := 0x2D

  // A number, after a sign or none, as int64 holds it.
  function Int64(value: int, negative: bool): Option<int> {
    if negative then (if value <= MAX_INT64 + 1 then Some(-value) else None)
    else if value <= MAX_INT64 then Some(value) else None
  }

  lemma HexNumbers(digits: Bytes)
    requires digits != [] && AllHex(digits)
    ensures ParseHexInt64(digits) == ParseHexInt64([PLUS] + digits) == Int64(HexValue(digits), false)
    ensures ParseHexInt64([MINUS] + digits) == Int64(HexValue(digits), true)
  {
    assert ([PLUS] + digits)[1..] == digits && ([MINUS] + digits)[1..] == digits;
    assert IsHexDigit(digits[0]);
  }

  // And nothing else is a number.
  lemma OnlyHexNumbers(s: Bytes)
    requires ParseHexInt64(s).Some?
    ensures exists digits ::
      digits != [] && AllHex(digits) && (s == digits || s == [PLUS] + digits || s == [MINUS] + digits)
  {
    var signed := s[0] == PLUS || s[0] == MINUS;
    var digits := if signed then s[1..] else s;
    assert signed ==> s == [s[0]] + digits;
  }

  // Digits mean the same in either case.
  lemma {:induction false} HexIgnoresCase(digits: Bytes)
    requires AllHex(digits)
    ensures AllHex(ToLower(digits)) && HexValue(ToLower(digits)) == HexValue(digits)
  {
    forall i | 0 <= i < |digits| ensures IsHexDigit(LowerByte(digits[i])) {
      assert IsHexDigit(digits[i]);
    }
    if digits != [] {
      var front := digits[..|digits| - 1];
      HexIgnoresCase(front);
      assert ToLower(digits)[..|digits| - 1] == ToLower(front);
      assert IsHexDigit(digits[|digits| - 1]);
    }
  }

  function HexDigit(v: nat): byte
    requires v < 16
  {
    if v < 10 then 0x30 + v else 0x61 + v - 10
  }

  function FormatHex(n: nat): Bytes {
    if n < 16 then [HexDigit(n)] else FormatHex(n / 16) + [HexDigit(n % 16)]
  }

  function Power16(k: nat): nat {
    if k == 0 then 1 else 16 * Power16(k - 1)
  }

  lemma {:induction false} HexRoundTrip(n: nat)
    ensures FormatHex(n) != [] && AllHex(FormatHex(n)) && Visible(FormatHex(n))
    ensures HexValue(FormatHex(n)) == n
  {
    var s := FormatHex(n);
    if n >= 16 {
      HexRoundTrip(n / 16);
      assert s[..|s| - 1] == FormatHex(n / 16);
    } else {
      assert s[..0] == [];
    }
  }

  lemma {:induction false} HexLength(n: nat, k: nat)
    requires k >= 1 && n < Power16(k)
    ensures |FormatHex(n)| <= k
  {
    if n >= 16 {
      HexLength(n / 16, k - 1);
    }
  }

  function LowerByte(b: byte): byte {
    if 0x41 <= b <= 0x5A then b + 0x20 else b
  }

  // strings.ToLower on ASCII letters.
  function ToLower(s: Bytes): (r: Bytes)
    ensures |r| == |s|
  {
    seq(|s|, i requires 0 <= i < |s| => LowerByte(s[i]))
  }

  // hex.EncodeToString
  function HexText(s: Bytes): (t: Bytes)
    ensures |t| == 2 * |s|
  {
    if s == [] then [] else [HexDigit(s[0] / 16), HexDigit(s[0] % 16)] + HexText(s[1..])
  }

  lemma {:induction false} HexTextIsHex(s: Bytes)
    ensures AllHex(HexText(s)) && Visible(HexText(s))
    ensures forall i :: 0 <= i < |HexText(s)| ==> HexText(s)[i] < 0x3A || HexText(s)[i] > 0x60
  {
    if s != [] {
      HexTextIsHex(s[1..]);
    }
  }

  lemma HexTextIsLower(s: Bytes)
    ensures ToLower(HexText(s)) == HexText(s)
  {
    HexTextIsHex(s);
  }

  lemma {:induction false} HexTextInjective(a: Bytes, b: Bytes)
    requires HexText(a) == HexText(b)
    ensures a == b
  {
    if a != [] {
      assert |HexText(b)| == |HexText(a)|;
      assert HexText(a)[0] == HexText(b)[0] && HexText(a)[1] == HexText(b)[1];
      assert HexText(a)[2..] == HexText(a[1..]) && HexText(b)[2..] == HexText(b[1..]);
      HexTextInjective(a[1..], b[1..]);
      assert a == [a[0]] + a[1..] && b == [b[0]] + b[1..];
    }
  }

  // hex.DecodeString
  function HexDecode(s: Bytes): Option<Bytes> {
    if s == [] then Some([])
    else if |s| == 1 || !IsHexDigit(s[0]) || !IsHexDigit(s[1]) then None
    else match HexDecode(s[2..])
      case Some(rest) => Some([DigitValue(s[0]) * 16 + DigitValue(s[1])] + rest)
      case None => None
  }

  lemma TwoDigits(a: byte, b: byte, v: byte)
    ensures IsHexDigit(a) && IsHexDigit(b) && DigitValue(a) * 16 + DigitValue(b) == v
       <==> LowerByte(a) == HexDigit(v / 16) && LowerByte(b) == HexDigit(v % 16)
  {
    OneDigit(a, v / 16);
    OneDigit(b, v % 16);
  }

  lemma OneDigit(a: byte, v: nat)
    requires v < 16
    ensures IsHexDigit(a) && DigitValue(a) == v <==> LowerByte(a) == HexDigit(v)
  {
  }

  // What decodes is exactly the hexadecimal text of some bytes, its digits in
  // either case.
  lemma {:induction false} HexDecodeIff(s: Bytes, raw: Bytes)
    ensures HexDecode(s) == Some(raw) <==> ToLower(s) == HexText(raw)
  {
    if |s| >= 2 && raw != [] {
      HexDecodeIff(s[2..], raw[1..]);
      TwoDigits(s[0], s[1], raw[0]);
      assert ToLower(s) == [LowerByte(s[0]), LowerByte(s[1])] + ToLower(s[2..]);
      assert raw == [raw[0]] + raw[1..];
      HeadsAgree(LowerByte(s[0]), LowerByte(s[1]), ToLower(s[2..]), HexDigit(raw[0] / 16), HexDigit(raw[0] % 16),
                 HexText(raw[1..]));
      assert HexText(raw) == [HexDigit(raw[0] / 16), HexDigit(raw[0] % 16)] + HexText(raw[1..]);
    }
  }

  lemma HexDecodeOfText(s: Bytes)
    ensures HexDecode(HexText(s)) == Some(s)
  {
    HexTextIsLower(s);
    HexDecodeIff(HexText(s), s);
  }

  lemma HeadsAgree(a: byte, b: byte, s: Bytes, c: byte, d: byte, t: Bytes)
    ensures [a, b] + s == [c, d] + t <==> a == c && b == d && s == t
  {
    assert s == ([a, b] + s)[2..] && t == ([c, d] + t)[2..];
  }

  // ----------------------------------------------------------- decimal

  predicate IsDigit(b: byte) {
    0x30 <= b <= 0x39
  }

  predicate AllDigits(s: Bytes) {
    forall i :: 0 <= i < |s| ==> IsDigit(s[i])
  }

  function DecimalValue(s: Bytes): nat
    requires AllDigits(s)
  {
    if s == [] then 0 else 10 * DecimalValue(s[..|s| - 1]) + (s[|s| - 1] - 0x30)
  }

  // strconv.Atoi on a 64-bit platform.
  function Atoi(s: Bytes): Option<int> {
    var signed := s != [] && (s[0] == 0x2B || s[0] == 0x2D);
    var digits := if signed then s[1..] else s;
    if digits == [] || !AllDigits(digits) then None
    else
      var value: int := DecimalValue(digits);
      if signed && s[0] == 0x2D then
        (if value > MAX_INT64 + 1 then None else Some(-value))
      else if value > MAX_INT64 then None
      else Some(value)
  }

  lemma DecimalNumbers(digits: Bytes)
    requires digits != [] && AllDigits(digits)
    ensures Atoi(digits) == Atoi([PLUS] + digits) == Int64(DecimalValue(digits), false)
    ensures Atoi([MINUS] + digits) == Int64(DecimalValue(digits), true)
  {
    assert ([PLUS] + digits)[1..] == digits && ([MINUS] + digits)[1..] == digits;
    assert IsDigit(digits[0]);
  }

  lemma OnlyDecimalNumbers(s: Bytes)
    requires Atoi(s).Some?
    ensures exists digits ::
      digits != [] && AllDigits(digits) && (s == digits || s == [PLUS] + digits || s == [MINUS] + digits)
  {
    var signed := s[0] == PLUS || s[0] == MINUS;
    var digits := if signed then s[1..] else s;
    assert signed ==> s == [s[0]] + digits;
  }

  // strconv.Itoa
  function Itoa(n: nat): Bytes {
    if n < 10 then [0x30 + n] else Itoa(n / 10) + [0x30 + n % 10]
  }

  lemma {:induction false} DecimalRoundTrip(n: nat)
    ensures Itoa(n) != [] && AllDigits(Itoa(n)) && DecimalValue(Itoa(n)) == n
    ensures n <= MAX_INT64 ==> Atoi(Itoa(n)) == Some(n)
  {
    var s := Itoa(n);
    if n >= 10 {
      DecimalRoundTrip(n / 10);
      assert s[..|s| - 1] == Itoa(n / 10);
    } else {
      assert s[..0] == [];
    }
    assert IsDigit(s[0]);
  }
}
