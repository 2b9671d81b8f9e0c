// aws-chunked framing as a grammar: what a byte stream decodes to, and how it
// ends, with no reader state.
module ChunkFraming {
  import opened Outcomes
  import opened Bytes
  import opened Streams
  import opened Text

  const MAX_CHUNK_HEADER_SIZE := 1024
  const MAX_CHUNK_SIZE := 16 * 1024 * 1024
  const MAX_TRAILER_BYTES := 8 * 1024

  const CRLF: Bytes := [0x0D, 0x0A]

  // sign is the hex HMAC under the request's signing key and digest the hex
  // SHA-256; both are left uninterpreted.
  datatype Framing =
    | Unsigned
    | Signed(timestamp: Bytes, scope: Bytes, sign: Bytes -> Bytes, digest: Bytes -> Bytes)
  {
    function StringToSign(prev: Bytes, data: Bytes): Bytes
      requires Signed?
    {
      Ascii("AWS4-HMAC-SHA256-PAYLOAD") + [LF] + timestamp + [LF] + scope + [LF]
        + prev + [LF] + digest([]) + [LF] + digest(data)
    }

    // The signature covering a chunk, given the one before it.
    function Signature(prev: Bytes, data: Bytes): Bytes
      requires Signed?
    {
      sign(StringToSign(prev, data))
    }
  }

  const CHUNK_PREFIX := Ascii("AWS4-HMAC-SHA256-PAYLOAD")

  // The text is the scheme's six lines, in its order.
  lemma SignedText(framing: Framing, prev: Bytes, data: Bytes)
    requires framing.Signed?
    ensures framing.StringToSign(prev, data)
         == JoinedBy([CHUNK_PREFIX, framing.timestamp, framing.scope, prev, framing.digest([]), framing.digest(data)],
                     LF)
  {
    hide Ascii;
    var d := framing.digest(data);
    var e := framing.digest([]) + [LF] + d;
    var p := prev + [LF] + e;
    var s := framing.scope + [LF] + p;
    var t := framing.timestamp + [LF] + s;
    assert JoinedBy([framing.digest([]), d], LF) == e;
    assert JoinedBy([prev, framing.digest([]), d], LF) == p;
    assert JoinedBy([framing.scope, prev, framing.digest([]), d], LF) == s;
    assert JoinedBy([framing.timestamp, framing.scope, prev, framing.digest([]), d], LF) == t;
    assert framing.StringToSign(prev, data) == CHUNK_PREFIX + [LF] + t;
  }

  lemma PrefixIsOneLine()
    ensures NoLineFeed(CHUNK_PREFIX)
  {
    AsciiChars("AWS4-HMAC-SHA256-PAYLOAD");
  }

  // It can be taken apart again where each of the other five is one line.
  lemma SixLines(framing: Framing, prev: Bytes, data: Bytes)
    requires framing.Signed? && NoLineFeed(framing.timestamp) && NoLineFeed(framing.scope) && NoLineFeed(prev)
    requires NoLineFeed(framing.digest([])) && NoLineFeed(framing.digest(data))
    ensures Split(framing.StringToSign(prev, data), LF)
         == [CHUNK_PREFIX, framing.timestamp, framing.scope, prev, framing.digest([]), framing.digest(data)]
  {
    PrefixIsOneLine();
    SignedText(framing, prev, data);
    hide Ascii, Split, JoinedBy, Framing.StringToSign;
    JoinedSplits([CHUNK_PREFIX, framing.timestamp, framing.scope, prev, framing.digest([]), framing.digest(data)], LF);
  }

  // ---------------------------------------------------------------- lines

  datatype Line = Line(text: Bytes, rest: Bytes) | NoLine(why: Failure)

  // The whole line is read before its length is checked.
  function NextLine(rest: Bytes, ending: Ending): (line: Line)
    ensures line.Line? ==> |line.rest| < |rest|
  {
    var i := FirstOf(rest, LF);
    if i < |rest| then
      (if i + 1 > MAX_CHUNK_HEADER_SIZE then NoLine(Malformed) else Line(TrimLineEnd(rest[..i + 1]), rest[i + 1..]))
    else if ending.ReadError? then NoLine(Malformed)
    else if rest == [] then NoLine(Eof)
    else if |rest| > MAX_CHUNK_HEADER_SIZE then NoLine(Malformed)
    else Line(TrimLineEnd(rest), [])
  }

  const CHUNK_SIGNATURE := "chunk-signature"

  function SignatureFrom(param: Bytes, present: bool): Result<Bytes, Failure> {
    if !present then Err(Malformed) else
    var cut := Cut(TrimSpace(param), EQUALS);
    if !cut.found || cut.before != Ascii(CHUNK_SIGNATURE) || cut.after == [] then Err(Malformed) else Ok(cut.after)
  }

  // A signature is accepted from exactly one spelling, white space around it
  // apart: its name, an equals sign, and something after it.
  lemma SignatureFromIff(param: Bytes, present: bool, s: Bytes)
    ensures SignatureFrom(param, present) == Ok(s)
       <==> present && s != [] && TrimSpace(param) == Ascii(CHUNK_SIGNATURE) + [EQUALS] + s
  {
    NameHasNoEquals();
    hide Ascii, TrimSpace, Cut;
    CutIff(TrimSpace(param), EQUALS, Ascii(CHUNK_SIGNATURE), s);
  }

  lemma NameHasNoEquals()
    ensures EQUALS !in Ascii(CHUNK_SIGNATURE)
  {
    AsciiChars(CHUNK_SIGNATURE);
    hide Ascii;
  }

  datatype Header = Header(size: nat, signature: Bytes)

  function ParseHeader(framing: Framing, line: Bytes): (h: Result<Header, Failure>)
    ensures h.Ok? ==> h.value.size <= MAX_CHUNK_SIZE
  {
    var cut := Cut(line, SEMICOLON);
    match ParseHexInt64(TrimSpace(cut.before))
    case None => Err(Malformed)
    case Some(size) =>
      if size < 0 || size > MAX_CHUNK_SIZE then Err(Malformed)
      else if framing.Unsigned? then Ok(Header(size, []))
      else match SignatureFrom(cut.after, cut.found)
        case Err(e) => Err(e)
        case Ok(signature) => Ok(Header(size, signature))
  }

  // A header line: a size, alone or before a semicolon and whatever follows. An
  // unsigned stream has no use for what follows; a signed one must find its
  // signature there.
  lemma HeaderSays(framing: Framing, size: Bytes, param: Bytes, n: int)
    requires SEMICOLON !in size && ParseHexInt64(TrimSpace(size)) == Some(n)
    ensures !(0 <= n <= 16 * 1024 * 1024) ==>
      ParseHeader(framing, size) == ParseHeader(framing, size + [SEMICOLON] + param) == Err(Malformed)
    ensures 0 <= n <= 16 * 1024 * 1024 && framing.Unsigned? ==>
      ParseHeader(framing, size) == ParseHeader(framing, size + [SEMICOLON] + param) == Ok(Header(n, []))
    ensures 0 <= n <= 16 * 1024 * 1024 && framing.Signed? ==>
      && ParseHeader(framing, size) == Err(Malformed)
      && forall s :: ParseHeader(framing, size + [SEMICOLON] + param) == Ok(Header(n, s))
                <==> SignatureFrom(param, true) == Ok(s)
  {
    CutJoins(size, SEMICOLON, param);
    hide Cut, ParseHexInt64, TrimSpace;
  }

  // The trailing header section, ending in Eof when it is acceptable.
  function Trailers(rest: Bytes, ending: Ending, read: nat): Failure
    decreases |rest|
  {
    match NextLine(rest, ending)
    case NoLine(why) => why
    case Line(text, tail) =>
      if text == [] then Eof
      else if read + |text| > MAX_TRAILER_BYTES then Malformed
      else Trailers(tail, ending, read + |text|)
  }

  // -------------------------------------------------------------- chunks

  // The stream decoded from a chunk boundary, prev being the last signature.
  function Decode(framing: Framing, rest: Bytes, ending: Ending, prev: Bytes): Stream
    decreases |rest|, 0
  {
    match NextLine(rest, ending)
    case NoLine(why) => Stream([], why)
    case Line(text, tail) =>
      match ParseHeader(framing, text)
      case Err(e) => Stream([], e)
      case Ok(h) =>
        if framing.Unsigned? then
          (if h.size == 0 then Stream([], Trailers(tail, ending, 0)) else Body(framing, tail, ending, prev, h.size))
        else if |tail| < h.size then Stream([], Malformed)
        else if h.signature != framing.Signature(prev, tail[..h.size]) then Stream([], BadSignature)
        else if h.size == 0 then Stream([], Trailers(tail, ending, 0))
        else Prepend(tail[..h.size], AfterData(framing, tail[h.size..], ending, h.signature))
  }

  // An unsigned chunk with n bytes still to come: what there is gets delivered.
  function Body(framing: Framing, rest: Bytes, ending: Ending, prev: Bytes, n: nat): Stream
    decreases |rest|, 2
  {
    if |rest| < n then Stream(rest, Malformed)
    else Prepend(rest[..n], AfterData(framing, rest[n..], ending, prev))
  }

  function AfterData(framing: Framing, rest: Bytes, ending: Ending, prev: Bytes): Stream
    decreases |rest|, 1
  {
    if HasPrefix(rest, CRLF) then Decode(framing, rest[2..], ending, prev) else Stream([], Malformed)
  }

  // --------------------------------------------------- how much a line takes

  // How many bytes are read for the next line, before its length is looked at:
  // through the first line feed, or all there is.
  function LineLength(rest: Bytes): nat {
    var i := FirstOf(rest, LF);
    if i < |rest| then i + 1 else |rest|
  }

  // A line keeps within a limit exactly when its line feed, or the end of the
  // stream, comes within it.
  lemma LineFitsIff(rest: Bytes, limit: nat)
    ensures LineLength(rest) <= limit <==> |rest| <= limit || LF in rest[..limit]
  {
    var i := FirstOf(rest, LF);
    if |rest| > limit {
      if i < limit {
        assert rest[..limit][i] == LF;
      }
      if LF in rest[..limit] {
        var j :| 0 <= j < limit && rest[..limit][j] == LF;
        assert rest[j] == LF;
      }
    }
  }

  // A line that fits the limit is read, one that does not is refused.
  lemma OnlyFittingLines(rest: Bytes, ending: Ending)
    ensures NextLine(rest, ending).Line? ==> LineLength(rest) <= MAX_CHUNK_HEADER_SIZE
    ensures ending.EndOfInput? && rest != [] && LineLength(rest) <= MAX_CHUNK_HEADER_SIZE ==>
      NextLine(rest, ending).Line?
  {
  }

  function Longer(a: nat, b: nat): nat {
    if a < b then b else a
  }

  // The longest line read for a trailer section.
  function LongestTrailer(rest: Bytes, ending: Ending, read: nat): nat
    decreases |rest|
  {
    match NextLine(rest, ending)
    case NoLine(_) => LineLength(rest)
    case Line(text, tail) =>
      if text == [] || read + |text| > MAX_TRAILER_BYTES then LineLength(rest)
      else Longer(LineLength(rest), LongestTrailer(tail, ending, read + |text|))
  }

  // The longest line read to get from one chunk boundary to the next chunk's
  // data: its header and, after the last chunk, the trailers.
  function LongestLine(framing: Framing, rest: Bytes, ending: Ending, prev: Bytes): nat {
    match NextLine(rest, ending)
    case NoLine(_) => LineLength(rest)
    case Line(text, tail) =>
      match ParseHeader(framing, text)
      case Err(_) => LineLength(rest)
      case Ok(h) =>
        if h.size != 0 || (framing.Signed? && h.signature != framing.Signature(prev, [])) then LineLength(rest)
        else Longer(LineLength(rest), LongestTrailer(tail, ending, 0))
  }

  // Where no header can be had.
  lemma NoHeader(framing: Framing, rest: Bytes, ending: Ending, prev: Bytes)
    ensures
      var line := NextLine(rest, ending);
      var failed := if line.NoLine? then Some(line.why)
                    else match ParseHeader(framing, line.text) case Err(e) => Some(e) case Ok(_) => None;
      failed.Some? ==>
        Decode(framing, rest, ending, prev) == Stream([], failed.value)
        && LongestLine(framing, rest, ending, prev) == LineLength(rest)
  {
    hide NextLine, ParseHeader, LineLength;
  }

  // Where there is one, what follows it.
  lemma WithHeader(framing: Framing, rest: Bytes, ending: Ending, prev: Bytes, text: Bytes, tail: Bytes, h: Header)
    requires NextLine(rest, ending) == Line(text, tail) && ParseHeader(framing, text) == Ok(h)
    ensures framing.Signed? && |tail| < h.size ==> Decode(framing, rest, ending, prev) == Stream([], Malformed)
    ensures framing.Signed? && |tail| >= h.size && h.signature != framing.Signature(prev, tail[..h.size]) ==>
      Decode(framing, rest, ending, prev) == Stream([], BadSignature)
    ensures framing.Signed? && |tail| >= h.size > 0 && h.signature == framing.Signature(prev, tail[..h.size]) ==>
      Decode(framing, rest, ending, prev)
      == Prepend(tail[..h.size], AfterData(framing, tail[h.size..], ending, h.signature))
    ensures framing.Unsigned? && h.size > 0 ==>
      Decode(framing, rest, ending, prev) == Body(framing, tail, ending, prev, h.size)
    ensures h.size == 0 && (framing.Signed? ==> h.signature == framing.Signature(prev, [])) ==>
      && Decode(framing, rest, ending, prev) == Stream([], Trailers(tail, ending, 0))
      && LongestLine(framing, rest, ending, prev) == Longer(LineLength(rest), LongestTrailer(tail, ending, 0))
    ensures h.size > 0 || (framing.Signed? && h.signature != framing.Signature(prev, [])) ==>
      LongestLine(framing, rest, ending, prev) == LineLength(rest)
  {
    hide NextLine, ParseHeader, LineLength, Trailers, LongestTrailer, Framing.Signature, Body, AfterData;
    assert tail[..0] == [];
  }

  // n bytes and no line feed.
  function Flood(n: nat): Bytes {
    seq(n, i => 0x30)
  }

  // Whatever limit is named, there is a stream whose first line is longer, and
  // it is refused only once all of it has been read.
  lemma FloodIsReadWhole(framing: Framing, prev: Bytes, n: nat)
    requires n > MAX_CHUNK_HEADER_SIZE
    ensures NextLine(Flood(n), EndOfInput) == NoLine(Malformed)
    ensures LongestLine(framing, Flood(n), EndOfInput, prev) == n
  {
    FirstOfIs(Flood(n), LF, n);
  }

  // ----------------------------------------------------------- soundness

  datatype SignedChunk = SignedChunk(data: Bytes, signature: Bytes)

  // Each chunk's signature covers its data and the signature before it.
  predicate Chained(framing: Framing, seed: Bytes, chunks: seq<SignedChunk>)
    requires framing.Signed?
    decreases |chunks|
  {
    chunks == [] || (
      && chunks[0].signature == framing.Signature(seed, chunks[0].data)
      && Chained(framing, chunks[0].signature, chunks[1..]))
  }

  function Payload(chunks: seq<SignedChunk>): Bytes {
    if chunks == [] then [] else chunks[0].data + Payload(chunks[1..])
  }

  // The chunks of a signed stream that pass the signature check.
  function Accepted(framing: Framing, rest: Bytes, ending: Ending, prev: Bytes): seq<SignedChunk>
    requires framing.Signed?
    decreases |rest|
  {
    match NextLine(rest, ending)
    case NoLine(_) => []
    case Line(text, tail) =>
      match ParseHeader(framing, text)
      case Err(_) => []
      case Ok(h) =>
        if h.size == 0 || |tail| < h.size || h.signature != framing.Signature(prev, tail[..h.size]) then [] else
        [SignedChunk(tail[..h.size], h.signature)]
        + (if HasPrefix(tail[h.size..], CRLF) then Accepted(framing, tail[h.size..][2..], ending, h.signature) else [])
  }

  // Whatever the input, malformed, tampered with or cut short, all that a
  // signed stream delivers is data verified along the chain from the seed.
  lemma {:induction false} SignedDataIsVerified(framing: Framing, rest: Bytes, ending: Ending, seed: Bytes)
    requires framing.Signed?
    ensures Chained(framing, seed, Accepted(framing, rest, ending, seed))
    ensures Decode(framing, rest, ending, seed).data == Payload(Accepted(framing, rest, ending, seed))
    decreases |rest|
  {
    var line := NextLine(rest, ending);
    if line.Line? {
      var header := ParseHeader(framing, line.text);
      if header.Ok? && 0 < header.value.size <= |line.rest| {
        var tail := line.rest[header.value.size..];
        if HasPrefix(tail, CRLF) {
          SignedDataIsVerified(framing, tail[2..], ending, header.value.signature);
        }
      }
    }
  }

  // The signature the i-th chunk of a chain is made over.
  function Before(seed: Bytes, sent: seq<SignedChunk>, i: nat): Bytes
    requires i <= |sent|
  {
    if i == 0 then seed else sent[i - 1].signature
  }

  lemma {:induction false} ChainedAt(framing: Framing, seed: Bytes, sent: seq<SignedChunk>, i: nat)
    requires framing.Signed? && Chained(framing, seed, sent) && i < |sent|
    ensures sent[i].signature == framing.Signature(Before(seed, sent, i), sent[i].data)
    decreases i
  {
    if i > 0 {
      ChainedAt(framing, sent[0].signature, sent[1..], i - 1);
    }
  }

  // Signatures of different chunks differ.
  ghost predicate CollisionFree(framing: Framing)
    requires framing.Signed?
  {
    forall p1, d1, p2, d2 :: framing.Signature(p1, d1) == framing.Signature(p2, d2) ==> p1 == p2 && d1 == d2
  }

  // Neither the HMAC nor the digest takes one value twice, and a digest is one
  // line.
  ghost predicate HashesApart(framing: Framing)
    requires framing.Signed?
  {
    && (forall a, b :: framing.sign(a) == framing.sign(b) ==> a == b)
    && (forall a, b :: framing.digest(a) == framing.digest(b) ==> a == b)
    && (forall a :: NoLineFeed(framing.digest(a)))
  }

  // There are such functions.
  lemma HashesCanBeApart(timestamp: Bytes, scope: Bytes)
    ensures HashesApart(Signed(timestamp, scope, HexText, HexText))
  {
    forall a, b | HexText(a) == HexText(b) ensures a == b {
      HexTextInjective(a, b);
    }
    forall a ensures NoLineFeed(HexText(a)) {
      HexTextIsHex(a);
    }
  }

  // Then a signature tells the chunk and the signature before it, though the
  // text signed is only their lines put one after the other.
  lemma SignaturesApart(framing: Framing)
    requires framing.Signed? && HashesApart(framing)
    ensures CollisionFree(framing)
  {
    forall p1, d1, p2, d2 | framing.Signature(p1, d1) == framing.Signature(p2, d2) ensures p1 == p2 && d1 == d2 {
      SameLines(framing, p1, d1, p2, d2);
    }
  }

  lemma SameLines(framing: Framing, p1: Bytes, d1: Bytes, p2: Bytes, d2: Bytes)
    requires framing.Signed? && HashesApart(framing)
    requires framing.StringToSign(p1, d1) == framing.StringToSign(p2, d2)
    ensures p1 == p2 && d1 == d2
  {
    hide Ascii, NoLineFeed;
    var head := Ascii("AWS4-HMAC-SHA256-PAYLOAD") + [LF] + framing.timestamp + [LF] + framing.scope + [LF];
    var empty := framing.digest([]);
    LastLine(head + p1 + [LF] + empty, framing.digest(d1), head + p2 + [LF] + empty, framing.digest(d2));
    LastLine(head + p1, empty, head + p2, empty);
    assert p1 == (head + p1)[|head|..] && p2 == (head + p2)[|head|..];
  }

  predicate SeedIsNew(seed: Bytes, sent: seq<SignedChunk>) {
    forall i :: 0 <= i < |sent| ==> sent[i].signature != seed
  }

  lemma {:induction false} PlacesDiffer(framing: Framing, seed: Bytes, sent: seq<SignedChunk>, i: nat, j: nat)
    requires framing.Signed? && Chained(framing, seed, sent) && CollisionFree(framing) && SeedIsNew(seed, sent)
    requires i <= |sent| && j <= |sent| && Before(seed, sent, i) == Before(seed, sent, j)
    ensures i == j
  {
    if i > 0 && j > 0 {
      ChainedAt(framing, seed, sent, i - 1);
      ChainedAt(framing, seed, sent, j - 1);
      PlacesDiffer(framing, seed, sent, i - 1, j - 1);
    }
  }

  // If every signature that verifies is one the sender made, in whatever order
  // the chunks were replayed, the reader sees the sender's chunks, in order and
  // from the first: they can only be cut short.
  lemma {:induction false} OnlyAPrefix(framing: Framing, seed: Bytes, sent: seq<SignedChunk>, i: nat,
      chunks: seq<SignedChunk>)
    requires framing.Signed? && Chained(framing, seed, sent) && HashesApart(framing) && SeedIsNew(seed, sent)
    requires i <= |sent| && Chained(framing, Before(seed, sent, i), chunks)
    requires forall c :: c in chunks ==> IsSignatureOf(c, sent)
    ensures i + |chunks| <= |sent| && chunks == sent[i..i + |chunks|]
    decreases |chunks|
  {
    SignaturesApart(framing);
    hide Framing.Signature, SeedIsNew, HashesApart;
    if chunks != [] {
      NextIsNext(framing, seed, sent, i, chunks[0]);
      hide CollisionFree;
      assert Chained(framing, chunks[0].signature, chunks[1..]);
      OnlyAPrefix(framing, seed, sent, i + 1, chunks[1..]);
      assert chunks == [chunks[0]] + chunks[1..];
      assert sent[i..i + |chunks|] == [sent[i]] + sent[i + 1..i + |chunks|];
    }
  }

  predicate IsSignatureOf(c: SignedChunk, sent: seq<SignedChunk>) {
    exists j :: 0 <= j < |sent| && sent[j].signature == c.signature
  }

  // A chunk that verifies in the i-th place is the one sent there.
  lemma NextIsNext(framing: Framing, seed: Bytes, sent: seq<SignedChunk>, i: nat, c: SignedChunk)
    requires framing.Signed? && Chained(framing, seed, sent) && CollisionFree(framing) && SeedIsNew(seed, sent)
    requires i <= |sent| && c.signature == framing.Signature(Before(seed, sent, i), c.data) && IsSignatureOf(c, sent)
    ensures i < |sent| && c == sent[i]
  {
    hide Framing.Signature, SeedIsNew, Chained;
    var j :| 0 <= j < |sent| && sent[j].signature == c.signature;
    ChainedAt(framing, seed, sent, j);
    PlacesDiffer(framing, seed, sent, i, j);
  }

  // Tampering is truncation at worst.
  lemma TamperingOnlyTruncates(framing: Framing, rest: Bytes, ending: Ending, seed: Bytes, sent: seq<SignedChunk>)
    requires framing.Signed? && Chained(framing, seed, sent) && HashesApart(framing) && SeedIsNew(seed, sent)
    requires forall c :: c in Accepted(framing, rest, ending, seed) ==> IsSignatureOf(c, sent)
    ensures exists k :: 0 <= k <= |sent| && Decode(framing, rest, ending, seed).data == Payload(sent[..k])
  {
    var chunks := Accepted(framing, rest, ending, seed);
    SignedDataIsVerified(framing, rest, ending, seed);
    OnlyAPrefix(framing, seed, sent, 0, chunks);
    assert chunks == sent[..|chunks|];
  }

  // ---------------------------------------------------------- round trip

  // A sender's framing of a payload already split into chunks.
  function Encode(framing: Framing, chunks: seq<Bytes>, trailers: seq<Bytes>, prev: Bytes): Bytes
    decreases |chunks|
  {
    if chunks == [] then
      HeaderLine(framing, [], prev) + TrailerLines(trailers)
    else
      HeaderLine(framing, chunks[0], prev) + chunks[0] + CRLF
      + Encode(framing, chunks[1..], trailers, NextSignature(framing, chunks[0], prev))
  }

  function NextSignature(framing: Framing, data: Bytes, prev: Bytes): Bytes {
    if framing.Signed? then framing.Signature(prev, data) else prev
  }

  function HeaderText(framing: Framing, data: Bytes, prev: Bytes): Bytes {
    match framing
    case Unsigned => FormatHex(|data|)
    case Signed(_, _, _, _) =>
      FormatHex(|data|) + [SEMICOLON] + (Ascii(CHUNK_SIGNATURE) + [EQUALS] + framing.Signature(prev, data))
  }

  function HeaderLine(framing: Framing, data: Bytes, prev: Bytes): Bytes {
    HeaderText(framing, data, prev) + CRLF
  }

  function TrailerLines(trailers: seq<Bytes>): Bytes {
    if trailers == [] then CRLF else trailers[0] + CRLF + TrailerLines(trailers[1..])
  }

  function TotalLength(lines: seq<Bytes>): nat {
    if lines == [] then 0 else |lines[0]| + TotalLength(lines[1..])
  }

  // A header line that survives the reader's own trimming and limits.
  predicate TrailerOk(line: Bytes) {
    && line != [] && LF !in line && line[|line| - 1] != CR
    && |line| + 2 <= MAX_CHUNK_HEADER_SIZE
  }

  predicate Sendable(chunks: seq<Bytes>, trailers: seq<Bytes>) {
    && (forall i :: 0 <= i < |chunks| ==> 1 <= |chunks[i]| <= MAX_CHUNK_SIZE)
    && (forall i :: 0 <= i < |trailers| ==> TrailerOk(trailers[i]))
    && TotalLength(trailers) <= MAX_TRAILER_BYTES
  }

  // Signatures are the 64 hexadecimal digits of a SHA-256 HMAC.
  ghost predicate HexSignatures(framing: Framing) {
    framing.Signed? ==> forall prev, data :: HexSignature(framing.Signature(prev, data))
  }

  predicate HexSignature(s: Bytes) {
    |s| == 64 && AllHex(s)
  }

  lemma LineIsNext(text: Bytes, rest: Bytes, ending: Ending)
    requires LF !in text && (text == [] || text[|text| - 1] != CR) && |text| + 2 <= MAX_CHUNK_HEADER_SIZE
    ensures NextLine(text + CRLF + rest, ending) == Line(text, rest)
  {
    var s := text + CRLF + rest;
    assert s[|text| + 1] == LF && forall j :: 0 <= j < |text| ==> s[j] == text[j];
    FirstOfIs(s, LF, |text| + 1);
    assert s[..|text| + 2] == text + CRLF && s[|text| + 2..] == rest;
    TrimsLineEnd(text);
  }

  lemma TrimsLineEnd(text: Bytes)
    requires text == [] || (text[|text| - 1] != CR && text[|text| - 1] != LF)
    ensures TrimLineEnd(text + CRLF) == text
  {
    var s := text + CRLF;
    assert s[..|s| - 1] == text + [CR];
    assert (text + [CR])[..|text|] == text;
    assert TrimLineEnd(s) == TrimLineEnd(text + [CR]) == TrimLineEnd(text);
  }

  lemma SizeParses(n: nat)
    requires n <= MAX_CHUNK_SIZE
    ensures ParseHexInt64(TrimSpace(FormatHex(n))) == Some(n)
    ensures Visible(FormatHex(n)) && 1 <= |FormatHex(n)| <= 7
    ensures SEMICOLON !in FormatHex(n)
  {
    hide FormatHex, TrimSpace, ParseHexInt64;
    HexRoundTrip(n);
    VisibleIsTrimmed(FormatHex(n));
    HexNumbers(FormatHex(n));
    SevenDigits();
    HexLength(n, 7);
    HexHasNoSemicolon(FormatHex(n));
  }

  lemma HexHasNoSemicolon(s: Bytes)
    requires AllHex(s)
    ensures SEMICOLON !in s
  {
  }

  lemma SevenDigits()
    ensures Power16(7) == 0x1000_0000
  {
    assert Power16(3) == 0x1000;
  }

  lemma SignatureParses(s: Bytes)
    requires HexSignature(s)
    ensures SignatureFrom(Ascii(CHUNK_SIGNATURE) + [EQUALS] + s, true) == Ok(s)
    ensures Visible(Ascii(CHUNK_SIGNATURE) + [EQUALS] + s)
  {
    var name := Ascii(CHUNK_SIGNATURE);
    assert Visible(name) && EQUALS !in name;
    VisibleIsTrimmed(name + [EQUALS] + s);
    CutJoins(name, EQUALS, s);
  }

  lemma VisibleJoin(a: Bytes, b: byte, c: Bytes)
    requires Visible(a) && Visible(c) && 0x20 < b < 0x7F
    ensures Visible(a + [b] + c) && |a + [b] + c| == |a| + 1 + |c|
  {
  }

  lemma ParseSigned(framing: Framing, line: Bytes, size: Bytes, n: nat, param: Bytes, s: Bytes)
    requires framing.Signed? && Cut(line, SEMICOLON) == Halves(size, param, true)
    requires n <= MAX_CHUNK_SIZE && ParseHexInt64(TrimSpace(size)) == Some(n) && SignatureFrom(param, true) == Ok(s)
    ensures ParseHeader(framing, line) == Ok(Header(n, s))
  {
    hide Cut, ParseHexInt64, TrimSpace, SignatureFrom;
  }

  lemma SignedHeaderParses(framing: Framing, n: nat, s: Bytes)
    requires framing.Signed? && n <= MAX_CHUNK_SIZE && HexSignature(s)
    ensures
      var text := FormatHex(n) + [SEMICOLON] + (Ascii(CHUNK_SIGNATURE) + [EQUALS] + s);
      && ParseHeader(framing, text) == Ok(Header(n, s))
      && text != [] && Visible(text) && |text| + 2 <= MAX_CHUNK_HEADER_SIZE
  {
    hide FormatHex, TrimSpace, Cut, ParseHexInt64, SignatureFrom, Ascii, AllHex, Visible, ParseHeader;
    var size, param := FormatHex(n), Ascii(CHUNK_SIGNATURE) + [EQUALS] + s;
    SizeParses(n);
    SignatureParses(s);
    CutJoins(size, SEMICOLON, param);
    VisibleJoin(size, SEMICOLON, param);
    ParseSigned(framing, size + [SEMICOLON] + param, size, n, param, s);
    assert |Ascii(CHUNK_SIGNATURE)| == 15;
    assert |s| == 64;
  }

  lemma UnsignedHeaderParses(n: nat)
    requires n <= MAX_CHUNK_SIZE
    ensures ParseHeader(Unsigned, FormatHex(n)) == Ok(Header(n, []))
    ensures FormatHex(n) != [] && Visible(FormatHex(n)) && |FormatHex(n)| + 2 <= MAX_CHUNK_HEADER_SIZE
  {
    SizeParses(n);
    CutJoins(FormatHex(n), SEMICOLON, []);
    hide FormatHex, TrimSpace, Cut, ParseHexInt64;
  }

  lemma HeaderParses(framing: Framing, data: Bytes, prev: Bytes)
    requires |data| <= MAX_CHUNK_SIZE && HexSignatures(framing)
    ensures
      var h := Header(|data|, if framing.Signed? then framing.Signature(prev, data) else []);
      ParseHeader(framing, HeaderText(framing, data, prev)) == Ok(h)
    ensures
      var text := HeaderText(framing, data, prev);
      text != [] && Visible(text) && |text| + 2 <= MAX_CHUNK_HEADER_SIZE
  {
    hide ParseHeader, FormatHex, Framing.Signature, HexSignature, Visible, Ascii;
    if framing.Signed? {
      assert HexSignature(framing.Signature(prev, data));
      SignedHeaderParses(framing, |data|, framing.Signature(prev, data));
    } else {
      UnsignedHeaderParses(|data|);
    }
  }

  // A trailer section is accepted exactly when its lines, their terminators not
  // counted, keep within the limit together.
  lemma {:induction false} TrailersIff(trailers: seq<Bytes>, ending: Ending, read: nat)
    requires read <= MAX_TRAILER_BYTES && forall i :: 0 <= i < |trailers| ==> TrailerOk(trailers[i])
    ensures Trailers(TrailerLines(trailers), ending, read)
         == if read + TotalLength(trailers) <= MAX_TRAILER_BYTES then Eof else Malformed
    decreases |trailers|
  {
    hide NextLine;
    if trailers == [] {
      LineIsNext([], [], ending);
      assert [] + CRLF + [] == CRLF;
    } else {
      assert TrailerOk(trailers[0]);
      LineIsNext(trailers[0], TrailerLines(trailers[1..]), ending);
      if read + |trailers[0]| <= MAX_TRAILER_BYTES {
        TrailersIff(trailers[1..], ending, read + |trailers[0]|);
      }
    }
  }

  // Every split of every payload comes back whole, signed or not, and whatever
  // the connection does after the last byte.
  lemma {:induction false} RoundTrip(framing: Framing, chunks: seq<Bytes>, trailers: seq<Bytes>, ending: Ending,
      prev: Bytes)
    requires HexSignatures(framing) && Sendable(chunks, trailers)
    ensures Decode(framing, Encode(framing, chunks, trailers, prev), ending, prev) == Stream(Joined(chunks), Eof)
    decreases |chunks|
  {
    if chunks == [] {
      HeaderDecodes(framing, [], TrailerLines(trailers), ending, prev);
      TrailersIff(trailers, ending, 0);
      var tail := TrailerLines(trailers);
      assert tail[..0] == [];
    } else {
      var next := NextSignature(framing, chunks[0], prev);
      var tail := Encode(framing, chunks[1..], trailers, next);
      RoundTrip(framing, chunks[1..], trailers, ending, next);
      ChunkDecodes(framing, chunks[0], tail, ending, prev);
    }
  }

  lemma HeaderDecodes(framing: Framing, data: Bytes, tail: Bytes, ending: Ending, prev: Bytes)
    requires |data| <= MAX_CHUNK_SIZE && HexSignatures(framing)
    ensures NextLine(HeaderLine(framing, data, prev) + tail, ending) == Line(HeaderText(framing, data, prev), tail)
    ensures ParseHeader(framing, HeaderText(framing, data, prev))
         == Ok(Header(|data|, if framing.Signed? then framing.Signature(prev, data) else []))
  {
    HeaderParses(framing, data, prev);
    LineIsNext(HeaderText(framing, data, prev), tail, ending);
  }

  // One chunk whose header is known to parse.
  lemma DecodeStep(framing: Framing, rest: Bytes, ending: Ending, prev: Bytes, text: Bytes, tail: Bytes, h: Header)
    requires NextLine(rest, ending) == Line(text, tail) && ParseHeader(framing, text) == Ok(h)
    requires 1 <= h.size <= |tail|
    requires framing.Signed? ==> h.signature == framing.Signature(prev, tail[..h.size])
    ensures Decode(framing, rest, ending, prev)
         == Prepend(tail[..h.size],
                    AfterData(framing, tail[h.size..], ending, if framing.Signed? then h.signature else prev))
  {
    hide NextLine, ParseHeader, Framing.Signature, AfterData;
  }

  lemma EndsChunk(framing: Framing, data: Bytes, tail: Bytes, ending: Ending, prev: Bytes)
    ensures
      var after := data + CRLF + tail;
      && after[..|data|] == data
      && AfterData(framing, after[|data|..], ending, prev) == Decode(framing, tail, ending, prev)
  {
    var after := data + CRLF + tail;
    assert after[|data|..] == CRLF + tail;
    assert (CRLF + tail)[2..] == tail;
  }

  lemma ChunkDecodes(framing: Framing, data: Bytes, tail: Bytes, ending: Ending, prev: Bytes)
    requires 1 <= |data| <= MAX_CHUNK_SIZE && HexSignatures(framing)
    ensures Decode(framing, HeaderLine(framing, data, prev) + data + CRLF + tail, ending, prev)
         == Prepend(data, Decode(framing, tail, ending, NextSignature(framing, data, prev)))
  {
    hide NextLine, ParseHeader, HeaderText, HeaderLine, Framing.Signature, HexSignatures, Decode, AfterData;
    var after := data + CRLF + tail;
    var rest := HeaderLine(framing, data, prev) + after;
    assert HeaderLine(framing, data, prev) + data + CRLF + tail == rest;
    HeaderDecodes(framing, data, after, ending, prev);
    EndsChunk(framing, data, tail, ending, NextSignature(framing, data, prev));
    var h := Header(|data|, if framing.Signed? then framing.Signature(prev, data) else []);
    DecodeStep(framing, rest, ending, prev, HeaderText(framing, data, prev), after, h);
  }
}
