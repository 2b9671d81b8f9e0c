// Which streams are read to an ordinary end: exactly those laid out as chunks,
// each as long as its header says, and a proper ending.
module ChunkGrammar {
  import opened Outcomes
  import opened Bytes
  import opened Streams
  import opened Text
  import opened ChunkFraming

  // A chunk as it is laid out: its header line, line feed included, and its data.
  datatype Chunk = Chunk(line: Bytes, data: Bytes)

  function Laid(chunks: seq<Chunk>): Bytes {
    if chunks == [] then [] else chunks[0].line + (chunks[0].data + (CRLF + Laid(chunks[1..])))
  }

  function DataOf(chunks: seq<Chunk>): Bytes {
    if chunks == [] then [] else chunks[0].data + DataOf(chunks[1..])
  }

  // One line and no more, within the limit.
  predicate WholeLine(line: Bytes) {
    line != [] && |line| <= 1024 && line[|line| - 1] == LF && LF !in line[..|line| - 1]
  }

  // A last line may lack its line feed if the input just ends.
  predicate LastLine(line: Bytes, ending: Ending) {
    line != [] && |line| <= 1024 && LF !in line && ending.EndOfInput?
  }

  // A line that announces this data and, in a signed stream, carries its signature.
  predicate Announces(framing: Framing, line: Bytes, prev: Bytes, data: Bytes) {
    var signature := if framing.Signed? then framing.Signature(prev, data) else [];
    ParseHeader(framing, TrimLineEnd(line)) == Ok(Header(|data|, signature))
  }

  predicate WellFormed(framing: Framing, chunks: seq<Chunk>, prev: Bytes)
    decreases |chunks|
  {
    chunks == [] || (
      && WholeLine(chunks[0].line) && chunks[0].data != [] && Announces(framing, chunks[0].line, prev, chunks[0].data)
      && WellFormed(framing, chunks[1..], NextSignature(framing, chunks[0].data, prev)))
  }

  // The signature in force after some chunks.
  function SignatureAfter(framing: Framing, chunks: seq<Chunk>, prev: Bytes): Bytes
    decreases |chunks|
  {
    if chunks == [] then prev
    else SignatureAfter(framing, chunks[1..], NextSignature(framing, chunks[0].data, prev))
  }

  // The input ends at a chunk boundary, or after an empty chunk and acceptable
  // trailers.
  ghost predicate EndsWell(framing: Framing, tail: Bytes, ending: Ending, prev: Bytes) {
    || (tail == [] && ending.EndOfInput?)
    || exists line, trailers ::
         && tail == line + trailers
         && (WholeLine(line) || (trailers == [] && LastLine(line, ending)))
         && Announces(framing, line, prev, []) && Trailers(trailers, ending, 0) == Eof
  }

  ghost predicate IsFramed(framing: Framing, rest: Bytes, ending: Ending, prev: Bytes, data: Bytes) {
    exists chunks, tail ::
      && rest == Laid(chunks) + tail && WellFormed(framing, chunks, prev) && DataOf(chunks) == data
      && EndsWell(framing, tail, ending, SignatureAfter(framing, chunks, prev))
  }

  // ---------------------------------------------------------------- lines

  // The next line is the one the input starts with, if it is within the limit.
  lemma NextLineIff(line: Bytes, tail: Bytes, ending: Ending)
    requires WholeLine(line) || (tail == [] && LastLine(line, ending))
    ensures NextLine(line + tail, ending) == Line(TrimLineEnd(line), tail)
  {
    var s := line + tail;
    if WholeLine(line) {
      forall j | 0 <= j < |line| - 1 ensures s[j] != LF {
        assert s[j] == line[..|line| - 1][j];
      }
      FirstOfIs(s, LF, |line| - 1);
      assert s[..|line|] == line && s[|line|..] == tail;
    } else {
      assert s == line;
      FirstOfIs(s, LF, |line|);
    }
  }

  lemma LineOf(rest: Bytes, ending: Ending) returns (line: Bytes)
    requires NextLine(rest, ending).Line?
    ensures
      var next := NextLine(rest, ending);
      && rest == line + next.rest && next.text == TrimLineEnd(line)
      && (WholeLine(line) || (next.rest == [] && LastLine(line, ending)))
  {
    var i := FirstOf(rest, LF);
    line := if i < |rest| then rest[..i + 1] else rest;
  }

  // Without a line there is an ordinary end only where the input has ended.
  lemma NoLineEnds(rest: Bytes, ending: Ending)
    ensures NextLine(rest, ending) == NoLine(Eof) <==> rest == [] && ending.EndOfInput?
    ensures NextLine(rest, ending).NoLine? && NextLine(rest, ending).why != Eof ==>
      NextLine(rest, ending).why == Malformed
  {
  }

  // ---------------------------------------------- what is laid out is read

  lemma {:induction false} FramedIsRead(framing: Framing, chunks: seq<Chunk>, tail: Bytes, ending: Ending, prev: Bytes)
    requires WellFormed(framing, chunks, prev)
    requires EndsWell(framing, tail, ending, SignatureAfter(framing, chunks, prev))
    ensures Decode(framing, Laid(chunks) + tail, ending, prev) == Stream(DataOf(chunks), Eof)
    decreases |chunks|
  {
    hide Decode, WholeLine, Announces;
    if chunks == [] {
      assert Laid(chunks) + tail == tail;
      EndIsRead(framing, tail, ending, prev);
    } else {
      var c := chunks[0];
      var next := NextSignature(framing, c.data, prev);
      FramedIsRead(framing, chunks[1..], tail, ending, next);
      var rest := Laid(chunks[1..]) + tail;
      LaidStep(chunks, tail);
      hide Laid;
      ChunkIsRead(framing, c, rest, ending, prev);
    }
  }

  lemma LaidStep(chunks: seq<Chunk>, tail: Bytes)
    requires chunks != []
    ensures Laid(chunks) + tail == chunks[0].line + (chunks[0].data + (CRLF + (Laid(chunks[1..]) + tail)))
  {
  }

  lemma EndIsRead(framing: Framing, tail: Bytes, ending: Ending, prev: Bytes)
    requires EndsWell(framing, tail, ending, prev)
    ensures Decode(framing, tail, ending, prev) == Stream([], Eof)
  {
    hide Decode, NextLine, ParseHeader, TrimLineEnd, Trailers, WholeLine, LastLine, Framing.Signature;
    if tail == [] && ending.EndOfInput? {
      NoLineEnds(tail, ending);
      NoHeader(framing, tail, ending, prev);
    } else {
      var line, trailers :| tail == line + trailers
        && (WholeLine(line) || (trailers == [] && LastLine(line, ending)))
        && Announces(framing, line, prev, []) && Trailers(trailers, ending, 0) == Eof;
      NextLineIff(line, trailers, ending);
      var signature := if framing.Signed? then framing.Signature(prev, []) else [];
      WithHeader(framing, tail, ending, prev, TrimLineEnd(line), trailers, Header(0, signature));
    }
  }

  lemma ChunkIsRead(framing: Framing, c: Chunk, rest: Bytes, ending: Ending, prev: Bytes)
    requires WholeLine(c.line) && c.data != [] && Announces(framing, c.line, prev, c.data)
    ensures Decode(framing, c.line + (c.data + (CRLF + rest)), ending, prev)
         == Prepend(c.data, Decode(framing, rest, ending, NextSignature(framing, c.data, prev)))
  {
    hide Decode, NextLine, ParseHeader, TrimLineEnd, WholeLine, Framing.Signature, AfterData;
    var tail := c.data + (CRLF + rest);
    NextLineIff(c.line, tail, ending);
    EndsChunk(framing, c.data, rest, ending, NextSignature(framing, c.data, prev));
    assert tail == c.data + CRLF + rest;
    var signature := if framing.Signed? then framing.Signature(prev, c.data) else [];
    DecodeStep(framing, c.line + tail, ending, prev, TrimLineEnd(c.line), tail, Header(|c.data|, signature));
  }

  // ---------------------------------------------- what is read is laid out

  lemma EmptyChunkIsFramed(framing: Framing, line: Bytes, tail: Bytes, ending: Ending, prev: Bytes)
    requires WholeLine(line) || (tail == [] && LastLine(line, ending))
    requires Announces(framing, line, prev, []) && Trailers(tail, ending, 0) == Eof
    ensures IsFramed(framing, line + tail, ending, prev, [])
  {
    hide Announces, Trailers, WholeLine, LastLine;
    var none: seq<Chunk> := [];
    assert line + tail == Laid(none) + (line + tail) && DataOf(none) == [] && WellFormed(framing, none, prev);
    assert EndsWell(framing, line + tail, ending, SignatureAfter(framing, none, prev));
  }

  lemma OneMoreChunk(framing: Framing, c: Chunk, after: Bytes, ending: Ending, prev: Bytes, data: Bytes)
    requires WholeLine(c.line) && c.data != [] && Announces(framing, c.line, prev, c.data)
    requires IsFramed(framing, after, ending, NextSignature(framing, c.data, prev), data)
    ensures IsFramed(framing, c.line + (c.data + (CRLF + after)), ending, prev, c.data + data)
  {
    hide EndsWell, WholeLine, Announces, NextSignature;
    var next := NextSignature(framing, c.data, prev);
    var chunks, tail :|
      && after == Laid(chunks) + tail && WellFormed(framing, chunks, next) && DataOf(chunks) == data
      && EndsWell(framing, tail, ending, SignatureAfter(framing, chunks, next));
    var all := [c] + chunks;
    assert all[0] == c && all[1..] == chunks;
    assert WellFormed(framing, all, prev) && DataOf(all) == c.data + data;
    assert SignatureAfter(framing, all, prev) == SignatureAfter(framing, chunks, next);
    assert c.line + (c.data + (CRLF + after)) == Laid(all) + tail;
  }

  // A chunk that is read up to the next boundary has all its data, its line break
  // and, in a signed stream, its signature.
  lemma DataFollows(framing: Framing, line: Bytes, tail: Bytes, ending: Ending, prev: Bytes, h: Header)
    requires NextLine(line + tail, ending) == Line(TrimLineEnd(line), tail)
    requires ParseHeader(framing, TrimLineEnd(line)) == Ok(h) && h.size > 0 && (framing.Unsigned? ==> h.signature == [])
    requires Decode(framing, line + tail, ending, prev).end == Eof
    ensures |tail| >= h.size + 2 && Announces(framing, line, prev, tail[..h.size])
    ensures tail == tail[..h.size] + (CRLF + tail[h.size..][2..])
    ensures Decode(framing, line + tail, ending, prev)
         == Prepend(tail[..h.size], Decode(framing, tail[h.size..][2..], ending,
                                           NextSignature(framing, tail[..h.size], prev)))
  {
    hide NextLine, ParseHeader, Framing.Signature, Decode, TrimLineEnd;
    WithHeader(framing, line + tail, ending, prev, TrimLineEnd(line), tail, h);
    var after := tail[h.size..];
    assert tail == tail[..h.size] + after;
    assert HasPrefix(after, CRLF);
    assert after == CRLF + after[2..];
  }

  lemma {:induction false} ReadIsFramed(framing: Framing, rest: Bytes, ending: Ending, prev: Bytes)
    requires Decode(framing, rest, ending, prev).end == Eof
    ensures IsFramed(framing, rest, ending, prev, Decode(framing, rest, ending, prev).data)
    decreases |rest|
  {
    var next := NextLine(rest, ending);
    hide NextLine, ParseHeader, Framing.Signature, Decode, IsFramed, Laid, WellFormed, EndsWell;
    NoHeader(framing, rest, ending, prev);
    if next.NoLine? {
      NoLineEnds(rest, ending);
      NothingIsFramed(framing, ending, prev);
    } else if ParseHeader(framing, next.text).Err? {
      HeaderErrors(framing, next.text);
    } else {
      var h := ParseHeader(framing, next.text).value;
      var line := LineOf(rest, ending);
      HeaderSignature(framing, next.text);
      if h.size == 0 {
        WithHeader(framing, rest, ending, prev, next.text, next.rest, h);
        assert next.rest[..0] == [];
        EmptyChunkIsFramed(framing, line, next.rest, ending, prev);
      } else {
        DataFollows(framing, line, next.rest, ending, prev, h);
        var data, after := next.rest[..h.size], next.rest[h.size..][2..];
        var signature := NextSignature(framing, data, prev);
        ReadIsFramed(framing, after, ending, signature);
        OneMoreChunk(framing, Chunk(line, data), after, ending, prev, Decode(framing, after, ending, signature).data);
      }
    }
  }

  // A header that does not parse is malformed, not an end.
  lemma HeaderErrors(framing: Framing, text: Bytes)
    requires ParseHeader(framing, text).Err?
    ensures ParseHeader(framing, text).error == Malformed
  {
    hide ParseHexInt64, TrimSpace, Cut, Ascii;
  }

  lemma HeaderSignature(framing: Framing, text: Bytes)
    requires ParseHeader(framing, text).Ok?
    ensures framing.Unsigned? ==> ParseHeader(framing, text).value.signature == []
  {
    hide ParseHexInt64, TrimSpace, Cut, Ascii;
  }

  lemma NothingIsFramed(framing: Framing, ending: Ending, prev: Bytes)
    requires ending.EndOfInput?
    ensures IsFramed(framing, [], ending, prev, [])
  {
    var none: seq<Chunk> := [];
    assert [] == Laid(none) + [] && DataOf(none) == [] && WellFormed(framing, none, prev);
    assert EndsWell(framing, [], ending, SignatureAfter(framing, none, prev));
  }

  // A stream comes to an ordinary end, having delivered some data, exactly when it
  // is laid out as chunks of that data.
  lemma ReadToTheEndIff(framing: Framing, rest: Bytes, ending: Ending, prev: Bytes, data: Bytes)
    ensures Decode(framing, rest, ending, prev) == Stream(data, Eof) <==> IsFramed(framing, rest, ending, prev, data)
  {
    hide Decode, WellFormed, EndsWell;
    if Decode(framing, rest, ending, prev).end == Eof {
      ReadIsFramed(framing, rest, ending, prev);
    }
    if IsFramed(framing, rest, ending, prev, data) {
      var chunks, tail :|
        && rest == Laid(chunks) + tail && WellFormed(framing, chunks, prev) && DataOf(chunks) == data
        && EndsWell(framing, tail, ending, SignatureAfter(framing, chunks, prev));
      FramedIsRead(framing, chunks, tail, ending, prev);
    }
  }
}
