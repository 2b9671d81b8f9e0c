// The aws-chunked reader: a state machine over a connection that gives up its
// bytes in pieces of any size, against the stream its framing decodes to.
module AwsChunked {
  import opened Outcomes
  import opened Bytes
  import opened Text
  import opened Streams
  import opened ChunkFraming

  method Copy(p: array<byte>, data: Bytes) returns (n: nat)
    modifies p
    ensures n == if p.Length < |data| then p.Length else |data|
    ensures p[..n] == data[..n] && p[n..] == old(p[n..])
  {
    n := if p.Length < |data| then p.Length else |data|;
    forall i | 0 <= i < n {
      p[i] := data[i];
    }
  }

  lemma PrependOnce(data: Bytes, piece: Bytes, before: Stream, after: Stream)
    requires before == Prepend(piece, after)
    ensures Prepend(data, before) == Prepend(data + piece, after)
  {
  }

  lemma SplitPrepend(data: Bytes, n: nat, s: Stream)
    requires n <= |data|
    ensures Prepend(data, s) == Prepend(data[..n], Prepend(data[n..], s))
    ensures n == |data| ==> Prepend(data, s) == Prepend(data[..n], s)
  {
    assert data == data[..n] + data[n..];
  }

  class ChunkedReader {
    const src: Source
    const framing: Framing

    var prevSignature: Bytes
    // A verified chunk awaiting delivery.
    var pending: Bytes
    // Undelivered bytes of the current unsigned chunk.
    var remaining: nat
    // The CRLF after the current chunk is still to be consumed.
    var atChunkEnd: bool
    var finished: bool
    var err: Option<Failure>
    // Every byte delivered so far.
    ghost var delivered: Bytes

    // Between calls no more than one chunk is held, and only a signed one.
    ghost predicate Bounded()
      reads this
    {
      && |pending| <= MAX_CHUNK_SIZE && remaining <= MAX_CHUNK_SIZE
      && (framing.Unsigned? ==> pending == [])
      && (framing.Signed? ==> remaining == 0)
    }

    ghost predicate Valid()
      reads this
    {
      && Bounded()
      && (err.None? ==> (atChunkEnd <==> pending != [] || remaining > 0))
      && (err.None? && finished ==> pending == [] && remaining == 0)
    }

    // All that this reader will still deliver, and how it will stop.
    ghost function Remaining(): Stream
      reads this, src
    {
      if err.Some? then Stream([], err.value)
      else if pending != [] then Prepend(pending, AfterData(framing, src.rest, src.ending, prevSignature))
      else if remaining > 0 then Body(framing, src.rest, src.ending, prevSignature, remaining)
      else if finished then Stream([], Eof)
      else Decode(framing, src.rest, src.ending, prevSignature)
    }

    // All of the stream, delivered or not.
    ghost function Whole(): Stream
      reads this, src
    {
      Prepend(delivered, Remaining())
    }

    // The longest line the next call of Read will have to read.
    ghost function LinesAhead(): nat
      reads this, src
    {
      if err.Some? || pending != [] || remaining > 0 || finished then 0
      else LongestLine(framing, src.rest, src.ending, prevSignature)
    }

    constructor (src: Source, framing: Framing, seedSignature: Bytes)
      ensures Valid() && this.src == src && this.framing == framing && delivered == []
      ensures Whole() == Decode(framing, src.rest, src.ending, seedSignature)
      ensures LinesAhead() == LongestLine(framing, src.rest, src.ending, seedSignature)
      ensures Remaining() == Decode(framing, src.rest, src.ending, seedSignature)
    {
      this.src := src;
      this.framing := framing;
      prevSignature := seedSignature;
      pending, remaining, atChunkEnd, finished, err := [], 0, false, false, None;
      delivered := [];
    }

    // held counts the bytes of the stream that a call has in memory at once.
    method ReadLine() returns (line: Result<Bytes, Failure>, ghost held: nat)
      modifies src
      ensures held == LineLength(old(src.rest))
      ensures match NextLine(old(src.rest), src.ending)
        case NoLine(why) => line == Err(why)
        case Line(text, tail) => line == Ok(text) && src.rest == tail
      ensures |src.rest| <= |old(src.rest)|
    {
      var text, end := src.ReadString();
      held := |text|;
      if end.Some? {
        if end.value.EndOfInput? {
          if text == [] {
            return Err(Eof), held;
          }
        } else {
          return Err(Malformed), held;
        }
      }
      if |text| > MAX_CHUNK_HEADER_SIZE {
        return Err(Malformed), held;
      }
      return Ok(TrimLineEnd(text)), held;
    }

    method ExpectCRLF() returns (ok: bool)
      modifies src
      ensures ok <==> HasPrefix(old(src.rest), CRLF)
      ensures ok ==> src.rest == old(src.rest)[2..]
    {
      var crlf, full := src.ReadFull(2);
      return full && crlf == CRLF;
    }

    method EndOfChunk() returns (failure: Option<Failure>)
      requires err.None? && atChunkEnd && !finished && pending == [] && remaining == 0
      modifies this`atChunkEnd, this`err, src
      ensures !atChunkEnd && failure == err
      ensures Remaining() == AfterData(framing, old(src.rest), src.ending, prevSignature)
      ensures err.Some? ==> Remaining().data == []
    {
      atChunkEnd := false;
      var ok := ExpectCRLF();
      if !ok {
        err := Some(Malformed);
        return err;
      }
      return None;
    }

    method VerifyChunk(data: Bytes, signature: Bytes) returns (ok: bool)
      requires framing.Signed?
      modifies this`prevSignature
      ensures ok <==> signature == framing.Signature(old(prevSignature), data)
      ensures ok <==> signature == framing.sign(JoinedBy([CHUNK_PREFIX, framing.timestamp, framing.scope,
        old(prevSignature), framing.digest([]), framing.digest(data)], LF))
      ensures prevSignature == if ok then signature else old(prevSignature)
    {
      SignedText(framing, prevSignature, data);
      hide JoinedBy, Ascii, Framing.StringToSign;
      ok := framing.Signature(prevSignature, data) == signature;
      if ok {
        prevSignature := signature;
      }
    }

    method ConsumeTrailers() returns (failure: Option<Failure>, ghost held: nat)
      modifies src
      ensures held == LongestTrailer(old(src.rest), src.ending, 0)
      ensures
        var end := Trailers(old(src.rest), src.ending, 0);
        failure == if end == Eof then None else Some(end)
      ensures |src.rest| <= |old(src.rest)|
    {
      hide NextLine, LineLength;
      var read: nat := 0;
      held := 0;
      while true
        invariant Longer(held, LongestTrailer(src.rest, src.ending, read))
               == LongestTrailer(old(src.rest), src.ending, 0)
        invariant Trailers(src.rest, src.ending, read) == Trailers(old(src.rest), src.ending, 0)
        invariant |src.rest| <= |old(src.rest)|
        decreases |src.rest|
      {
        ghost var size;
        var line;
        line, size := ReadLine();
        held := Longer(held, size);
        if line.Err? {
          return if line.error == Eof then None else Some(line.error), held;
        }
        if line.value == [] {
          return None, held;
        }
        read := read + |line.value|;
        if read > MAX_TRAILER_BYTES {
          return Some(Malformed), held;
        }
      }
    }

    // Buffers a signed chunk whole and checks it before any of it can be read.
    method BufferChunk(h: Header) returns (failure: Option<Failure>)
      requires framing.Signed?
      modifies this`prevSignature, this`pending, src
      ensures
        var tail := old(src.rest);
        failure == if |tail| < h.size then Some(Malformed)
                   else if h.signature != framing.Signature(old(prevSignature), tail[..h.size]) then Some(BadSignature)
                   else None
      ensures failure.Some? ==> pending == old(pending)
      ensures |src.rest| <= |old(src.rest)|
      ensures failure.None? ==>
        && |old(src.rest)| >= h.size && pending == old(src.rest)[..h.size] && src.rest == old(src.rest)[h.size..]
        && prevSignature == h.signature
    {
      var data, full := src.ReadFull(h.size);
      if !full {
        return Some(Malformed);
      }
      var ok := VerifyChunk(data, h.signature);
      if !ok {
        return Some(BadSignature);
      }
      pending := data;
      return None;
    }

    method ReadHeader() returns (h: Result<Header, Failure>, ghost held: nat)
      modifies src
      ensures held == LineLength(old(src.rest)) && |src.rest| <= |old(src.rest)|
      ensures match NextLine(old(src.rest), src.ending)
        case NoLine(why) => h == Err(why)
        case Line(text, tail) => h == ParseHeader(framing, text) && src.rest == tail
    {
      var line;
      line, held := ReadLine();
      if line.Err? {
        return Err(line.error), held;
      }
      return ParseHeader(framing, line.value), held;
    }

    // Readies the chunk a header announces, having checked a signed one, or ends
    // the stream.
    method MakeReady(h: Header) returns (failure: Option<Failure>, ghost held: nat)
      requires Valid() && err.None? && pending == [] && remaining == 0 && !finished && h.size <= MAX_CHUNK_SIZE
      modifies this, src
      ensures err.None? && Bounded() && delivered == old(delivered) && |src.rest| <= |old(src.rest)|
      ensures
        var tail, prev := old(src.rest), old(prevSignature);
        && (framing.Signed? && |tail| < h.size ==> failure == Some(Malformed))
        && (framing.Signed? && |tail| >= h.size && h.signature != framing.Signature(prev, tail[..h.size]) ==>
              failure == Some(BadSignature))
        && (framing.Signed? && |tail| >= h.size > 0 && h.signature == framing.Signature(prev, tail[..h.size]) ==>
              failure.None? && Valid() && !finished && pending == tail[..h.size] && src.rest == tail[h.size..]
              && prevSignature == h.signature)
        && (framing.Unsigned? && h.size > 0 ==>
              failure.None? && Valid() && !finished && pending == [] && remaining == h.size && src.rest == tail
              && prevSignature == prev)
        && (h.size == 0 && (framing.Signed? ==> h.signature == framing.Signature(prev, [])) ==>
              && failure == (if Trailers(tail, src.ending, 0) == Eof then None else Some(Trailers(tail, src.ending, 0)))
              && (failure.None? ==> Valid()) && finished && pending == [] && remaining == 0
              && held == LongestTrailer(tail, src.ending, 0))
      ensures h.size > 0 || (framing.Signed? && h.signature != framing.Signature(old(prevSignature), [])) ==>
        held <= h.size
      ensures |pending| <= held
    {
      hide Trailers, LongestTrailer, Framing.Signature;
      assert h.size == 0 ==> src.rest[..h.size] == [];
      held := 0;
      if framing.Signed? {
        held := h.size;
        failure := BufferChunk(h);
        if failure.Some? {
          return;
        }
      } else {
        remaining := h.size;
      }
      if h.size == 0 {
        pending, remaining, finished := [], 0, true;
        failure, held := ConsumeTrailers();
        return;
      }
      atChunkEnd := true;
      return None, held;
    }

    // From a chunk boundary to the next chunk's data.
    method NextChunk() returns (failure: Option<Failure>, ghost held: nat)
      requires Valid() && err.None? && pending == [] && remaining == 0 && !finished
      modifies this, src
      ensures err.None? && Bounded() && delivered == old(delivered)
      ensures failure.Some? ==> old(Remaining()) == Stream([], failure.value)
      ensures failure.None? ==> Valid() && Remaining() == old(Remaining()) && |src.rest| < |old(src.rest)|
      ensures failure.None? ==> pending != [] || remaining > 0 || finished
      ensures old(LinesAhead()) <= held <= Longer(old(LinesAhead()), MAX_CHUNK_HEADER_SIZE + MAX_CHUNK_SIZE)
      ensures failure.None? ==> |pending| <= held
    {
      OnlyFittingLines(src.rest, src.ending);
      NoHeader(framing, src.rest, src.ending, prevSignature);
      ghost var rest, prev := src.rest, prevSignature;
      ghost var line := NextLine(rest, src.ending);
      hide NextLine, ParseHeader, Framing.Signature, AfterData, Body, Trailers, LongestTrailer, LineLength;
      hide Decode, LongestLine;
      var header;
      header, held := ReadHeader();
      if header.Err? {
        return Some(header.error), held;
      }
      WithHeader(framing, rest, src.ending, prev, line.text, src.rest, header.value);
      ghost var more;
      failure, more := MakeReady(header.value);
      held := if header.value.size == 0 then Longer(held, more) else held + more;
    }

    // Copies out the front of a verified chunk.
    method Deliver(p: array<byte>) returns (n: nat, failure: Option<Failure>)
      requires Valid() && err.None? && pending != [] && p.Length > 0
      modifies this, src, p
      ensures Valid() && 0 < n <= p.Length && p[n..] == old(p[n..]) && delivered == old(delivered)
      ensures old(Remaining()) == Prepend(p[..n], Remaining())
      ensures failure == err && (failure.Some? ==> Remaining() == Stream([], failure.value))
    {
      hide AfterData, Body, Decode;
      ghost var whole := pending;
      n := Copy(p, pending);
      pending := pending[n..];
      SplitPrepend(whole, n, AfterData(framing, src.rest, src.ending, prevSignature));
      failure := None;
      if pending == [] {
        failure := EndOfChunk();
      }
    }

    // Reads part of an unsigned chunk straight through.
    method Pass(p: array<byte>) returns (n: nat, failure: Option<Failure>)
      requires Valid() && err.None? && pending == [] && remaining > 0 && p.Length > 0
      modifies this, src, p
      ensures Valid() && n <= p.Length && p[n..] == old(p[n..]) && delivered == old(delivered)
      ensures old(Remaining()) == Prepend(p[..n], Remaining())
      ensures failure == err && (failure.Some? ==> Remaining() == Stream([], failure.value))
      ensures failure.None? ==> n > 0
    {
      hide AfterData;
      var want := if p.Length > remaining then remaining else p.Length;
      ghost var before := src.rest;
      var end: Option<Ending>;
      n, end := src.Read(p, want);
      BodySplits(framing, before, p[..n], src.rest, src.ending, prevSignature, remaining);
      remaining := remaining - n;
      if end.Some? {
        err := Some(Malformed);
        return n, err;
      }
      failure := None;
      if remaining == 0 {
        failure := EndOfChunk();
      }
    }

    // Delivers what it can into p. Nothing is delivered twice or lost, and once
    // an error or the end has been reported there is nothing more to deliver.
    // A call holds a header line and a chunk at most exactly when no line it has
    // to read is longer than those together.
    method Read(p: array<byte>) returns (n: nat, failure: Option<Failure>, ghost held: nat)
      requires Valid()
      modifies this, src, p
      ensures Valid() && n <= p.Length && p[n..] == old(p[n..])
      ensures old(Remaining()) == Prepend(p[..n], Remaining())
      ensures delivered == old(delivered) + p[..n] && Whole() == old(Whole())
      ensures failure.Some? ==> Remaining() == Stream([], failure.value)
      ensures failure.None? && p.Length > 0 ==> n > 0
      ensures
        var lines := if p.Length == 0 then 0 else old(LinesAhead());
        && lines <= held <= Longer(lines, MAX_CHUNK_HEADER_SIZE + MAX_CHUNK_SIZE)
        && (held <= MAX_CHUNK_HEADER_SIZE + MAX_CHUNK_SIZE <==> lines <= MAX_CHUNK_HEADER_SIZE + MAX_CHUNK_SIZE)
    {
      n, failure, held := Fill(p);
      delivered := delivered + p[..n];
      assert old(delivered) + (p[..n] + Remaining().data) == (old(delivered) + p[..n]) + Remaining().data;
    }

    // Read, but for keeping count of what it delivers.
    method Fill(p: array<byte>) returns (n: nat, failure: Option<Failure>, ghost held: nat)
      requires Valid()
      modifies this, src, p
      ensures Valid() && n <= p.Length && p[n..] == old(p[n..]) && delivered == old(delivered)
      ensures old(Remaining()) == Prepend(p[..n], Remaining())
      ensures failure.Some? ==> Remaining() == Stream([], failure.value)
      ensures failure.None? && p.Length > 0 ==> n > 0
      ensures
        var lines := if p.Length == 0 then 0 else old(LinesAhead());
        lines <= held <= Longer(lines, MAX_CHUNK_HEADER_SIZE + MAX_CHUNK_SIZE)
    {
      hide AfterData, Body, Decode, LongestLine;
      held := |pending|;
      if err.Some? {
        return 0, err, held;
      }
      if p.Length == 0 {
        return 0, None, held;
      }
      while true
        invariant Valid() && err.None? && Remaining() == old(Remaining()) && delivered == old(delivered)
        invariant p[..] == old(p[..])
        invariant LinesAhead() == old(LinesAhead()) || (LinesAhead() == 0 && old(LinesAhead()) <= held)
        invariant |pending| <= held <= Longer(old(LinesAhead()), MAX_CHUNK_HEADER_SIZE + MAX_CHUNK_SIZE)
        decreases |src.rest|
      {
        if pending != [] {
          n, failure := Deliver(p);
          return;
        } else if remaining > 0 {
          n, failure := Pass(p);
          return;
        } else if finished {
          return 0, Some(Eof), held;
        } else {
          ghost var size;
          failure, size := NextChunk();
          held := Longer(held, size);
          if failure.Some? {
            err := failure;
            n := 0;
            return;
          }
        }
      }
    }

    // Reads to the end with a buffer of any size.
    method ReadAll(size: nat) returns (data: Bytes, end: Failure)
      requires Valid() && size > 0
      modifies this, src
      ensures Valid() && Remaining() == Stream([], end)
      ensures old(Remaining()) == Stream(data, end)
    {
      hide Remaining, Valid;
      var p := new byte[size];
      data := [];
      while true
        invariant Valid() && old(Remaining()) == Prepend(data, Remaining()) && fresh(p) && p.Length == size
        decreases |Remaining().data|
      {
        var n, failure, _ := Read(p);
        data := data + p[..n];
        if failure.Some? {
          return data, failure.value;
        }
      }
    }

    // Any sequence of calls, with buffers of any sizes: what they return, one
    // after another, is the stream from where it stood.
    method ReadPieces(sizes: seq<nat>) returns (data: Bytes)
      requires Valid()
      modifies this, src
      ensures Valid() && Whole() == old(Whole())
      ensures delivered == old(delivered) + data && old(Remaining()) == Prepend(data, Remaining())
    {
      hide Remaining, Valid;
      data := [];
      for i := 0 to |sizes|
        invariant Valid() && Whole() == old(Whole()) && delivered == old(delivered) + data
        invariant old(Remaining()) == Prepend(data, Remaining())
      {
        var p := new byte[sizes[i]];
        ghost var before := Remaining();
        var n, _, _ := Read(p);
        PrependOnce(data, p[..n], before, Remaining());
        data := data + p[..n];
      }
    }

    // All that a signed reader has ever delivered, by whatever calls, is data
    // verified along the chain from the signature it was given.
    lemma DeliveredIsVerified(input: Bytes, seed: Bytes)
      requires framing.Signed? && Whole() == Decode(framing, input, src.ending, seed)
      ensures Chained(framing, seed, Accepted(framing, input, src.ending, seed))
      ensures delivered <= Payload(Accepted(framing, input, src.ending, seed))
    {
      SignedDataIsVerified(framing, input, src.ending, seed);
    }
  }

  // Taking the first bytes of a chunk leaves the rest of it.
  lemma BodySplits(framing: Framing, before: Bytes, taken: Bytes, rest: Bytes, ending: Ending, prev: Bytes, n: nat)
    requires before == taken + rest && |taken| <= n
    ensures Body(framing, before, ending, prev, n) == Prepend(taken, Body(framing, rest, ending, prev, n - |taken|))
    ensures |taken| == n ==>
      Body(framing, before, ending, prev, n) == Prepend(taken, AfterData(framing, rest, ending, prev))
    ensures rest == [] ==> Body(framing, before, ending, prev, n) == Stream(taken, Malformed)
  {
    if n <= |before| {
      assert before[..n] == taken + rest[..n - |taken|];
      assert before[n..] == rest[n - |taken|..];
    }
  }
}
