// The request body as a handler reads it: framing removed and integrity
// enforced in the way the declared payload hash asks for.
module Payloads {
  import opened Outcomes
  import opened Bytes
  import opened Text
  import opened Streams
  import opened ChunkFraming
  import opened AwsChunked
  import SigV4

  const STREAMING_SIGNED := Ascii("STREAMING-AWS4-HMAC-SHA256-PAYLOAD")
  const STREAMING_SIGNED_TRAILER := Ascii("STREAMING-AWS4-HMAC-SHA256-PAYLOAD-TRAILER")
  const STREAMING_UNSIGNED_TRAILER := Ascii("STREAMING-UNSIGNED-PAYLOAD-TRAILER")

  // What Verify leaves for the body: the declared hash, the framing a signed
  // stream would use, and the signature its chain starts from.
  datatype Identity = Identity(payloadHash: Bytes, framing: Framing, signature: Bytes)

  // A reader that passes bytes on and compares hashes only at the end. sha is the
  // lower-case hex SHA-256, left uninterpreted.
  class VerifyingReader {
    const src: Source
    const sha: Bytes -> Bytes
    const expected: Bytes

    // The bytes written to the running hash.
    var hashed: Bytes
    var done: bool

    constructor (src: Source, sha: Bytes -> Bytes, expectedHex: Bytes)
      ensures this.src == src && this.sha == sha && expected == ToLower(expectedHex)
      ensures hashed == [] && !done
    {
      this.src := src;
      this.sha := sha;
      expected := ToLower(expectedHex);
      hashed, done := [], false;
    }

    // The end of the body is only an end if the hash agrees.
    ghost function Remaining(): Stream
      reads this, src
    {
      if src.ending.EndOfInput? && !done && sha(hashed + src.rest) != expected then Stream(src.rest, HashMismatch)
      else Plain(src.rest, src.ending)
    }

    // A failure is told again to a caller that reads on, except for a mismatch,
    // after which it is told Eof.
    method Read(p: array<byte>) returns (n: nat, failure: Option<Failure>)
      modifies this, src, p
      ensures n <= p.Length && old(Remaining()).data == p[..n] + Remaining().data
      ensures failure.None? ==> Remaining().end == old(Remaining()).end && (p.Length > 0 ==> n > 0)
      ensures failure.Some? ==> failure.value == old(Remaining()).end
      ensures failure.Some? ==> Remaining() == Plain([], src.ending)
      ensures failure.Some? ==> (Remaining() == Stream([], failure.value) <==> failure.value != HashMismatch)
    {
      var end: Option<Ending>;
      n, end := src.Read(p, p.Length);
      ghost var all := hashed + old(src.rest);
      hashed := hashed + p[..n];
      assert hashed + src.rest == all;
      if end == Some(EndOfInput) && !done {
        done := true;
        assert hashed + [] == hashed;
        if sha(hashed) != expected {
          return n, Some(HashMismatch);
        }
      }
      failure := match end
        case None => None
        case Some(EndOfInput) => Some(Eof)
        case Some(ReadError) => Some(ReadFailed);
    }
  }

  datatype Body =
    | Raw(src: Source)
    | Checked(verifying: VerifyingReader)
    | Framed(chunked: ChunkedReader)
  {
    ghost function Parts(): set<object> {
      match this
      case Raw(src) => {src}
      case Checked(v) => {v, v.src}
      case Framed(c) => {c, c.src}
    }

    ghost predicate Valid()
      reads Parts()
    {
      Framed? ==> chunked.Valid()
    }

    ghost function Remaining(): Stream
      reads Parts()
    {
      match this
      case Raw(src) => Plain(src.rest, src.ending)
      case Checked(v) => v.Remaining()
      case Framed(c) => c.Remaining()
    }
  }

  // One read of whichever body it is.
  method ReadBody(b: Body, p: array<byte>) returns (n: nat, failure: Option<Failure>)
    requires b.Valid()
    modifies b.Parts(), p
    ensures b.Valid()
    ensures n <= p.Length && old(b.Remaining()).data == p[..n] + b.Remaining().data
    ensures failure.None? ==> b.Remaining().end == old(b.Remaining()).end && (p.Length > 0 ==> n > 0)
    ensures failure.Some? ==> failure.value == old(b.Remaining()).end && b.Remaining().data == []
  {
    hide ChunkedReader.Remaining, ChunkedReader.Valid, VerifyingReader.Remaining;
    match b
    case Raw(src) =>
      var end: Option<Ending>;
      n, end := src.Read(p, p.Length);
      failure := match end
        case None => None
        case Some(EndOfInput) => Some(Eof)
        case Some(ReadError) => Some(ReadFailed);
    case Checked(v) =>
      n, failure := v.Read(p);
    case Framed(c) =>
      ghost var held;
      n, failure, held := c.Read(p);
  }

  // What a body with this payload hash amounts to, bytes and ending.
  function Delivered(id: Identity, sha: Bytes -> Bytes, rest: Bytes, ending: Ending): Stream {
    if id.payloadHash == STREAMING_SIGNED || id.payloadHash == STREAMING_SIGNED_TRAILER then
      Decode(id.framing, rest, ending, id.signature)
    else if id.payloadHash == STREAMING_UNSIGNED_TRAILER then
      Decode(Unsigned, rest, ending, [])
    else if id.payloadHash == SigV4.UNSIGNED_PAYLOAD || id.payloadHash == [] then
      Plain(rest, ending)
    else if ending.EndOfInput? && sha(rest) != ToLower(id.payloadHash) then Stream(rest, HashMismatch)
    else Plain(rest, ending)
  }

  lemma PayloadNames()
    ensures |STREAMING_SIGNED| == 34 && |STREAMING_SIGNED_TRAILER| == 42 && |STREAMING_UNSIGNED_TRAILER| == 34
    ensures |SigV4.UNSIGNED_PAYLOAD| == 16 && STREAMING_SIGNED[10] == 0x41 && STREAMING_UNSIGNED_TRAILER[10] == 0x55
  {
  }

  method OpenBody(id: Identity, sha: Bytes -> Bytes, src: Source) returns (b: Body)
    ensures b.Valid() && src in b.Parts() && fresh(b.Parts() - {src})
    ensures b.Remaining() == Delivered(id, sha, src.rest, src.ending)
    ensures id.payloadHash in {Ascii("STREAMING-AWS4-HMAC-SHA256-PAYLOAD"),
      Ascii("STREAMING-AWS4-HMAC-SHA256-PAYLOAD-TRAILER")} ==>
      b.Remaining() == Decode(id.framing, src.rest, src.ending, id.signature)
    ensures id.payloadHash == Ascii("STREAMING-UNSIGNED-PAYLOAD-TRAILER") ==>
      b.Remaining() == Decode(Unsigned, src.rest, src.ending, [])
    ensures id.payloadHash in {Ascii("UNSIGNED-PAYLOAD"), []} ==> b.Remaining() == Plain(src.rest, src.ending)
    ensures |id.payloadHash| == 64 ==>
      && b.Remaining().data == src.rest
      && (b.Remaining().end == Eof <==> src.ending.EndOfInput? && sha(src.rest) == ToLower(id.payloadHash))
  {
    PayloadNames();
    hide Ascii;
    if id.payloadHash == STREAMING_SIGNED || id.payloadHash == STREAMING_SIGNED_TRAILER {
      var c := new ChunkedReader(src, id.framing, id.signature);
      return Framed(c);
    } else if id.payloadHash == STREAMING_UNSIGNED_TRAILER {
      var c := new ChunkedReader(src, Unsigned, []);
      return Framed(c);
    } else if id.payloadHash == SigV4.UNSIGNED_PAYLOAD || id.payloadHash == [] {
      return Raw(src);
    } else {
      var v := new VerifyingReader(src, sha, id.payloadHash);
      assert [] + src.rest == src.rest;
      return Checked(v);
    }
  }

  // A hash may be declared in capitals.
  lemma CapitalsAreAccepted(id: Identity, sha: Bytes -> Bytes, rest: Bytes)
    requires |id.payloadHash| == 64 && ToLower(id.payloadHash) == sha(rest)
    ensures Delivered(id, sha, rest, EndOfInput) == Stream(rest, Eof)
    ensures TrustedContentSHA256(id) == sha(rest)
  {
    PayloadNames();
    hide Ascii;
  }

  // The digest a caller may reuse once it has read the whole body.
  function TrustedContentSHA256(id: Identity): Bytes {
    if id.payloadHash in {STREAMING_SIGNED, STREAMING_SIGNED_TRAILER, STREAMING_UNSIGNED_TRAILER,
        SigV4.UNSIGNED_PAYLOAD, []}
    then [] else ToLower(id.payloadHash)
  }

  // Trust is earned: a body that ran to its end without error has that digest.
  lemma TrustIsEarned(id: Identity, sha: Bytes -> Bytes, rest: Bytes, ending: Ending)
    requires Delivered(id, sha, rest, ending).end == Eof && TrustedContentSHA256(id) != []
    ensures sha(Delivered(id, sha, rest, ending).data) == TrustedContentSHA256(id)
  {
  }
}
