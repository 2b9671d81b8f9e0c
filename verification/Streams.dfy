// Readers: a connection that gives up its bytes in pieces of any size, and what
// a reader over it will deliver before it stops.
module Streams {
  import opened Outcomes
  import opened Bytes
  import opened Text

  // How a connection ends once its bytes are used up.
  datatype Ending = EndOfInput | ReadError

  // What a caller is told once nothing more is coming.
  datatype Failure = Eof | ReadFailed | Malformed | BadSignature | HashMismatch

  // Everything a reader will still deliver, and how it stops.
  datatype Stream = Stream(data: Bytes, end: Failure)

  function Prepend(data: Bytes, s: Stream): Stream {
    Stream(data + s.data, s.end)
  }

  function Joined(pieces: seq<Bytes>): Bytes {
    if pieces == [] then [] else pieces[0] + Joined(pieces[1..])
  }

  lemma {:induction false} JoinedAppend(pieces: seq<Bytes>, last: Bytes)
    ensures Joined(pieces + [last]) == Joined(pieces) + last
  {
    if pieces == [] {
      assert [] + [last] == [last];
    } else {
      assert (pieces + [last])[1..] == pieces[1..] + [last];
      JoinedAppend(pieces[1..], last);
    }
  }

  // A connection read as it is.
  function Plain(rest: Bytes, ending: Ending): Stream {
    Stream(rest, if ending.EndOfInput? then Eof else ReadFailed)
  }

  // The buffered connection. A Read may return fewer bytes than asked for, and
  // may report the end along with the last of them, or when asked for none.
  class Source {
    var rest: Bytes
    const ending: Ending

    constructor (bytes: Bytes, ending: Ending)
      ensures rest == bytes && this.ending == ending
    {
      rest := bytes;
      this.ending := ending;
    }

    method Read(p: array<byte>, want: nat) returns (n: nat, err: Option<Ending>)
      requires want <= p.Length
      modifies this, p
      ensures n <= want && old(rest) == p[..n] + rest
      ensures p[n..] == old(p[n..])
      ensures err.None? && want > 0 ==> n > 0
      ensures err.Some? ==> rest == [] && err.value == ending
    {
      if rest == [] && want > 0 {
        return 0, Some(ending);
      }
      n :| n <= want && n <= |rest| && (want > 0 ==> n > 0);
      forall i | 0 <= i < n {
        p[i] := rest[i];
      }
      assert p[..n] == rest[..n];
      rest := rest[n..];
      var withEnd: bool := *;
      err := if rest == [] && withEnd then Some(ending) else None;
    }

    // Up to and including the first line feed, or all there is and the end.
    method ReadString() returns (line: Bytes, err: Option<Ending>)
      modifies this
      ensures
        var i := FirstOf(old(rest), LF);
        if i < |old(rest)| then line == old(rest)[..i + 1] && rest == old(rest)[i + 1..] && err.None?
        else line == old(rest) && rest == [] && err == Some(ending)
    {
      var i := FirstOf(rest, LF);
      if i < |rest| {
        line, rest, err := rest[..i + 1], rest[i + 1..], None;
      } else {
        line, rest, err := rest, [], Some(ending);
      }
    }

    // Exactly n bytes, or an error with everything consumed.
    method ReadFull(n: nat) returns (data: Bytes, ok: bool)
      modifies this
      ensures ok <==> n <= |old(rest)|
      ensures ok ==> data == old(rest)[..n] && rest == old(rest)[n..]
      ensures !ok ==> rest == []
    {
      if n <= |rest| {
        data, rest, ok := rest[..n], rest[n..], true;
      } else {
        data, rest, ok := rest, [], false;
      }
    }
  }
}
