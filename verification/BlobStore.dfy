// The content-addressed store on disk: one streaming pass into a temporary
// file, then an atomic rename to the path named by the digest. Every operating
// system step may fail.
module BlobStore {
  import opened Outcomes
  import opened Bytes
  import opened Text
  import opened Streams
  import opened AwsChunked
  import opened Payloads

  datatype Blob = Blob(digest: Bytes, etag: Bytes, size: nat)

  datatype PutError = IOError | Cancelled | BadBody(failure: Failure) | NotFound | InvalidDigest

  // The steps that can go wrong; and Raced, a rival upload of the same bytes
  // that lands between the look for the blob and the rename.
  datatype Step =
    | CreateTemp | Chmod | Write | Sync | Close | Mkdir | StatBlob | Raced | Rename | SyncDir | RemoveTemp | Cancel
    | OpenBlob | ReadPart

  // A rename may fail when a rival's has put the same bytes there.
  predicate Harmless(faults: set<Step>) {
    faults <= {Raced, Rename} && (Rename in faults ==> Raced in faults)
  }

  const BEFORE_RENAME := {Chmod, Sync, Close, Mkdir, StatBlob}

  const COPY_BUFFER_SIZE := 1024 * 1024
  const DIGEST_LENGTH := 64

  predicate ValidDigest(digest: Bytes) {
    |digest| == DIGEST_LENGTH
    && forall i :: 0 <= i < |digest| ==> 0x30 <= digest[i] <= 0x39 || 0x61 <= digest[i] <= 0x66
  }

  // A digest is the text of 32 bytes, its letters small.
  lemma DigestIff(digest: Bytes)
    ensures ValidDigest(digest) <==> exists raw :: |raw| == 32 && HexText(raw) == digest
  {
    if ValidDigest(digest) {
      EvenHexDecodes(digest);
      HexDecodeIff(digest, HexDecode(digest).value);
      assert ToLower(digest) == digest;
    }
    if raw :| |raw| == 32 && HexText(raw) == digest {
      HexTextIsHex(raw);
      assert forall i :: 0 <= i < |digest| ==> IsHexDigit(digest[i]);
    }
  }

  lemma {:induction false} EvenHexDecodes(s: Bytes)
    requires |s| % 2 == 0 && AllHex(s)
    ensures HexDecode(s).Some?
  {
    if s != [] {
      EvenHexDecodes(s[2..]);
    }
  }

  // Complete content under its own digest.
  ghost predicate Intact(sha: Bytes -> Bytes, blobs: map<Bytes, Bytes>) {
    forall d :: d in blobs ==> sha(blobs[d]) == d
  }

  ghost predicate CollisionFree(sha: Bytes -> Bytes) {
    forall a, b :: sha(a) == sha(b) ==> a == b
  }

  class Store {
    // Hex SHA-256 and hex MD5.
    const sha: Bytes -> Bytes
    const md5: Bytes -> Bytes

    // The files at the digests' final paths, and the upload files.
    var blobs: map<Bytes, Bytes>
    var temps: map<nat, Bytes>
    var nextTemp: nat

    ghost predicate Valid()
      reads this
    {
      Intact(sha, blobs) && forall t :: t in temps ==> t < nextTemp
    }

    constructor (sha: Bytes -> Bytes, md5: Bytes -> Bytes)
      ensures Valid() && blobs == map[] && this.sha == sha && this.md5 == md5
    {
      this.sha := sha;
      this.md5 := md5;
      blobs, temps, nextTemp := map[], map[], 0;
    }

    // Appends to the upload file; a failed write may leave part of the data.
    method WriteTemp(temp: nat, data: Bytes, faults: set<Step>) returns (written: nat)
      requires temp in temps
      modifies this`temps
      ensures temp in temps && temps == old(temps)[temp := temps[temp]]
      ensures Write !in faults ==> written == |data|
      ensures written == |data| ==> temps[temp] == old(temps)[temp] + data
    {
      written := |data|;
      if Write in faults {
        written :| written <= |data|;
      }
      temps := temps[temp := temps[temp] + data[..written]];
      assert data[..|data|] == data;
    }

    // io.Copy into the upload file and the hashes, with cancellation.
    method CopyWithContext(temp: nat, body: Body, buf: array<byte>, faults: set<Step>)
      returns (total: nat, hashed: Bytes, fault: Option<PutError>)
      requires temp in temps && temps[temp] == [] && body.Valid() && this !in body.Parts() && buf.Length > 0
      modifies this`temps, body.Parts(), buf
      ensures body.Valid() && temp in temps && temps == old(temps)[temp := temps[temp]]
      ensures fault.None? ==> old(body.Remaining()) == Stream(hashed, Eof) && temps[temp] == hashed && total == |hashed|
      ensures Write !in faults && Cancel !in faults && old(body.Remaining()).end == Eof ==> fault.None?
    {
      hide Body.Remaining, Body.Valid;
      total, hashed := 0, [];
      while true
        invariant body.Valid() && temp in temps && temps == old(temps)[temp := hashed] && total == |hashed|
        invariant old(body.Remaining()).data == hashed + body.Remaining().data
        invariant old(body.Remaining()).end == body.Remaining().end
        decreases |body.Remaining().data|
      {
        var cancelled: bool := *;
        if Cancel in faults && cancelled {
          return total, hashed, Some(Cancelled);
        }
        var n, readErr := ReadBody(body, buf);
        if n > 0 {
          var written := WriteTemp(temp, buf[..n], faults);
          total := total + written;
          if written != n {
            return total, hashed, Some(IOError);
          }
          hashed := hashed + buf[..n];
        }
        if readErr.Some? {
          return total, hashed, if readErr.value == Eof then None else Some(BadBody(readErr.value));
        }
      }
    }

    // Streams the body into the store. knownDigest, when there is one, has
    // already been checked by the body's own reader.
    method Put(body: Body, knownDigest: Bytes, faults: set<Step>) returns (r: Result<Blob, PutError>)
      requires Valid() && body.Valid() && this !in body.Parts()
      requires knownDigest != [] && body.Remaining().end == Eof ==> sha(body.Remaining().data) == knownDigest
      modifies this, body.Parts()
      ensures Valid() && body.Valid()
      ensures
        var data := old(body.Remaining()).data;
        && (r.Ok? ==> old(body.Remaining()).end == Eof && r.value == Blob(sha(data), md5(data), |data|)
                      && r.value.digest in blobs)
        && (blobs == old(blobs)
            || (sha(data) !in old(blobs) && old(body.Remaining()).end == Eof && blobs == old(blobs)[sha(data) := data]))
      ensures r.Ok? && CollisionFree(sha) ==> blobs[r.value.digest] == old(body.Remaining()).data
      ensures RemoveTemp !in faults ==> temps == old(temps)
      // Every step before the rename has succeeded, or the upload has not; and
      // nothing gets to a digest's path unsynced.
      ensures r.Ok? ==> CreateTemp !in faults && faults !! BEFORE_RENAME
      ensures blobs != old(blobs) ==> faults !! {CreateTemp, Chmod, Sync, Close}
      ensures Harmless(faults) && old(body.Remaining()).end == Eof ==> r.Ok?
    {
      hide VerifyingReader.Remaining, ChunkedReader.Remaining, ChunkedReader.Valid, Plain, Body.Remaining;
      if CreateTemp in faults {
        return Err(IOError);
      }
      var temp := nextTemp;
      nextTemp := nextTemp + 1;
      temps := temps[temp := []];
      var committed: bool;
      r, committed := Fill(temp, body, knownDigest, faults);
      if !committed && RemoveTemp !in faults {
        temps := temps - {temp};
      }
    }

    // Put between creating the upload file and the deferred cleanup.
    method Fill(temp: nat, body: Body, knownDigest: Bytes, faults: set<Step>)
      returns (r: Result<Blob, PutError>, committed: bool)
      requires Valid() && body.Valid() && this !in body.Parts() && temp in temps && temps[temp] == []
      requires knownDigest != [] && body.Remaining().end == Eof ==> sha(body.Remaining().data) == knownDigest
      modifies this`blobs, this`temps, body.Parts()
      ensures Valid() && body.Valid()
      ensures
        var data := old(body.Remaining()).data;
        && (r.Ok? ==> old(body.Remaining()).end == Eof && r.value == Blob(sha(data), md5(data), |data|)
                      && r.value.digest in blobs)
        && (blobs == old(blobs)
            || (sha(data) !in old(blobs) && old(body.Remaining()).end == Eof && blobs == old(blobs)[sha(data) := data]))
        && (blobs != old(blobs) ==> committed || Raced in faults)
      ensures if committed then temps == old(temps) - {temp} else temps - {temp} == old(temps) - {temp}
      ensures r.Ok? ==> faults !! BEFORE_RENAME
      ensures blobs != old(blobs) ==> faults !! {Chmod, Sync, Close}
      ensures Harmless(faults) && old(body.Remaining()).end == Eof ==> r.Ok?
    {
      hide Body.Remaining, Body.Valid;
      committed := false;
      if Chmod in faults {
        return Err(IOError), committed;
      }
      var buf := new byte[COPY_BUFFER_SIZE];
      var written, hashed, fault := CopyWithContext(temp, body, buf, faults);
      if fault.Some? {
        return Err(fault.value), committed;
      }
      if Sync in faults || Close in faults {
        return Err(IOError), committed;
      }
      var digest := if knownDigest == [] then sha(hashed) else knownDigest;
      var blob := Blob(digest, md5(hashed), written);
      r, committed := Commit(temp, blob, faults);
    }

    // The whole of the upload file goes to its digest's path, if nothing is there.
    method Commit(temp: nat, blob: Blob, faults: set<Step>) returns (r: Result<Blob, PutError>, committed: bool)
      requires Valid() && temp in temps && sha(temps[temp]) == blob.digest
      modifies this`blobs, this`temps
      ensures Valid()
      ensures r.Ok? ==> r.value == blob && blob.digest in blobs && faults !! {Mkdir, StatBlob}
      ensures blobs == old(blobs)
        || (blob.digest !in old(blobs) && blobs == old(blobs)[blob.digest := old(temps)[temp]])
      ensures blobs != old(blobs) ==> committed || Raced in faults
      ensures temps == if committed then old(temps) - {temp} else old(temps)
      ensures Harmless(faults) ==> r.Ok?
    {
      committed := false;
      if Mkdir in faults {
        return Err(IOError), committed;
      }
      if StatBlob in faults {
        return Err(IOError), committed;
      }
      if blob.digest in blobs {
        return Ok(blob), committed;
      }
      if Raced in faults {
        blobs := blobs[blob.digest := temps[temp]];
      }
      if Rename in faults {
        return if blob.digest in blobs then Ok(blob) else Err(IOError), committed;
      }
      blobs, temps, committed := blobs[blob.digest := temps[temp]], temps - {temp}, true;
      if SyncDir in faults {
        return Err(IOError), committed;
      }
      return Ok(blob), committed;
    }

    // A handler's upload: the body the identity calls for, stored under a digest
    // that is its own whichever way it was established.
    method Receive(id: Identity, src: Source, faults: set<Step>) returns (r: Result<Blob, PutError>)
      requires Valid()
      modifies this, src
      ensures Valid()
      ensures
        var body := Delivered(id, sha, old(src.rest), src.ending);
        && (r.Ok? ==> body.end == Eof && r.value == Blob(sha(body.data), md5(body.data), |body.data|)
                      && r.value.digest in blobs)
        && (blobs == old(blobs)
            || (sha(body.data) !in old(blobs) && body.end == Eof && blobs == old(blobs)[sha(body.data) := body.data]))
        && (Harmless(faults) && body.end == Eof ==> r.Ok?)
    {
      var body := OpenBody(id, sha, src);
      if body.Remaining().end == Eof && TrustedContentSHA256(id) != [] {
        TrustIsEarned(id, sha, src.rest, src.ending);
      }
      hide Body.Remaining, Body.Valid, Delivered, TrustedContentSHA256;
      r := Put(body, TrustedContentSHA256(id), faults);
    }

    method Open(digest: Bytes, faults: set<Step>) returns (r: Result<Bytes, PutError>)
      ensures r == if !ValidDigest(digest) then Err(InvalidDigest)
                   else if OpenBlob in faults then Err(IOError)
                   else if digest !in blobs then Err(NotFound) else Ok(blobs[digest])
    {
      if !ValidDigest(digest) {
        return Err(InvalidDigest);
      }
      if OpenBlob in faults {
        return Err(IOError);
      }
      if digest !in blobs {
        return Err(NotFound);
      }
      return Ok(blobs[digest]);
    }

    // Joins blobs in order into a new one.
    method Concat(digests: seq<Bytes>, faults: set<Step>) returns (r: Result<Blob, PutError>)
      requires Valid()
      modifies this
      ensures Valid()
      ensures forall d :: d in old(blobs) ==> d in blobs && blobs[d] == old(blobs[d])
      ensures r.Ok? ==> Openable(old(blobs), digests)
      ensures r.Ok? ==>
        var data := Joined(ContentsOf(old(blobs), digests));
        r.value == Blob(sha(data), md5(data), |data|) && r.value.digest in blobs
      ensures Harmless(faults) && Openable(old(blobs), digests) ==> r.Ok?
    {
      ghost var before := blobs;
      var joined: Bytes, i := [], 0;
      while i < |digests|
        invariant 0 <= i <= |digests| && blobs == before && Valid()
        invariant Openable(before, digests[..i]) && joined == Joined(ContentsOf(before, digests[..i]))
      {
        var part := Open(digests[i], faults);
        if part.Err? {
          return Err(part.error);
        }
        assert digests[..i + 1] == digests[..i] + [digests[i]];
        ContentsAppend(before, digests[..i], digests[i]);
        joined := joined + part.value;
        i := i + 1;
      }
      assert digests[..i] == digests;
      var src := new Source(joined, if ReadPart in faults then ReadError else EndOfInput);
      r := Put(Raw(src), [], faults);
    }
  }

  predicate Openable(blobs: map<Bytes, Bytes>, digests: seq<Bytes>) {
    forall i :: 0 <= i < |digests| ==> ValidDigest(digests[i]) && digests[i] in blobs
  }

  function ContentsOf(blobs: map<Bytes, Bytes>, digests: seq<Bytes>): seq<Bytes>
    requires Openable(blobs, digests)
  {
    seq(|digests|, i requires 0 <= i < |digests| => blobs[digests[i]])
  }

  lemma ContentsAppend(blobs: map<Bytes, Bytes>, digests: seq<Bytes>, d: Bytes)
    requires Openable(blobs, digests) && ValidDigest(d) && d in blobs
    ensures Openable(blobs, digests + [d])
    ensures Joined(ContentsOf(blobs, digests + [d])) == Joined(ContentsOf(blobs, digests)) + blobs[d]
  {
    assert ContentsOf(blobs, digests + [d]) == ContentsOf(blobs, digests) + [blobs[d]];
    JoinedAppend(ContentsOf(blobs, digests), blobs[d]);
  }
}
