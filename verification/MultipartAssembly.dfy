// Completing a multipart upload: which part lists are accepted, and what the
// object they name is made of.
module MultipartAssembly {
  import opened Outcomes
  import opened Bytes
  import opened Text
  import opened Streams
  import opened BlobStore

  const MIN_PART_SIZE := 5 * 1024 * 1024
  const DASH: byte := 0x2D

  // A part as uploaded, and as the client asks for it.
  datatype Part = Part(number: int, digest: Bytes, size: nat, etag: Bytes)

  datatype Wanted = Wanted(number: int, etag: Bytes)

  datatype CompleteError =
    | InvalidPartOrder
    | NotUploaded(number: int)
    | ETagMismatch(number: int)
    | TooSmall(number: int, size: nat)
    | NoParts
    | AssemblyFailed(why: PutError)
    | SizeMismatch

  function UnquoteETag(etag: Bytes): Bytes {
    if |etag| >= 2 && etag[0] == QUOTE && etag[|etag| - 1] == QUOTE then etag[1..|etag| - 1] else etag
  }

  // An ETag is compared without its quotes, whether or not the client sent them.
  lemma QuotesAreOptional(etag: Bytes)
    ensures UnquoteETag([QUOTE] + etag + [QUOTE]) == etag
    ensures etag == [] || etag[0] != QUOTE ==> UnquoteETag(etag) == etag
  {
    assert ([QUOTE] + etag + [QUOTE])[1..|etag| + 1] == etag;
  }

  // -------------------------------------------------------- what is accepted

  predicate StrictlyAscending(wanted: seq<Wanted>) {
    (forall i :: 0 <= i < |wanted| ==> wanted[i].number >= 1)
    && forall i, j :: 0 <= i < j < |wanted| ==> wanted[i].number < wanted[j].number
  }

  // The i-th part was uploaded, as the client remembers it, and is large enough
  // for its place among n.
  predicate Matches(wanted: seq<Wanted>, uploaded: map<int, Part>, i: nat, n: nat)
    requires i < |wanted|
  {
    && wanted[i].number in uploaded
    && UnquoteETag(wanted[i].etag) == uploaded[wanted[i].number].etag
    && (i + 1 < n ==> uploaded[wanted[i].number].size >= MIN_PART_SIZE)
  }

  predicate Acceptable(wanted: seq<Wanted>, uploaded: map<int, Part>) {
    && StrictlyAscending(wanted)
    && (forall i :: 0 <= i < |wanted| ==> wanted[i].number in uploaded)
    && (forall i :: 0 <= i < |wanted| ==> Matches(wanted, uploaded, i, |wanted|))
  }

  function Picked(wanted: seq<Wanted>, uploaded: map<int, Part>): seq<Part>
    requires Acceptable(wanted, uploaded)
  {
    seq(|wanted|, i requires 0 <= i < |wanted| => uploaded[wanted[i].number])
  }

  // What is wrong with the i-th part, the parts before it being right.
  function Fault(wanted: seq<Wanted>, uploaded: map<int, Part>, i: nat): Option<CompleteError>
    requires i < |wanted|
  {
    var number := wanted[i].number;
    if number <= (if i == 0 then 0 else wanted[i - 1].number) then Some(InvalidPartOrder)
    else if number !in uploaded then Some(NotUploaded(number))
    else if UnquoteETag(wanted[i].etag) != uploaded[number].etag then Some(ETagMismatch(number))
    else if i < |wanted| - 1 && uploaded[number].size < MIN_PART_SIZE then Some(TooSmall(number, uploaded[number].size))
    else None
  }

  // A list without faults is an acceptable one, and the other way round.
  lemma FaultlessIff(wanted: seq<Wanted>, uploaded: map<int, Part>)
    ensures Acceptable(wanted, uploaded) <==> forall i :: 0 <= i < |wanted| ==> Fault(wanted, uploaded, i) == None
  {
    if forall i :: 0 <= i < |wanted| ==> Fault(wanted, uploaded, i) == None {
      AscendingFrom(wanted, uploaded, |wanted|);
      assert wanted[..|wanted|] == wanted;
      forall i | 0 <= i < |wanted| ensures Matches(wanted, uploaded, i, |wanted|) {
        assert Fault(wanted, uploaded, i) == None;
      }
      forall i | 0 <= i < |wanted| ensures wanted[i].number in uploaded {
        assert Matches(wanted, uploaded, i, |wanted|);
      }
    }
    if Acceptable(wanted, uploaded) {
      forall i | 0 <= i < |wanted| ensures Fault(wanted, uploaded, i) == None {
        assert Matches(wanted, uploaded, i, |wanted|);
      }
    }
  }

  lemma {:induction false} AscendingFrom(wanted: seq<Wanted>, uploaded: map<int, Part>, n: nat)
    requires n <= |wanted| && forall i :: 0 <= i < n ==> Fault(wanted, uploaded, i) == None
    ensures StrictlyAscending(wanted[..n])
  {
    if n > 0 {
      AscendingFrom(wanted, uploaded, n - 1);
      assert Fault(wanted, uploaded, n - 1) == None;
      assert wanted[..n] == wanted[..n - 1] + [wanted[n - 1]];
    } else {
      assert wanted[..0] == [];
    }
  }

  // The i-th number is above the one before it, or zero; the part was uploaded
  // with that ETag; and it has five megabytes unless it is the last.
  predicate Fits(wanted: seq<Wanted>, uploaded: map<int, Part>, i: nat)
    requires i < |wanted|
  {
    && wanted[i].number > (if i == 0 then 0 else wanted[i - 1].number)
    && wanted[i].number in uploaded && UnquoteETag(wanted[i].etag) == uploaded[wanted[i].number].etag
    && (i < |wanted| - 1 ==> uploaded[wanted[i].number].size >= 5 * 1024 * 1024)
  }

  lemma FitsIff(wanted: seq<Wanted>, uploaded: map<int, Part>)
    ensures (forall i :: 0 <= i < |wanted| ==> Fault(wanted, uploaded, i) == None) <==>
      forall i :: 0 <= i < |wanted| ==> Fits(wanted, uploaded, i)
  {
    forall i | 0 <= i < |wanted| ensures Fault(wanted, uploaded, i) == None <==> Fits(wanted, uploaded, i) {
    }
  }

  // Accepts exactly the acceptable lists, and otherwise reports the first fault.
  method SelectParts(wanted: seq<Wanted>, uploaded: map<int, Part>) returns (r: Result<seq<Part>, CompleteError>)
    ensures r.Ok? <==> Acceptable(wanted, uploaded)
    ensures r.Ok? <==> forall i :: 0 <= i < |wanted| ==> Fits(wanted, uploaded, i)
    ensures Acceptable(wanted, uploaded) ==> r == Ok(Picked(wanted, uploaded))
    ensures r.Err? ==> exists i :: 0 <= i < |wanted| && FirstFault(wanted, uploaded, i, r.error)
  {
    hide Acceptable, Matches;
    var selected: seq<Part> := [];
    var previousNumber := 0;
    for i := 0 to |wanted|
      invariant previousNumber == if i == 0 then 0 else wanted[i - 1].number
      invariant forall j :: 0 <= j < i ==> Fault(wanted, uploaded, j) == None
      invariant |selected| == i && forall j :: 0 <= j < i ==>
        wanted[j].number in uploaded && selected[j] == uploaded[wanted[j].number]
    {
      var want := wanted[i];
      var failure: Option<CompleteError> := None;
      if want.number <= previousNumber {
        failure := Some(InvalidPartOrder);
      } else if want.number !in uploaded {
        failure := Some(NotUploaded(want.number));
      } else if UnquoteETag(want.etag) != uploaded[want.number].etag {
        failure := Some(ETagMismatch(want.number));
      } else if i < |wanted| - 1 && uploaded[want.number].size < MIN_PART_SIZE {
        failure := Some(TooSmall(want.number, uploaded[want.number].size));
      }
      if failure.Some? {
        assert FirstFault(wanted, uploaded, i, failure.value);
        FaultlessIff(wanted, uploaded);
        FitsIff(wanted, uploaded);
        return Err(failure.value);
      }
      previousNumber := want.number;
      selected := selected + [uploaded[want.number]];
    }
    FaultlessIff(wanted, uploaded);
    assert selected == Picked(wanted, uploaded);
    FitsIff(wanted, uploaded);
    return Ok(selected);
  }

  predicate FirstFault(wanted: seq<Wanted>, uploaded: map<int, Part>, i: nat, e: CompleteError)
    requires i < |wanted|
  {
    Fault(wanted, uploaded, i) == Some(e) && forall j :: 0 <= j < i ==> Fault(wanted, uploaded, j) == None
  }

  // ------------------------------------------------------------ the new ETag

  // The bytes a part puts into the composite hash: its raw digest, or the text
  // of an ETag that is not hexadecimal.
  function PartBytes(part: Part): Bytes {
    match HexDecode(part.etag) case Some(raw) => raw case None => part.etag
  }

  function PartsHashed(parts: seq<Part>): Bytes {
    if parts == [] then [] else PartsHashed(parts[..|parts| - 1]) + PartBytes(parts[|parts| - 1])
  }

  method CompositeETag(md5: Bytes -> Bytes, parts: seq<Part>) returns (etag: Bytes)
    ensures etag == md5(PartsHashed(parts)) + [DASH] + Itoa(|parts|)
  {
    var sum: Bytes := [];
    for i := 0 to |parts|
      invariant sum == PartsHashed(parts[..i])
    {
      assert parts[..i + 1][..i] == parts[..i];
      var raw := HexDecode(parts[i].etag);
      if raw.None? {
        sum := sum + parts[i].etag;
        continue;
      }
      sum := sum + raw.value;
    }
    assert parts[..|parts|] == parts;
    return md5(sum) + [DASH] + Itoa(|parts|);
  }

  // Parts stored under their hexadecimal MD5 are hashed as the MD5s themselves.
  lemma {:induction false} CompositeHashesRawDigests(raws: seq<Bytes>, parts: seq<Part>)
    requires |raws| == |parts| && forall i :: 0 <= i < |parts| ==> parts[i].etag == HexText(raws[i])
    ensures PartsHashed(parts) == Joined(raws)
  {
    if parts != [] {
      var last := |parts| - 1;
      CompositeHashesRawDigests(raws[..last], parts[..last]);
      HexDecodeOfText(raws[last]);
      JoinedAppend(raws[..last], raws[last]);
      assert raws == raws[..last] + [raws[last]];
    }
  }

  // ---------------------------------------------------------------- assembly

  function ByNumber(rows: seq<Part>): map<int, Part> {
    if rows == [] then map[] else ByNumber(rows[..|rows| - 1])[rows[|rows| - 1].number := rows[|rows| - 1]]
  }

  lemma {:induction false} ByNumberMembers(rows: seq<Part>, number: int)
    ensures number in ByNumber(rows) ==> ByNumber(rows)[number] in rows
  {
    if rows != [] {
      ByNumberMembers(rows[..|rows| - 1], number);
      assert rows == rows[..|rows| - 1] + [rows[|rows| - 1]];
    }
  }

  predicate DistinctNumbers(rows: seq<Part>) {
    forall i, j :: 0 <= i < j < |rows| ==> rows[i].number != rows[j].number
  }

  // Every row is found under its number, and nothing else is found.
  lemma {:induction false} ByNumberIs(rows: seq<Part>, number: int)
    requires DistinctNumbers(rows)
    ensures number in ByNumber(rows) <==> exists i :: 0 <= i < |rows| && rows[i].number == number
    ensures forall i :: 0 <= i < |rows| ==>
      rows[i].number in ByNumber(rows) && ByNumber(rows)[rows[i].number] == rows[i]
  {
    if rows != [] {
      var front := rows[..|rows| - 1];
      ByNumberIs(front, number);
      assert forall i :: 0 <= i < |front| ==> front[i] == rows[i];
    }
  }

  function DigestsOf(parts: seq<Part>): seq<Bytes> {
    seq(|parts|, i requires 0 <= i < |parts| => parts[i].digest)
  }

  function TotalSize(parts: seq<Part>): nat {
    if parts == [] then 0 else TotalSize(parts[..|parts| - 1]) + parts[|parts| - 1].size
  }

  // Part rows record the sizes of the blobs they name, as Put reported them.
  predicate Consistent(rows: seq<Part>, blobs: map<Bytes, Bytes>) {
    forall i :: 0 <= i < |rows| && rows[i].digest in blobs ==> |blobs[rows[i].digest]| == rows[i].size
  }

  lemma {:induction false} SizesAddUp(parts: seq<Part>, blobs: map<Bytes, Bytes>)
    requires Openable(blobs, DigestsOf(parts)) && Consistent(parts, blobs)
    ensures |Joined(ContentsOf(blobs, DigestsOf(parts)))| == TotalSize(parts)
  {
    if parts != [] {
      var last := |parts| - 1;
      assert DigestsOf(parts) == DigestsOf(parts[..last]) + [parts[last].digest];
      assert Openable(blobs, DigestsOf(parts[..last])) by {
        forall i | 0 <= i < last ensures DigestsOf(parts[..last])[i] == DigestsOf(parts)[i] {
        }
      }
      SizesAddUp(parts[..last], blobs);
      assert ValidDigest(DigestsOf(parts)[last]);
      ContentsAppend(blobs, DigestsOf(parts[..last]), parts[last].digest);
    }
  }

  datatype Assembled = Assembled(blob: Blob, etag: Bytes)

  // The handler's work up to the database transaction: the object is the parts
  // asked for, joined in that order, and its size cannot fail to agree.
  method Assemble(store: Store, wanted: seq<Wanted>, rows: seq<Part>, faults: set<Step>)
    returns (r: Result<Assembled, CompleteError>)
    requires store.Valid()
    modifies store
    ensures store.Valid() && forall d :: d in old(store.blobs) ==>
          d in store.blobs && store.blobs[d] == old(store.blobs[d])
    ensures r.Ok? ==> wanted != [] && Acceptable(wanted, ByNumber(rows))
    ensures r.Ok? ==>
      var parts := Picked(wanted, ByNumber(rows));
      && Openable(old(store.blobs), DigestsOf(parts))
      && var data := Joined(ContentsOf(old(store.blobs), DigestsOf(parts)));
         && r.value.blob == Blob(store.sha(data), store.md5(data), |data|)
         && r.value.etag == store.md5(PartsHashed(parts)) + [DASH] + Itoa(|parts|)
         && r.value.blob.digest in store.blobs
    ensures Consistent(rows, old(store.blobs)) ==> r != Err(SizeMismatch)
    // And where nothing is wrong with the list, the blobs or the disk, it succeeds.
    ensures
      wanted != [] && Acceptable(wanted, ByNumber(rows)) && Harmless(faults)
      && Openable(old(store.blobs), DigestsOf(Picked(wanted, ByNumber(rows)))) && Consistent(rows, old(store.blobs))
      ==> r.Ok?
  {
    if |wanted| == 0 {
      return Err(NoParts);
    }
    var byNumber: map<int, Part> := map[];
    for i := 0 to |rows|
      invariant byNumber == ByNumber(rows[..i])
    {
      assert rows[..i + 1][..i] == rows[..i];
      byNumber := byNumber[rows[i].number := rows[i]];
    }
    assert rows[..|rows|] == rows;
    var selected := SelectParts(wanted, byNumber);
    if selected.Err? {
      return Err(selected.error);
    }
    hide Acceptable, Picked, Fault, ByNumber, Joined, ContentsOf, PartsHashed;
    var parts := selected.value;
    var digests, totalSize := SumParts(parts);
    ghost var before := store.blobs;
    var assembled := store.Concat(digests, faults);
    if assembled.Err? {
      return Err(AssemblyFailed(assembled.error));
    }
    if Consistent(rows, before) {
      PickedAreRows(wanted, rows);
      SizesAddUp(parts, before);
    }
    if assembled.value.size != totalSize {
      return Err(SizeMismatch);
    }
    var etag := CompositeETag(store.md5, parts);
    return Ok(Assembled(assembled.value, etag));
  }

  method SumParts(parts: seq<Part>) returns (digests: seq<Bytes>, totalSize: nat)
    ensures digests == DigestsOf(parts) && totalSize == TotalSize(parts)
  {
    digests, totalSize := [], 0;
    for i := 0 to |parts|
      invariant digests == DigestsOf(parts[..i]) && totalSize == TotalSize(parts[..i])
    {
      assert parts[..i + 1][..i] == parts[..i];
      digests := digests + [parts[i].digest];
      totalSize := totalSize + parts[i].size;
    }
    assert parts[..|parts|] == parts;
  }

  lemma PickedAreRows(wanted: seq<Wanted>, rows: seq<Part>)
    requires Acceptable(wanted, ByNumber(rows))
    ensures forall blobs :: Consistent(rows, blobs) ==> Consistent(Picked(wanted, ByNumber(rows)), blobs)
  {
    var parts := Picked(wanted, ByNumber(rows));
    forall i | 0 <= i < |parts| ensures parts[i] in rows {
      ByNumberMembers(rows, wanted[i].number);
    }
  }
}
