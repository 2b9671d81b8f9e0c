// Uploads interleaved step by step, with other processes cleaning and removing
// files and the machine losing power at any point.
module BlobRuns {
  import opened Bytes
  import opened Streams

  // A file is synced once its contents are known to survive a power loss.
  datatype File = File(content: Bytes, synced: bool)

  // An upload under way: its file, what it has hashed, and whether it has read
  // to the end and closed.
  datatype Upload = Upload(temp: nat, received: Bytes, known: Bytes, closed: bool)

  datatype Disk = Disk(blobs: map<Bytes, File>, temps: map<nat, File>, nextTemp: nat, uploads: map<nat, Upload>)

  datatype Step =
    | Begin(id: nat, known: Bytes)
    | Receive(id: nat, piece: Bytes)
    | TornWrite(id: nat, piece: Bytes)
    | Finish(id: nat)
    | Commit(id: nat)
    | Stop(id: nat, cleaned: bool)
    | CleanTemp(temp: nat)
    | Remove(digest: Bytes)
    | PowerLoss(junk: Bytes)

  function DigestOf(sha: Bytes -> Bytes, u: Upload): Bytes {
    if u.known == [] then sha(u.received) else u.known
  }

  predicate Possible(sha: Bytes -> Bytes, d: Disk, s: Step) {
    match s
    case Begin(id, _) => id !in d.uploads
    case Receive(id, _) => id in d.uploads && !d.uploads[id].closed && d.uploads[id].temp in d.temps
    case TornWrite(id, _) => id in d.uploads && !d.uploads[id].closed && d.uploads[id].temp in d.temps
    // The body has ended without error, which a reader checking a declared
    // digest allows only when it matches.
    case Finish(id) =>
      && id in d.uploads && !d.uploads[id].closed && d.uploads[id].temp in d.temps
      && (d.uploads[id].known == [] || d.uploads[id].known == sha(d.uploads[id].received))
    case Commit(id) => id in d.uploads && d.uploads[id].closed && d.uploads[id].temp in d.temps
    case Stop(id, _) => id in d.uploads
    case _ => true
  }

  // A file whose contents were still in the page cache comes back as anything.
  function AfterLoss(f: File, junk: Bytes): File {
    if f.synced then f else File(junk, false)
  }

  function Next(sha: Bytes -> Bytes, d: Disk, s: Step): Disk
    requires Possible(sha, d, s)
  {
    match s
    case Begin(id, known) =>
      Disk(d.blobs, d.temps[d.nextTemp := File([], false)], d.nextTemp + 1,
           d.uploads[id := Upload(d.nextTemp, [], known, false)])
    case Receive(id, piece) =>
      var u := d.uploads[id];
      d.(temps := d.temps[u.temp := File(d.temps[u.temp].content + piece, false)],
         uploads := d.uploads[id := u.(received := u.received + piece)])
    case TornWrite(id, piece) =>
      var u := d.uploads[id];
      d.(temps := d.temps[u.temp := File(d.temps[u.temp].content + piece, false)], uploads := d.uploads - {id})
    case Finish(id) =>
      var u := d.uploads[id];
      d.(temps := d.temps[u.temp := d.temps[u.temp].(synced := true)],
         uploads := d.uploads[id := u.(closed := true)])
    // The rename replaces whatever a concurrent upload put there first.
    case Commit(id) =>
      var u := d.uploads[id];
      d.(blobs := d.blobs[DigestOf(sha, u) := d.temps[u.temp]], temps := d.temps - {u.temp},
          uploads := d.uploads - {id})
    // An error, or a duplicate found: the deferred cleanup may itself fail.
    case Stop(id, cleaned) =>
      d.(temps := if cleaned then d.temps - {d.uploads[id].temp} else d.temps, uploads := d.uploads - {id})
    case CleanTemp(temp) => d.(temps := d.temps - {temp})
    case Remove(digest) => d.(blobs := d.blobs - {digest})
    case PowerLoss(junk) =>
      d.(blobs := map x | x in d.blobs :: AfterLoss(d.blobs[x], junk),
         temps := map t | t in d.temps :: AfterLoss(d.temps[t], junk),
         uploads := map[])
  }

  // Every blob is complete, durable, and named by its own digest.
  ghost predicate Intact(sha: Bytes -> Bytes, d: Disk) {
    forall x :: x in d.blobs ==> d.blobs[x].synced && sha(d.blobs[x].content) == x
  }

  ghost predicate UploadOk(sha: Bytes -> Bytes, d: Disk, u: Upload) {
    && u.temp < d.nextTemp
    && (u.temp in d.temps ==> d.temps[u.temp].content == u.received && (u.closed ==> d.temps[u.temp].synced))
    && (u.closed ==> DigestOf(sha, u) == sha(u.received))
  }

  ghost predicate Apart(d: Disk) {
    forall i, j :: i in d.uploads && j in d.uploads && i != j ==> d.uploads[i].temp != d.uploads[j].temp
  }

  ghost predicate Inv(sha: Bytes -> Bytes, d: Disk) {
    && Intact(sha, d)
    && (forall t :: t in d.temps ==> t < d.nextTemp)
    && (forall i :: i in d.uploads ==> UploadOk(sha, d, d.uploads[i]))
    && Apart(d)
  }

  lemma EmptyInv(sha: Bytes -> Bytes)
    ensures Inv(sha, Disk(map[], map[], 0, map[]))
  {
  }

  lemma StepKeepsInv(sha: Bytes -> Bytes, d: Disk, s: Step)
    requires Inv(sha, d) && Possible(sha, d, s)
    ensures Inv(sha, Next(sha, d, s))
  {
    var d' := Next(sha, d, s);
    forall i | i in d'.uploads ensures UploadOk(sha, d', d'.uploads[i]) {
      if i in d.uploads {
        assert UploadOk(sha, d, d.uploads[i]);
      }
    }
    if s.Commit? {
      assert UploadOk(sha, d, d.uploads[s.id]);
    }
  }

  ghost predicate Reachable(sha: Bytes -> Bytes, d: Disk, steps: seq<Step>, end: Disk)
    decreases |steps|
  {
    if steps == [] then d == end
    else Possible(sha, d, steps[0]) && Reachable(sha, Next(sha, d, steps[0]), steps[1..], end)
  }

  // At every point of every run, whatever stands at a digest's path is the
  // complete content with that digest.
  lemma {:induction false} BlobsAreAlwaysIntact(sha: Bytes -> Bytes, d: Disk, steps: seq<Step>, end: Disk)
    requires Inv(sha, d) && Reachable(sha, d, steps, end)
    ensures Inv(sha, end) && Intact(sha, end)
    decreases |steps|
  {
    if steps != [] {
      StepKeepsInv(sha, d, steps[0]);
      BlobsAreAlwaysIntact(sha, Next(sha, d, steps[0]), steps[1..], end);
    }
  }

  // ------------------------------------------------- an upload that succeeds

  function Receives(id: nat, pieces: seq<Bytes>): seq<Step> {
    seq(|pieces|, i requires 0 <= i < |pieces| => Receive(id, pieces[i]))
  }

  // Begun, fed, finished and committed with nothing in between.
  function UploadOf(id: nat, pieces: seq<Bytes>): seq<Step> {
    [Begin(id, [])] + (Receives(id, pieces) + [Finish(id), Commit(id)])
  }

  lemma {:induction false} ReachableJoins(sha: Bytes -> Bytes, d: Disk, a: seq<Step>, middle: Disk, b: seq<Step>,
      end: Disk)
    requires Reachable(sha, d, a, middle) && Reachable(sha, middle, b, end)
    ensures Reachable(sha, d, a + b, end)
    decreases |a|
  {
    hide Next;
    if a == [] {
      assert a + b == b;
    } else {
      assert (a + b)[0] == a[0] && (a + b)[1..] == a[1..] + b;
      ReachableJoins(sha, Next(sha, d, a[0]), a[1..], middle, b, end);
    }
  }

  // The disk while an upload with its temp file open has received some bytes.
  predicate Underway(d: Disk, id: nat, start: Disk, received: Bytes) {
    && d == Disk(start.blobs, start.temps[start.nextTemp := File(received, false)], start.nextTemp + 1,
                 start.uploads[id := Upload(start.nextTemp, received, [], false)])
  }

  lemma {:induction false} PiecesArrive(sha: Bytes -> Bytes, start: Disk, d: Disk, id: nat, received: Bytes,
      pieces: seq<Bytes>) returns (d': Disk)
    requires Underway(d, id, start, received)
    ensures Reachable(sha, d, Receives(id, pieces), d') && Underway(d', id, start, received + Joined(pieces))
    decreases |pieces|
  {
    if pieces == [] {
      d' := d;
      assert Receives(id, pieces) == [] && received + [] == received;
    } else {
      var s := Receive(id, pieces[0]);
      d' := PiecesArrive(sha, start, Next(sha, d, s), id, received + pieces[0], pieces[1..]);
      assert Receives(id, pieces)[0] == s && Receives(id, pieces)[1..] == Receives(id, pieces[1..]);
      assert received + pieces[0] + Joined(pieces[1..]) == received + Joined(pieces);
    }
  }

  // An upload that runs through leaves its bytes under their digest, whatever
  // else is going on; and not even a power loss right after takes them, or any
  // other blob, away.
  lemma UploadsAreDurable(sha: Bytes -> Bytes, d: Disk, id: nat, pieces: seq<Bytes>, junk: Bytes)
    requires Inv(sha, d) && id !in d.uploads
    ensures
      var digest := sha(Joined(pieces));
      exists end ::
        && Reachable(sha, d, UploadOf(id, pieces) + [PowerLoss(junk)], end)
        && end.blobs == d.blobs[digest := File(Joined(pieces), true)]
  {
    var data := Joined(pieces);
    var begun := Next(sha, d, Begin(id, []));
    assert Underway(begun, id, d, []);
    var fed := PiecesArrive(sha, d, begun, id, [], pieces);
    assert [] + data == data;
    var end := Concludes(sha, d, fed, id, data, junk);
    hide Next, Underway;
    var last := [Finish(id), Commit(id), PowerLoss(junk)];
    ReachableJoins(sha, begun, Receives(id, pieces), fed, last, end);
    var rest := Receives(id, pieces) + last;
    var all := [Begin(id, [])] + rest;
    assert all[0] == Begin(id, []) && all[1..] == rest;
    assert Reachable(sha, d, all, end);
    assert UploadOf(id, pieces) + [PowerLoss(junk)] == all;
  }

  lemma Concludes(sha: Bytes -> Bytes, d: Disk, fed: Disk, id: nat, data: Bytes, junk: Bytes) returns (end: Disk)
    requires Intact(sha, d) && Underway(fed, id, d, data)
    ensures Reachable(sha, fed, [Finish(id), Commit(id), PowerLoss(junk)], end)
    ensures end.blobs == d.blobs[sha(data) := File(data, true)]
  {
    var finished := Next(sha, fed, Finish(id));
    var done := Next(sha, finished, Commit(id));
    end := Next(sha, done, PowerLoss(junk));
    assert done.blobs == d.blobs[sha(data) := File(data, true)];
    assert end.blobs == done.blobs;
    LastSteps(sha, fed, finished, done, end, id, junk);
  }

  lemma LastSteps(sha: Bytes -> Bytes, fed: Disk, finished: Disk, done: Disk, end: Disk, id: nat, junk: Bytes)
    requires Possible(sha, fed, Finish(id)) && finished == Next(sha, fed, Finish(id))
    requires Possible(sha, finished, Commit(id)) && done == Next(sha, finished, Commit(id))
    requires end == Next(sha, done, PowerLoss(junk))
    ensures Reachable(sha, fed, [Finish(id), Commit(id), PowerLoss(junk)], end)
  {
    hide Next;
    var steps := [Finish(id), Commit(id), PowerLoss(junk)];
    assert steps[1..] == [Commit(id), PowerLoss(junk)] && steps[1..][1..] == [PowerLoss(junk)];
    assert [PowerLoss(junk)][1..] == [];
    assert Reachable(sha, end, [], end);
    assert Reachable(sha, done, [PowerLoss(junk)], end);
    assert Reachable(sha, finished, [Commit(id), PowerLoss(junk)], end);
  }
}
