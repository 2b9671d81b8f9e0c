// Multipart uploads over whole runs: a part stays as it was last put, and goes
// with its upload.
module MultipartRuns {
  import opened Outcomes
  import opened VersionHistory
  import opened StoreTables
  import opened StoreRuns
  import opened Catalog

  // The operations after which a part may be another, or gone: the same number
  // put again, and the end of its upload.
  predicate Displaces(tx: Transaction, k: PartKey) {
    match tx
    case Client(PutPartOp(other, _)) => other == k
    case Client(CompleteOp(upload, _, _, _, _)) => upload == k.upload
    case Client(AbortOp(upload)) => upload == k.upload
    case Reap(stale, _) => k.upload in stale
    case _ => false
  }

  lemma PromoteLeavesUploads(t: Tables, slot: Slot, now: int)
    ensures Promote(t, slot, now).uploads == t.uploads && Promote(t, slot, now).parts == t.parts
  {
  }

  // Only the multipart operations touch uploads and parts.
  lemma StepOnUploads(w: World, op: Op)
    ensures
      var t := Step(w, op).tables;
      match op
      case CreateUploadOp(upload, row) => t.uploads == w.tables.uploads[upload := row] && t.parts == w.tables.parts
      case PutPartOp(k, part) =>
        && t.uploads == w.tables.uploads
        && t.parts == if k.upload in w.tables.uploads then w.tables.parts[k := part] else w.tables.parts
      case AbortOp(upload) => t == Abort(w.tables, upload)
      case CompleteOp(upload, _, _, _, _) =>
        && t.uploads == (if Outcome(w, op).Ok? then Abort(w.tables, upload) else w.tables).uploads
        && t.parts == (if Outcome(w, op).Ok? then Abort(w.tables, upload) else w.tables).parts
      case _ => t.uploads == w.tables.uploads && t.parts == w.tables.parts
  {
    hide Promote, InsertVersion;
    match op {
      case DeleteVersionOp(slot, versionId, now) =>
        DeleteVersionLeavesUploads(w.tables, slot, versionId, now);
      case PutOp(slot, data, ids, now) =>
        PutLeavesUploads(w.tables, slot, data, w.StateOf(slot.bucket), ids, now);
      case CompleteOp(_, slot, data, ids, now) =>
        PutLeavesUploads(w.tables, slot, data, w.StateOf(slot.bucket), ids, now);
      case DeleteOp(slot, ids, now) =>
        DeleteLeavesUploads(w.tables, slot, w.StateOf(slot.bucket), ids, now);
      case RestoreOp(slot, versionId, ids, now) =>
        RestoreLeavesUploads(w.tables, slot, versionId, ids, now);
      case _ =>
    }
  }

  lemma PutLeavesUploads(t: Tables, slot: Slot, data: Data, state: VersioningState,
      ids: NewIds, now: int)
    ensures
      var r := Put(t, slot, data, state, ids, now);
      r.Ok? ==> r.value.uploads == t.uploads && r.value.parts == t.parts
  {
  }

  lemma DeleteLeavesUploads(t: Tables, slot: Slot, state: VersioningState, ids: NewIds, now: int)
    ensures
      var r := Delete(t, slot, state, ids, now);
      r.Ok? ==> r.value.uploads == t.uploads && r.value.parts == t.parts
  {
  }

  lemma RestoreLeavesUploads(t: Tables, slot: Slot, versionId: string, ids: NewIds, now: int)
    ensures
      var r := Restore(t, slot, versionId, ids, now);
      r.Ok? ==> r.value.uploads == t.uploads && r.value.parts == t.parts
  {
  }

  lemma DeleteVersionLeavesUploads(t: Tables, slot: Slot, versionId: string, now: int)
    ensures
      var r := DeleteVersion(t, slot, versionId, now);
      r.Ok? ==> r.value.uploads == t.uploads && r.value.parts == t.parts
  {
    hide Promote;
    PromoteLeavesUploads(t.(objects := t.objects - {slot}), slot, now);
    var k := VersionKey(slot, ExternalId(InternalId(versionId)));
    PromoteLeavesUploads(t.(versions := t.versions - {k}), slot, now);
  }

  lemma TransactionKeepsPart(w: World, tx: Transaction, k: PartKey)
    requires k in w.tables.parts && !Displaces(tx, k)
    ensures k in Performed(w, tx).tables.parts && Performed(w, tx).tables.parts[k] == w.tables.parts[k]
  {
    hide Step;
    if tx.Client? {
      StepOnUploads(w, tx.op);
    }
  }

  lemma {:induction false} PartStays(w: World, txs: seq<Transaction>, k: PartKey)
    requires k in w.tables.parts && forall tx :: tx in txs ==> !Displaces(tx, k)
    ensures k in PerformedAll(w, txs).tables.parts && PerformedAll(w, txs).tables.parts[k] == w.tables.parts[k]
  {
    hide Performed, Displaces;
    if txs != [] {
      PartStays(w, txs[..|txs| - 1], k);
      TransactionKeepsPart(PerformedAll(w, txs[..|txs| - 1]), txs[|txs| - 1], k);
    }
  }

  lemma {:induction false} PerformedThen(w: World, a: seq<Transaction>, b: seq<Transaction>)
    ensures PerformedAll(w, a + b) == PerformedAll(PerformedAll(w, a), b)
    decreases |b|
  {
    hide Performed;
    if b == [] {
      assert a + b == a;
    } else {
      assert (a + b)[..|a + b| - 1] == a + b[..|b| - 1];
      PerformedThen(w, a, b[..|b| - 1]);
    }
  }

  // Wherever in a run a part is put, what it was put as, its size and ETag with
  // its digest, is what stands under its number until that number is put again or
  // its upload is completed, aborted or reaped.
  lemma LastPartPutIsStored(w: World, before: seq<Transaction>, k: PartKey, part: PartRow, after: seq<Transaction>)
    requires k.upload in PerformedAll(w, before).tables.uploads
    requires forall tx :: tx in after ==> !Displaces(tx, k)
    ensures
      var parts := PerformedAll(w, before + [Client(PutPartOp(k, part))] + after).tables.parts;
      k in parts && parts[k] == part
  {
    var put := Client(PutPartOp(k, part));
    var w1 := PerformedAll(w, before);
    PerformedThen(w, before + [put], after);
    assert (before + [put])[..|before + [put]| - 1] == before;
    StepOnUploads(w1, put.op);
    assert PerformedAll(w, before + [put]) == Step(w1, put.op);
    hide PerformedAll, Step, Displaces;
    PartStays(PerformedAll(w, before + [put]), after, k);
  }

  // Every part belongs to an upload.
  ghost predicate PartsHaveUploads(t: Tables) {
    forall k :: k in t.parts ==> k.upload in t.uploads
  }

  lemma TransactionKeepsUploads(w: World, tx: Transaction)
    requires PartsHaveUploads(w.tables)
    ensures PartsHaveUploads(Performed(w, tx).tables)
  {
    hide Step;
    if tx.Client? {
      StepOnUploads(w, tx.op);
    }
  }

  // So that nothing of an upload is left once it has been completed, aborted or
  // reaped, whatever else the run does.
  lemma {:induction false} NoPartOutlivesItsUpload(w: World, txs: seq<Transaction>)
    requires PartsHaveUploads(w.tables)
    ensures PartsHaveUploads(PerformedAll(w, txs).tables)
  {
    hide Performed, PartsHaveUploads;
    if txs != [] {
      NoPartOutlivesItsUpload(w, txs[..|txs| - 1]);
      TransactionKeepsUploads(PerformedAll(w, txs[..|txs| - 1]), txs[|txs| - 1]);
    }
  }
}
