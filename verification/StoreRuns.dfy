// Whole runs of the store: every admissible sequence of transactions acts on the
// abstract history of each key, and what that says about version ids.
module StoreRuns {
  import opened Outcomes
  import opened VersionHistory
  import opened StoreTables
  import opened StoreRefinement

  datatype World = World(tables: Tables, versioning: map<string, VersioningState>) {
    function StateOf(bucket: string): VersioningState {
      if bucket in versioning then versioning[bucket] else Unversioned
    }
  }

  // Every id and time comes from outside: random draws and the database clock.
  datatype Op =
    | PutOp(slot: Slot, data: Data, ids: NewIds, now: int)
    | CompleteOp(upload: string, slot: Slot, data: Data, ids: NewIds, now: int)
    | DeleteOp(slot: Slot, ids: NewIds, now: int)
    | DeleteVersionOp(slot: Slot, versionId: string, now: int)
    | SetVersioningOp(bucket: string, next: VersioningState)
    | CreateUploadOp(upload: string, row: UploadRow)
    | PutPartOp(key: PartKey, part: PartRow)
    | AbortOp(upload: string)
    | RestoreOp(slot: Slot, versionId: string, ids: NewIds, now: int)

  predicate OnKey(op: Op, slot: Slot) {
    (op.PutOp? || op.CompleteOp? || op.DeleteOp? || op.DeleteVersionOp? || op.RestoreOp?) && op.slot == slot
  }

  ghost function Outcome(w: World, op: Op): TablesResult {
    match op
    case PutOp(slot, data, ids, now) => Put(w.tables, slot, data, w.StateOf(slot.bucket), ids, now)
    case CompleteOp(upload, slot, data, ids, now) =>
      Complete(w.tables, upload, slot, data, w.StateOf(slot.bucket), ids, now)
    case DeleteOp(slot, ids, now) => Delete(w.tables, slot, w.StateOf(slot.bucket), ids, now)
    case DeleteVersionOp(slot, versionId, now) => DeleteVersion(w.tables, slot, versionId, now)
    case SetVersioningOp(_, _) => Ok(w.tables)
    case CreateUploadOp(upload, row) => Ok(w.tables.(uploads := w.tables.uploads[upload := row]))
    case PutPartOp(k, part) => PutPart(w.tables, k, part)
    case AbortOp(upload) => Ok(Abort(w.tables, upload))
    case RestoreOp(slot, versionId, ids, now) => Restore(w.tables, slot, versionId, ids, now)
  }

  // A transaction that fails is rolled back.
  ghost function Step(w: World, op: Op): World {
    var tables := match Outcome(w, op) case Ok(t) => t case Err(_) => w.tables;
    var versioning := match op
      case SetVersioningOp(bucket, next) =>
        (match w.StateOf(bucket).TransitionTo(next) case Ok(s) => w.versioning[bucket := s] case Err(_) => w.versioning)
      case _ => w.versioning;
    World(tables, versioning)
  }

  ghost function Run(w: World, ops: seq<Op>): World
    decreases |ops|
  {
    if ops == [] then w else Run(Step(w, ops[0]), ops[1..])
  }

  // The clock moves forward, drawn ids are new, and a write outside an enabled
  // bucket, or a restore of a key without a current version, finds no stored null
  // version (PutRefines and RestoreRefines say why).
  ghost predicate Orderly(w: World, op: Op) {
    match op
    case PutOp(slot, _, ids, now) =>
      Later(w.tables, slot, now) && Fresh(w.tables, slot, ids)
      && (w.StateOf(slot.bucket).Enabled? || !StoresNull(w.tables, slot))
    case CompleteOp(_, slot, _, ids, now) =>
      Later(w.tables, slot, now) && Fresh(w.tables, slot, ids)
      && (w.StateOf(slot.bucket).Enabled? || !StoresNull(w.tables, slot))
    case DeleteOp(slot, ids, now) => Later(w.tables, slot, now) && Fresh(w.tables, slot, ids)
    case DeleteVersionOp(slot, _, now) => Later(w.tables, slot, now)
    case RestoreOp(slot, _, ids, now) =>
      Later(w.tables, slot, now) && Fresh(w.tables, slot, ids)
      && (slot in w.tables.objects || !StoresNull(w.tables, slot))
    case _ => true
  }

  // And a version that is saved outranks the copy that restored it, should it be
  // one: what the random row ids decide. NoTiesWithoutRestores has the rest.
  ghost predicate Admissible(w: World, op: Op) {
    && Orderly(w, op)
    && match op
       case PutOp(slot, _, ids, _) => SavesOnTop(w.tables, slot, w.StateOf(slot.bucket), ids)
       case CompleteOp(_, slot, _, ids, _) => SavesOnTop(w.tables, slot, w.StateOf(slot.bucket), ids)
       case DeleteOp(slot, ids, _) => SavesOnTop(w.tables, slot, w.StateOf(slot.bucket), ids)
       case _ => true
  }

  ghost predicate AdmissibleRun(w: World, ops: seq<Op>)
    decreases |ops|
  {
    ops == [] || (Admissible(w, ops[0]) && AdmissibleRun(Step(w, ops[0]), ops[1..]))
  }

  ghost predicate KeyFine(w: World, slot: Slot) {
    SlotOk(w.tables, slot) && (w.StateOf(slot.bucket).Unversioned? ==> NeverVersioned(w.tables, slot))
  }

  ghost predicate WorldOk(w: World) {
    forall slot :: KeyFine(w, slot)
  }

  // ------------------------------------------------- the abstract machine

  // One key as a client sees it: its history and its bucket's setting.
  datatype View = View(history: History, state: VersioningState)

  function AbstractStep(v: View, op: Op, slot: Slot): View {
    match op
    case PutOp(s, data, ids, _) =>
      if s == slot then v.(history := Written(v.history, v.state, ids.version, data)) else v
    case CompleteOp(_, s, data, ids, _) =>
      if s == slot then v.(history := Written(v.history, v.state, ids.version, data)) else v
    case DeleteOp(s, ids, _) =>
      if s == slot then v.(history := Deleted(v.history, v.state, ids.version)) else v
    case DeleteVersionOp(s, versionId, _) =>
      if s == slot then v.(history := Without(v.history, ExternalId(versionId))) else v
    case RestoreOp(s, versionId, ids, _) =>
      if s == slot then v.(history := Restored(v.history, versionId, ids.version)) else v
    case SetVersioningOp(bucket, next) =>
      if bucket == slot.bucket then
        (match v.state.TransitionTo(next) case Ok(s) => v.(state := s) case Err(_) => v)
      else v
    case _ => v
  }

  function AbstractRun(v: View, ops: seq<Op>, slot: Slot): View
    decreases |ops|
  {
    if ops == [] then v else AbstractRun(AbstractStep(v, ops[0], slot), ops[1..], slot)
  }

  ghost function ViewOf(w: World, slot: Slot): View {
    View(HistoryOf(w.tables, slot), w.StateOf(slot.bucket))
  }

  // ------------------------------------------------------------ one step

  lemma InsertTouchesOneKey(t: Tables, slot: Slot, id: string, row: VersionRow, other: Slot)
    requires other != slot
    ensures InsertVersion(t, slot, id, row).Ok? ==>
      StoredRows(InsertVersion(t, slot, id, row).value, other) == StoredRows(t, other)
  {
    if InsertVersion(t, slot, id, row).Ok? {
      StoredAfterInsert(t, slot, id, row, other);
    }
  }

  lemma PutTouchesOneKey(t: Tables, slot: Slot, data: Data, state: VersioningState, ids: NewIds, now: int,
      other: Slot)
    requires other != slot && Put(t, slot, data, state, ids, now).Ok?
    ensures
      var t' := Put(t, slot, data, state, ids, now).value;
      LiveRow(t', other) == LiveRow(t, other) && StoredRows(t', other) == StoredRows(t, other)
  {
    hide StoredRows;
    if slot in t.objects && Preserves(state, t.objects[slot]) {
      var live := t.objects[slot];
      InsertTouchesOneKey(t, slot, ExternalId(live.versionId),
                          VersionRow(Contents(live.data), live.updatedAt, ids.saved), other);
    }
    var t1 := Supersede(t, slot, state, ids).value;
    StoredIgnoresObjects(t1, Put(t, slot, data, state, ids, now).value.objects, other);
  }

  lemma DeleteTouchesOneKey(t: Tables, slot: Slot, state: VersioningState, ids: NewIds, now: int, other: Slot)
    requires other != slot && Delete(t, slot, state, ids, now).Ok?
    ensures
      var t' := Delete(t, slot, state, ids, now).value;
      LiveRow(t', other) == LiveRow(t, other) && StoredRows(t', other) == StoredRows(t, other)
  {
    hide StoredRows;
    var t' := Delete(t, slot, state, ids, now).value;
    if !state.Configured() {
      StoredIgnoresObjects(t, t'.objects, other);
    } else {
      if slot in t.objects && Preserves(state, t.objects[slot]) {
        var live := t.objects[slot];
        InsertTouchesOneKey(t, slot, ExternalId(live.versionId),
                            VersionRow(Contents(live.data), live.updatedAt, ids.saved), other);
      }
      var t1 := Supersede(t, slot, state, ids).value;
      StoredAfterRemove(t1, slot, NULL_VERSION_ID, other);
      var t2 := if state.Suspended? then t1.(versions := t1.versions - {VersionKey(slot, NULL_VERSION_ID)}) else t1;
      InsertTouchesOneKey(t2, slot, MarkerId(state, ids), VersionRow(DeleteMarker, now, ids.added), other);
      var t3 := InsertVersion(t2, slot, MarkerId(state, ids), VersionRow(DeleteMarker, now, ids.added)).value;
      StoredIgnoresObjects(t3, t'.objects, other);
    }
  }

  lemma PromoteTouchesOneKey(t: Tables, slot: Slot, now: int, other: Slot)
    requires other != slot
    ensures
      var t' := Promote(t, slot, now);
      LiveRow(t', other) == LiveRow(t, other) && StoredRows(t', other) == StoredRows(t, other)
  {
    var rows := StoredRows(t, slot);
    hide StoredRows;
    var t' := Promote(t, slot, now);
    if exists id :: IsNewest(rows, id) {
      var id :| IsNewest(rows, id);
      var moved := t.(objects := t'.objects);
      StoredIgnoresObjects(t, t'.objects, other);
      StoredAfterRemove(moved, slot, id, other);
      if rows[id].body.Contents? {
        assert t' == moved.(versions := moved.versions - {VersionKey(slot, id)});
      }
    }
  }

  lemma DeleteVersionTouchesOneKey(t: Tables, slot: Slot, versionId: string, now: int, other: Slot)
    requires other != slot && DeleteVersion(t, slot, versionId, now).Ok?
    ensures
      var t' := DeleteVersion(t, slot, versionId, now).value;
      LiveRow(t', other) == LiveRow(t, other) && StoredRows(t', other) == StoredRows(t, other)
  {
    hide StoredRows, Promote;
    var t0 := t.(objects := t.objects - {slot});
    StoredIgnoresObjects(t, t0.objects, other);
    PromoteTouchesOneKey(t0, slot, now, other);
    var id := ExternalId(InternalId(versionId));
    var t1 := t.(versions := t.versions - {VersionKey(slot, id)});
    StoredAfterRemove(t, slot, id, other);
    PromoteTouchesOneKey(t1, slot, now, other);
  }

  lemma RestoreTouchesOneKey(t: Tables, slot: Slot, versionId: string, ids: NewIds, now: int, other: Slot)
    requires other != slot && Restore(t, slot, versionId, ids, now).Ok?
    ensures
      var t' := Restore(t, slot, versionId, ids, now).value;
      LiveRow(t', other) == LiveRow(t, other) && StoredRows(t', other) == StoredRows(t, other)
  {
    hide StoredRows;
    var t' := Restore(t, slot, versionId, ids, now).value;
    var t1 := t.(objects := t'.objects);
    var data := t.versions[VersionKey(slot, versionId)].body.data;
    StoredIgnoresObjects(t, t1.objects, other);
    InsertTouchesOneKey(t1, slot, ids.version, VersionRow(Contents(data), now, ids.added), other);
  }

  lemma MultipartTouchesNoKey(t: Tables, t': Tables, slot: Slot)
    requires t'.objects == t.objects && t'.versions == t.versions
    ensures LiveRow(t', slot) == LiveRow(t, slot) && StoredRows(t', slot) == StoredRows(t, slot)
  {
  }

  lemma OtherKeysUntouched(w: World, op: Op, slot: Slot)
    requires !OnKey(op, slot)
    ensures
      var t, t' := w.tables, Step(w, op).tables;
      LiveRow(t', slot) == LiveRow(t, slot) && StoredRows(t', slot) == StoredRows(t, slot)
  {
    if Outcome(w, op).Ok? {
      hide StoredRows, Put, Delete, DeleteVersion, Restore;
      match op
      case PutOp(s, data, ids, now) =>
        PutTouchesOneKey(w.tables, s, data, w.StateOf(s.bucket), ids, now, slot);
      case CompleteOp(upload, s, data, ids, now) =>
        PutTouchesOneKey(w.tables, s, data, w.StateOf(s.bucket), ids, now, slot);
        var t1 := Put(w.tables, s, data, w.StateOf(s.bucket), ids, now).value;
        MultipartTouchesNoKey(t1, Abort(t1, upload), slot);
      case DeleteOp(s, ids, now) =>
        DeleteTouchesOneKey(w.tables, s, w.StateOf(s.bucket), ids, now, slot);
      case DeleteVersionOp(s, versionId, now) =>
        DeleteVersionTouchesOneKey(w.tables, s, versionId, now, slot);
      case RestoreOp(s, versionId, ids, now) =>
        RestoreTouchesOneKey(w.tables, s, versionId, ids, now, slot);
      case _ =>
        MultipartTouchesNoKey(w.tables, Step(w, op).tables, slot);
    }
  }

  lemma PutNeverVersioned(t: Tables, slot: Slot, data: Data, ids: NewIds, now: int)
    requires SlotOk(t, slot) && Unused(t.versions, ids.saved) && NeverVersioned(t, slot)
    ensures Put(t, slot, data, Unversioned, ids, now).Ok?
    ensures NeverVersioned(Put(t, slot, data, Unversioned, ids, now).value, slot)
  {
    PutLayout(t, slot, data, Unversioned, ids, now);
  }

  // A bucket that was never versioned stays free of versions.
  lemma NeverVersionedKept(w: World, op: Op, slot: Slot)
    requires WorldOk(w) && Admissible(w, op) && OnKey(op, slot)
    requires w.StateOf(slot.bucket).Unversioned?
    ensures NeverVersioned(Step(w, op).tables, slot)
  {
    assert KeyFine(w, slot);
    var t := w.tables;
    hide StoredRows, Put, DeleteVersion, KeyOk, HistoryOf;
    match op
    case PutOp(_, data, ids, now) =>
      PutNeverVersioned(t, slot, data, ids, now);
    case CompleteOp(upload, _, data, ids, now) =>
      PutNeverVersioned(t, slot, data, ids, now);
      var t1 := Put(t, slot, data, Unversioned, ids, now).value;
      MultipartTouchesNoKey(t1, Abort(t1, upload), slot);
    case DeleteOp(_, ids, now) =>
      StoredIgnoresObjects(t, t.objects - {slot}, slot);
    case DeleteVersionOp(_, versionId, now) =>
      NothingToPromote(t, slot, versionId, now);
    case RestoreOp(_, versionId, ids, now) =>
      RestoreRefines(t, slot, versionId, ids, now);
      NothingToRestore(t, slot, versionId, ids, now);
  }

  lemma NothingToRestore(t: Tables, slot: Slot, versionId: string, ids: NewIds, now: int)
    requires NeverVersioned(t, slot)
    ensures Restore(t, slot, versionId, ids, now).Err?
  {
    assert VersionKey(slot, versionId) in t.versions ==> versionId in StoredRows(t, slot);
  }

  lemma NothingToPromote(t: Tables, slot: Slot, versionId: string, now: int)
    requires NeverVersioned(t, slot)
    ensures DeleteVersion(t, slot, versionId, now).Ok? ==>
      NeverVersioned(DeleteVersion(t, slot, versionId, now).value, slot)
  {
    var t1 := t.(objects := t.objects - {slot});
    StoredIgnoresObjects(t, t1.objects, slot);
    assert forall id :: !IsNewest(StoredRows(t1, slot), id);
    assert forall id :: VersionKey(slot, id) in t.versions ==> id in StoredRows(t, slot);
  }

  // One admissible transaction on its own key.
  lemma OwnKeyRefines(w: World, op: Op, slot: Slot)
    requires WorldOk(w) && Admissible(w, op) && OnKey(op, slot)
    ensures SlotOk(Step(w, op).tables, slot)
    ensures HistoryOf(Step(w, op).tables, slot) == AbstractStep(ViewOf(w, slot), op, slot).history
    ensures match Outcome(w, op)
      case Ok(_) => true
      case Err(e) => e == VersionNotFound && (op.RestoreOp? || (op.DeleteVersionOp?
                     && !HasId(HistoryOf(w.tables, slot), ExternalId(op.versionId))))
  {
    assert KeyFine(w, slot);
    hide WorldOk;
    if op.PutOp? || op.CompleteOp? || op.DeleteOp? {
      OwnKeyWritten(w, op, slot);
    } else {
      OwnKeyEdited(w, op, slot);
    }
  }

  lemma OwnKeyWritten(w: World, op: Op, slot: Slot)
    requires KeyFine(w, slot) && Admissible(w, op) && OnKey(op, slot) && (op.PutOp? || op.CompleteOp? || op.DeleteOp?)
    ensures SlotOk(Step(w, op).tables, slot)
    ensures HistoryOf(Step(w, op).tables, slot) == AbstractStep(ViewOf(w, slot), op, slot).history
    ensures Outcome(w, op).Ok?
  {
    var t := w.tables;
    var state := w.StateOf(slot.bucket);
    hide StoredRows, Put, Delete, NewestFirst, SavesOnTop, StoresNull;
    match op
    case PutOp(_, data, ids, now) =>
      PutRefines(t, slot, data, state, ids, now);
    case CompleteOp(upload, _, data, ids, now) =>
      PutRefines(t, slot, data, state, ids, now);
      var t1 := Put(t, slot, data, state, ids, now).value;
      MultipartTouchesNoKey(t1, Abort(t1, upload), slot);
    case DeleteOp(_, ids, now) =>
      DeleteRefines(t, slot, state, ids, now);
  }

  lemma OwnKeyEdited(w: World, op: Op, slot: Slot)
    requires KeyFine(w, slot) && Admissible(w, op) && OnKey(op, slot) && (op.DeleteVersionOp? || op.RestoreOp?)
    ensures SlotOk(Step(w, op).tables, slot)
    ensures HistoryOf(Step(w, op).tables, slot) == AbstractStep(ViewOf(w, slot), op, slot).history
    ensures match Outcome(w, op)
      case Ok(_) => true
      case Err(e) =>
        e == VersionNotFound && (op.RestoreOp? || !HasId(HistoryOf(w.tables, slot), ExternalId(op.versionId)))
  {
    var t := w.tables;
    hide StoredRows, DeleteVersion, Restore, NewestFirst, SavesOnTop, StoresNull;
    match op
    case DeleteVersionOp(_, versionId, now) =>
      DeleteVersionRefines(t, slot, versionId, now);
      if DeleteVersion(t, slot, versionId, now).Err? {
        WithoutAbsent(HistoryOf(t, slot), ExternalId(versionId));
      }
    case RestoreOp(_, versionId, ids, now) =>
      RestoreRefines(t, slot, versionId, ids, now);
  }

  // ------------------------------------------------------------- theorems

  lemma StepElsewhere(w: World, op: Op, slot: Slot)
    requires KeyFine(w, slot) && !OnKey(op, slot)
    ensures KeyFine(Step(w, op), slot)
    ensures ViewOf(Step(w, op), slot) == AbstractStep(ViewOf(w, slot), op, slot)
  {
    OtherKeysUntouched(w, op, slot);
    hide StoredRows, Outcome, NewestFirst, KeyOk;
  }

  lemma StepRefines(w: World, op: Op, slot: Slot)
    requires WorldOk(w) && Admissible(w, op)
    ensures KeyFine(Step(w, op), slot)
    ensures ViewOf(Step(w, op), slot) == AbstractStep(ViewOf(w, slot), op, slot)
  {
    assert KeyFine(w, slot);
    hide StoredRows, Outcome, NewestFirst, SlotOk, NeverVersioned, HistoryOf, Admissible, WorldOk;
    if OnKey(op, slot) {
      OwnKeyRefines(w, op, slot);
      if w.StateOf(slot.bucket).Unversioned? {
        NeverVersionedKept(w, op, slot);
      }
    } else {
      StepElsewhere(w, op, slot);
    }
  }

  lemma StepKeepsWorld(w: World, op: Op)
    requires WorldOk(w) && Admissible(w, op)
    ensures WorldOk(Step(w, op))
  {
    forall slot ensures KeyFine(Step(w, op), slot) {
      StepRefines(w, op, slot);
    }
  }

  // In every admissible run, each key's two tables are the history S3 promises.
  lemma {:induction false} RunRefines(w: World, ops: seq<Op>, slot: Slot)
    requires WorldOk(w) && AdmissibleRun(w, ops)
    ensures WorldOk(Run(w, ops))
    ensures ViewOf(Run(w, ops), slot) == AbstractRun(ViewOf(w, slot), ops, slot)
    decreases |ops|
  {
    if ops != [] {
      StepKeepsWorld(w, ops[0]);
      StepRefines(w, ops[0], slot);
      RunRefines(Step(w, ops[0]), ops[1..], slot);
    }
  }

  // Deletes that version, or restores another over it.
  predicate Replaces(w: World, op: Op, slot: Slot, id: string) {
    || (op.DeleteVersionOp? && op.slot == slot && ExternalId(op.versionId) == id)
    || (op.RestoreOp? && op.slot == slot
        && slot in w.tables.objects && ExternalId(w.tables.objects[slot].versionId) == id)
  }

  ghost predicate Spares(w: World, ops: seq<Op>, slot: Slot, id: string)
    decreases |ops|
  {
    ops == [] || (!Replaces(w, ops[0], slot, id) && Spares(Step(w, ops[0]), ops[1..], slot, id))
  }

  lemma StepKeepsVersion(w: World, op: Op, slot: Slot, id: string)
    requires WorldOk(w) && Admissible(w, op)
    requires id != NULL_VERSION_ID && HasId(HistoryOf(w.tables, slot), id) && !Replaces(w, op, slot, id)
    ensures Find(AbstractStep(ViewOf(w, slot), op, slot).history, id) == Find(HistoryOf(w.tables, slot), id)
  {
    var h := HistoryOf(w.tables, slot);
    FindWithout(h, NULL_VERSION_ID, id);
    if op.DeleteVersionOp? {
      FindWithout(h, ExternalId(op.versionId), id);
    }
    if op.RestoreOp? && op.slot == slot {
      assert KeyFine(w, slot);
      StoredIsStored(LiveRow(w.tables, slot), StoredRows(w.tables, slot));
      hide NewestFirst, StoredRows, KeyOk;
      FindRestored(h, op.versionId, op.ids.version, id);
    }
  }

  // A version id handed to a client keeps naming the same digest, size, ETag,
  // content type and metadata until that very id is deleted, or another version
  // is restored over it. Nothing is promised for "null", which a suspended bucket
  // overwrites.
  lemma {:induction false} VersionsAreImmutable(w: World, ops: seq<Op>, slot: Slot, id: string)
    requires WorldOk(w) && AdmissibleRun(w, ops)
    requires id != NULL_VERSION_ID && HasId(HistoryOf(w.tables, slot), id)
    requires Spares(w, ops, slot, id)
    ensures Find(HistoryOf(Run(w, ops).tables, slot), id) == Find(HistoryOf(w.tables, slot), id)
    decreases |ops|
  {
    if ops != [] {
      hide HistoryOf, KeyFine, Admissible, Step, AbstractStep, Replaces;
      StepRefines(w, ops[0], slot);
      StepKeepsVersion(w, ops[0], slot, id);
      StepKeepsWorld(w, ops[0]);
      VersionsAreImmutable(Step(w, ops[0]), ops[1..], slot, id);
    }
  }

  // GetObjectVersion of such an id never changes its answer.
  lemma ReadsAreStable(w: World, ops: seq<Op>, slot: Slot, id: string)
    requires WorldOk(w) && AdmissibleRun(w, ops)
    requires id != "" && id != NULL_VERSION_ID && HasId(HistoryOf(w.tables, slot), id)
    requires Spares(w, ops, slot, id)
    ensures GetVersion(Run(w, ops).tables, slot, id) == GetVersion(w.tables, slot, id)
    ensures GetVersion(w.tables, slot, id) != Err(VersionNotFound)
  {
    assert KeyFine(w, slot);
    RunRefines(w, ops, slot);
    assert KeyFine(Run(w, ops), slot);
    VersionsAreImmutable(w, ops, slot, id);
    GetVersionAgrees(w.tables, slot, id);
    GetVersionAgrees(Run(w, ops).tables, slot, id);
  }

  // ------------------------------------------------ there are such runs

  lemma {:induction false} AfterAll(rows: map<string, VersionRow>) returns (time: int)
    ensures AllBefore(rows, time)
    decreases |rows|
  {
    time := 0;
    if rows != map[] {
      var id :| id in rows;
      var rest := AfterAll(rows - {id});
      time := if rest > rows[id].createdAt then rest else rows[id].createdAt + 1;
      forall other | other in rows ensures rows[other].createdAt < time {
        if other != id {
          assert other in rows - {id};
        }
      }
    }
  }

  lemma {:induction false} AboveAll(versions: map<VersionKey, VersionRow>) returns (rowId: RowId)
    ensures forall k :: k in versions ==> versions[k].rowId < rowId
    decreases |versions|
  {
    rowId := 0;
    if versions != map[] {
      var k :| k in versions;
      var rest := AboveAll(versions - {k});
      rowId := if rest > versions[k].rowId then rest else versions[k].rowId + 1;
      forall other | other in versions ensures versions[other].rowId < rowId {
        if other != k {
          assert other in versions - {k};
        }
      }
    }
  }

  lemma {:induction false} NewId(h: History) returns (id: string)
    ensures !HasId(h, id) && |id| > 4
    ensures forall i :: 0 <= i < |h| ==> |h[i].id| < |id|
    decreases |h|
  {
    if h == [] {
      id := "newid";
    } else {
      id := NewId(h[1..]);
      if |h[0].id| >= |id| {
        id := h[0].id + id;
      }
      assert forall i :: 0 < i < |h| ==> h[i] == h[1..][i - 1];
      NotAmongShorter(h, id);
    }
  }

  lemma {:induction false} NotAmongShorter(h: History, id: string)
    requires forall i :: 0 <= i < |h| ==> |h[i].id| < |id|
    ensures !HasId(h, id)
  {
    if h != [] {
      assert |h[0].id| < |id|;
      NotAmongShorter(h[1..], id);
    }
  }

  lemma SomeTimeIsLater(t: Tables, slot: Slot) returns (now: int)
    ensures Later(t, slot, now)
  {
    var time := AfterAll(StoredRows(t, slot));
    now := if slot in t.objects && t.objects[slot].updatedAt >= time then t.objects[slot].updatedAt + 1 else time;
  }

  lemma SomeIdsAreFresh(t: Tables, slot: Slot) returns (ids: NewIds)
    ensures Fresh(t, slot, ids)
    ensures forall state :: SavesOnTop(t, slot, state, ids)
  {
    var version := NewId(HistoryOf(t, slot));
    var rowId := AboveAll(t.versions);
    ids := NewIds(version, rowId, rowId + 1);
    hide HistoryOf;
    assert Fresh(t, slot, ids);
    AboveEveryStored(t, slot, rowId);
  }

  lemma AboveEveryStored(t: Tables, slot: Slot, rowId: RowId)
    requires forall k :: k in t.versions ==> t.versions[k].rowId < rowId
    ensures forall id :: id in StoredRows(t, slot) ==> StoredRows(t, slot)[id].rowId < rowId
  {
  }

  // Whatever state the store is in, a write to an enabled bucket and any delete
  // have draws and a time that make them admissible.
  lemma SomeDrawIsAdmissible(w: World, slot: Slot) returns (ids: NewIds, now: int)
    ensures Admissible(w, DeleteOp(slot, ids, now))
    ensures forall data :: w.StateOf(slot.bucket).Enabled? || !StoresNull(w.tables, slot) ==>
      Admissible(w, PutOp(slot, data, ids, now))
  {
    ids := SomeIdsAreFresh(w.tables, slot);
    now := SomeTimeIsLater(w.tables, slot);
    hide Later, Fresh, SavesOnTop;
  }

  // -------------------------------------------------- runs without restores

  ghost predicate OrderlyRun(w: World, ops: seq<Op>)
    decreases |ops|
  {
    ops == [] || (Orderly(w, ops[0]) && OrderlyRun(Step(w, ops[0]), ops[1..]))
  }

  ghost predicate NoTies(w: World) {
    forall slot :: Untied(w.tables, slot)
  }

  lemma UntiedMeansAdmissible(w: World, op: Op)
    requires NoTies(w) && Orderly(w, op)
    ensures Admissible(w, op)
  {
    hide Orderly, Untied, SavesOnTop;
    if op.PutOp? || op.CompleteOp? || op.DeleteOp? {
      UntiedSavesOnTop(w.tables, op.slot, w.StateOf(op.slot.bucket), op.ids);
    }
  }

  lemma StepUnties(w: World, op: Op, slot: Slot)
    requires WorldOk(w) && NoTies(w) && Orderly(w, op) && !op.RestoreOp?
    ensures Untied(Step(w, op).tables, slot)
  {
    assert KeyFine(w, slot) && Untied(w.tables, slot);
    var t := w.tables;
    hide StoredRows, Put, Delete, DeleteVersion, KeyOk, NewestFirst;
    if !OnKey(op, slot) {
      OtherKeysUntouched(w, op, slot);
    } else {
      match op
      case PutOp(_, data, ids, now) =>
        PutUnties(t, slot, data, w.StateOf(slot.bucket), ids, now);
      case CompleteOp(upload, _, data, ids, now) =>
        PutUnties(t, slot, data, w.StateOf(slot.bucket), ids, now);
        var t1 := Put(t, slot, data, w.StateOf(slot.bucket), ids, now).value;
        MultipartTouchesNoKey(t1, Abort(t1, upload), slot);
      case DeleteOp(_, ids, now) =>
        DeleteLeavesNone(t, slot, w.StateOf(slot.bucket), ids, now);
      case DeleteVersionOp(_, versionId, now) =>
        DeleteVersionUnties(t, slot, versionId, now);
    }
  }

  lemma DeleteLeavesNone(t: Tables, slot: Slot, state: VersioningState, ids: NewIds, now: int)
    ensures Delete(t, slot, state, ids, now).Ok? ==> slot !in Delete(t, slot, state, ids, now).value.objects
  {
  }

  // Only a restore makes two versions of a key equally recent: without one, new
  // ids and a forward clock are all a run needs.
  lemma {:induction false} NoTiesWithoutRestores(w: World, ops: seq<Op>)
    requires WorldOk(w) && NoTies(w) && OrderlyRun(w, ops) && forall op :: op in ops ==> !op.RestoreOp?
    ensures AdmissibleRun(w, ops) && NoTies(Run(w, ops))
    decreases |ops|
  {
    if ops != [] {
      hide Orderly, Admissible, WorldOk, Untied, Step;
      UntiedMeansAdmissible(w, ops[0]);
      StepKeepsWorld(w, ops[0]);
      forall slot ensures Untied(Step(w, ops[0]).tables, slot) {
        StepUnties(w, ops[0], slot);
      }
      NoTiesWithoutRestores(Step(w, ops[0]), ops[1..]);
    }
  }

  // ------------------------------------------------------ from the start

  const EMPTY := World(Tables(map[], map[], map[], map[]), map[])

  lemma RunCons(w: World, op: Op, rest: seq<Op>)
    ensures Run(w, [op] + rest) == Run(Step(w, op), rest)
  {
    hide Step;
  }

  lemma RunNothing(w: World)
    ensures Run(w, []) == w
  {
  }

  lemma EmptyIsFine()
    ensures WorldOk(EMPTY) && NoTies(EMPTY)
  {
    assert forall s :: StoredRows(EMPTY.tables, s) == map[];
  }
}
