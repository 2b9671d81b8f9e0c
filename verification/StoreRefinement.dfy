// The two-table encoding refines the abstract histories of VersionHistory: the
// objects row followed by the stored rows newest first is one S3 history list,
// and every transaction acts on that list as S3 says it should.
module StoreRefinement {
  import opened Outcomes
  import opened VersionHistory
  import opened StoreTables

  // ------------------------------------------------- stored rows as a list

  lemma {:induction false} NewestExists(rows: map<string, VersionRow>)
    requires rows != map[] && Ranked(rows)
    ensures exists id :: IsNewest(rows, id)
    decreases |rows|
  {
    var a :| a in rows;
    var rest := rows - {a};
    if rest == map[] {
      assert forall other :: other in rows && other != a ==> other in rest;
      assert IsNewest(rows, a);
    } else {
      assert rest.Keys == rows.Keys - {a};
      NewestExists(rest);
      var b :| IsNewest(rest, b);
      assert forall other :: other in rows && other != a ==> other in rest;
      assert IsNewest(rows, if rows[a].Before(rows[b]) then b else a);
    }
  }

  // Ordered by created_at and row id descending; with distinct row ids every row
  // appears.
  ghost function NewestFirst(rows: map<string, VersionRow>): History
    decreases |rows|
  {
    if id :| IsNewest(rows, id) then
      assert (rows - {id}).Keys == rows.Keys - {id};
      [Version(id, rows[id].body)] + NewestFirst(rows - {id})
    else []
  }

  lemma NewestFirstCons(rows: map<string, VersionRow>, id: string)
    requires IsNewest(rows, id)
    ensures NewestFirst(rows) == [Version(id, rows[id].body)] + NewestFirst(rows - {id})
    ensures |rows - {id}| == |rows| - 1
  {
    assert (rows - {id}).Keys == rows.Keys - {id};
  }

  lemma {:induction false} NewestFirstIdsDistinct(rows: map<string, VersionRow>)
    ensures DistinctIds(NewestFirst(rows))
    ensures forall v :: v in NewestFirst(rows) ==> v.id in rows
    decreases |rows|
  {
    if id :| IsNewest(rows, id) {
      NewestFirstCons(rows, id);
      NewestFirstIdsDistinct(rows - {id});
      var rest := NewestFirst(rows - {id});
      assert forall j :: 0 <= j < |rest| ==> rest[j] in rest;
    }
  }

  lemma {:induction false} FindStored(rows: map<string, VersionRow>, id: string)
    requires Ranked(rows)
    ensures Find(NewestFirst(rows), id) == if id in rows then Some(rows[id].body) else None
    decreases |rows|
  {
    if rows != map[] {
      NewestExists(rows);
      var top :| IsNewest(rows, top);
      NewestFirstCons(rows, top);
      FindStored(rows - {top}, id);
    }
  }

  lemma NewestFirstPush(rows: map<string, VersionRow>, id: string, row: VersionRow)
    requires Ranked(rows) && id !in rows
    requires forall other :: other in rows ==> rows[other].Before(row) && rows[other].rowId != row.rowId
    ensures Ranked(rows[id := row])
    ensures NewestFirst(rows[id := row]) == [Version(id, row.body)] + NewestFirst(rows)
  {
    var more := rows[id := row];
    assert IsNewest(more, id);
    assert more - {id} == rows;
    NewestFirstCons(more, id);
  }

  lemma MinusCommutes<K, V>(m: map<K, V>, a: K, b: K)
    ensures m - {a} - {b} == m - {b} - {a}
  {
  }

  lemma NewestStaysNewest(rows: map<string, VersionRow>, id: string, top: string)
    requires IsNewest(rows, top) && id != top
    ensures NewestFirst(rows - {id}) == [Version(top, rows[top].body)] + NewestFirst(rows - {top} - {id})
  {
    assert IsNewest(rows - {id}, top);
    NewestFirstCons(rows - {id}, top);
    MinusCommutes(rows, id, top);
  }

  lemma NewestFirstRemoveTop(rows: map<string, VersionRow>, top: string)
    requires Ranked(rows) && IsNewest(rows, top)
    ensures NewestFirst(rows - {top}) == Without(NewestFirst(rows), top)
  {
    NewestFirstCons(rows, top);
    FindStored(rows - {top}, top);
    WithoutAbsent(NewestFirst(rows - {top}), top);
  }

  lemma NewestFirstRemoveAbsent(rows: map<string, VersionRow>, id: string)
    requires Ranked(rows) && id !in rows
    ensures NewestFirst(rows - {id}) == Without(NewestFirst(rows), id)
  {
    assert rows - {id} == rows;
    FindStored(rows, id);
    WithoutAbsent(NewestFirst(rows), id);
  }

  lemma {:induction false} NewestFirstRemove(rows: map<string, VersionRow>, id: string)
    requires Ranked(rows)
    ensures NewestFirst(rows - {id}) == Without(NewestFirst(rows), id)
    decreases |rows|
  {
    if id !in rows {
      NewestFirstRemoveAbsent(rows, id);
    } else {
      NewestExists(rows);
      var top :| IsNewest(rows, top);
      if top == id {
        NewestFirstRemoveTop(rows, top);
      } else {
        NewestFirstCons(rows, top);
        NewestFirstRemove(rows - {top}, id);
        NewestStaysNewest(rows, id, top);
      }
    }
  }

  // ------------------------------------------------------------ the history

  function LiveRow(t: Tables, slot: Slot): Option<ObjectRow> {
    if slot in t.objects then Some(t.objects[slot]) else None
  }

  // The live row has an id of its own and is no older than any stored row.
  ghost predicate LiveFits(live: Option<ObjectRow>, rows: map<string, VersionRow>) {
    live.Some? ==>
      && live.value.versionId != NULL_VERSION_ID
      && ExternalId(live.value.versionId) !in rows
      && forall id :: id in rows ==> rows[id].createdAt <= live.value.updatedAt
  }

  // The invariant of one key: its objects row, if any, and its stored rows.
  ghost predicate KeyOk(live: Option<ObjectRow>, rows: map<string, VersionRow>) {
    && Ranked(rows)
    && "" !in rows
    && LiveFits(live, rows)
    && (live.None? ==> forall id :: IsNewest(rows, id) ==> rows[id].body.DeleteMarker?)
  }

  ghost predicate SlotOk(t: Tables, slot: Slot) {
    KeyOk(LiveRow(t, slot), StoredRows(t, slot))
  }

  function LivePart(live: Option<ObjectRow>): History {
    match live
    case None => []
    case Some(row) => [Version(ExternalId(row.versionId), Contents(row.data))]
  }

  // The objects row, if any, followed by object_versions newest first.
  ghost function HistoryOf(t: Tables, slot: Slot): History {
    LivePart(LiveRow(t, slot)) + NewestFirst(StoredRows(t, slot))
  }

  // Ids are distinct, so each version sits in exactly one table, and a key has
  // a live row exactly when its newest entry has contents.
  lemma HistoryShape(t: Tables, slot: Slot)
    requires SlotOk(t, slot)
    ensures DistinctIds(HistoryOf(t, slot))
    ensures slot in t.objects <==> HistoryOf(t, slot) != [] && HistoryOf(t, slot)[0].body.Contents?
  {
    var rows := StoredRows(t, slot);
    var rest := NewestFirst(rows);
    NewestFirstIdsDistinct(rows);
    if slot in t.objects {
      assert forall j :: 0 <= j < |rest| ==> rest[j] in rest;
    } else {
      assert HistoryOf(t, slot) == rest;
      if rows != map[] {
        NewestExists(rows);
      }
    }
  }

  lemma FindInHistory(t: Tables, slot: Slot, id: string)
    requires SlotOk(t, slot)
    ensures Find(HistoryOf(t, slot), id) ==
      if slot in t.objects && ExternalId(t.objects[slot].versionId) == id then Some(Contents(t.objects[slot].data))
      else if id in StoredRows(t, slot) then Some(StoredRows(t, slot)[id].body)
      else None
  {
    FindStored(StoredRows(t, slot), id);
    FindConcat(LivePart(LiveRow(t, slot)), NewestFirst(StoredRows(t, slot)), id);
  }

  // Looking a version up in the two tables is looking it up in the list. A
  // client's "" addresses the null version too.
  lemma GetVersionAgrees(t: Tables, slot: Slot, versionId: string)
    requires SlotOk(t, slot)
    ensures GetVersion(t, slot, versionId) ==
      match Find(HistoryOf(t, slot), ExternalId(versionId))
      case None => Err(VersionNotFound)
      case Some(DeleteMarker) => Err(IsDeleteMarker)
      case Some(Contents(data)) => Ok(data)
  {
    FindInHistory(t, slot, ExternalId(versionId));
  }

  // ------------------------------------------------------------ assumptions

  ghost predicate AllBefore(rows: map<string, VersionRow>, now: int) {
    forall id :: id in rows ==> rows[id].createdAt < now
  }

  // The clock reads later than anything recorded for the key. The key's lock does
  // not give this: now() is when a transaction began, before it had the lock.
  ghost predicate Later(t: Tables, slot: Slot, now: int) {
    && (slot in t.objects ==> t.objects[slot].updatedAt < now)
    && AllBefore(StoredRows(t, slot), now)
  }

  // Newly drawn ids: the version id is neither spelling of null and unused by the
  // key, and no row has either of the row ids.
  ghost predicate Fresh(t: Tables, slot: Slot, ids: NewIds) {
    && ids.version != "" && ids.version != NULL_VERSION_ID && !HasId(HistoryOf(t, slot), ids.version)
    && Unused(t.versions, ids.saved) && Unused(t.versions, ids.added) && ids.saved != ids.added
  }

  // Saved under this row id, the current version outranks every stored one of the
  // same time. Only a restore leaves such a tie for the row ids to break.
  ghost predicate TopsTies(live: Option<ObjectRow>, rows: map<string, VersionRow>, saved: RowId) {
    live.Some? ==> forall id :: id in rows && rows[id].createdAt == live.value.updatedAt ==> rows[id].rowId < saved
  }

  predicate Saves(live: Option<ObjectRow>, state: VersioningState) {
    live.Some? && Preserves(state, live.value)
  }

  // The stored rows of a key that a write leaves in place.
  function Lasting(rows: map<string, VersionRow>, state: VersioningState): map<string, VersionRow> {
    if state.Suspended? then rows - {NULL_VERSION_ID} else rows
  }

  ghost predicate SavesOnTop(t: Tables, slot: Slot, state: VersioningState, ids: NewIds) {
    var live := LiveRow(t, slot);
    Saves(live, state) ==> TopsTies(live, Lasting(StoredRows(t, slot), state), ids.saved)
  }

  ghost predicate NotAmong(rows: map<string, VersionRow>, rowId: RowId) {
    forall id :: id in rows ==> rows[id].rowId != rowId
  }

  lemma UnusedByKey(t: Tables, slot: Slot, rowId: RowId)
    requires Unused(t.versions, rowId)
    ensures NotAmong(StoredRows(t, slot), rowId)
  {
  }

  // What a bucket that was never versioned looks like.
  ghost predicate NeverVersioned(t: Tables, slot: Slot) {
    StoredRows(t, slot) == map[] && (slot in t.objects ==> t.objects[slot].versionId == "")
  }

  predicate StoresNull(t: Tables, slot: Slot) {
    VersionKey(slot, NULL_VERSION_ID) in t.versions
  }

  // ---------------------------------------------------------- row movements

  lemma StoredAfterInsert(t: Tables, slot: Slot, id: string, row: VersionRow, other: Slot)
    ensures StoredRows(t.(versions := t.versions[VersionKey(slot, id) := row]), other) ==
      if other == slot then StoredRows(t, slot)[id := row] else StoredRows(t, other)
  {
  }

  lemma StoredAfterRemove(t: Tables, slot: Slot, id: string, other: Slot)
    ensures StoredRows(t.(versions := t.versions - {VersionKey(slot, id)}), other) ==
      if other == slot then StoredRows(t, slot) - {id} else StoredRows(t, other)
  {
  }

  lemma StoredIgnoresObjects(t: Tables, objects: map<Slot, ObjectRow>, slot: Slot)
    ensures StoredRows(t.(objects := objects), slot) == StoredRows(t, slot)
  {
  }

  // What superseding leaves of a key: its objects row, and the stored rows with
  // the live version among them where the state preserves it.
  lemma SupersedeLayout(t: Tables, slot: Slot, state: VersioningState, ids: NewIds)
    requires SlotOk(t, slot) && Unused(t.versions, ids.saved)
    ensures Supersede(t, slot, state, ids).Ok?
    ensures
      var t1 := Supersede(t, slot, state, ids).value;
      && t1.objects == t.objects
      && StoredRows(t1, slot) == SupersededRows(LiveRow(t, slot), StoredRows(t, slot), state, ids.saved)
  {
    if slot in t.objects && Preserves(state, t.objects[slot]) {
      var live := t.objects[slot];
      var id, row := ExternalId(live.versionId), VersionRow(Contents(live.data), live.updatedAt, ids.saved);
      assert id !in StoredRows(t, slot);
      StoredAfterInsert(t, slot, id, row, slot);
    }
  }

  function SupersededRows(live: Option<ObjectRow>, rows: map<string, VersionRow>, state: VersioningState, saved: RowId)
    : map<string, VersionRow>
  {
    if Saves(live, state) then
      rows[ExternalId(live.value.versionId) := VersionRow(Contents(live.value.data), live.value.updatedAt, saved)]
    else rows
  }

  lemma SupersededRowsOk(live: Option<ObjectRow>, rows: map<string, VersionRow>, state: VersioningState, saved: RowId,
      now: int)
    requires Ranked(rows) && "" !in rows && LiveFits(live, rows) && AllBefore(rows, now) && NotAmong(rows, saved)
    requires live.Some? ==> live.value.updatedAt < now
    ensures
      var rows1 := SupersededRows(live, rows, state, saved);
      && Ranked(rows1) && "" !in rows1 && AllBefore(rows1, now)
      && forall id :: id in rows1 ==> rows1[id].rowId == saved || (id in rows && rows1[id] == rows[id])
  {
  }

  // Moving the live version among the stored ones leaves the history as it was
  // exactly when it outranks the rows it ties with.
  lemma SupersededOrder(live: Option<ObjectRow>, rows: map<string, VersionRow>, state: VersioningState, saved: RowId)
    requires Ranked(rows) && LiveFits(live, rows) && NotAmong(rows, saved)
    ensures
      NewestFirst(SupersededRows(live, rows, state, saved))
      == (if Saves(live, state) then LivePart(live) else []) + NewestFirst(rows)
      <==> (Saves(live, state) ==> TopsTies(live, rows, saved))
  {
    if Saves(live, state) {
      var id, row := ExternalId(live.value.versionId),
          VersionRow(Contents(live.value.data), live.value.updatedAt, saved);
      if TopsTies(live, rows, saved) {
        NewestFirstPush(rows, id, row);
      } else {
        SavedIsHidden(rows, id, row);
      }
    }
  }

  lemma SavedIsHidden(rows: map<string, VersionRow>, id: string, row: VersionRow)
    requires Ranked(rows[id := row]) && id !in rows && exists other :: other in rows && row.Before(rows[other])
    ensures NewestFirst(rows[id := row]) != [] && NewestFirst(rows[id := row])[0].id != id
  {
    var more := rows[id := row];
    var other :| other in rows && row.Before(rows[other]);
    assert more[other] == rows[other];
    NewestExists(more);
    var top :| IsNewest(more, top);
    NewestFirstCons(more, top);
  }

  // ---------------------------------------------------------------- PUT

  lemma PutLayout(t: Tables, slot: Slot, data: Data, state: VersioningState, ids: NewIds, now: int)
    requires SlotOk(t, slot) && Unused(t.versions, ids.saved)
    ensures Put(t, slot, data, state, ids, now).Ok?
    ensures
      var t' := Put(t, slot, data, state, ids, now).value;
      && LiveRow(t', slot) == Some(ObjectRow(data, IncomingId(state, ids), now))
      && StoredRows(t', slot) == SupersededRows(LiveRow(t, slot), StoredRows(t, slot), state, ids.saved)
  {
    SupersedeLayout(t, slot, state, ids);
    var t1 := Supersede(t, slot, state, ids).value;
    StoredIgnoresObjects(t1, Put(t, slot, data, state, ids, now).value.objects, slot);
  }

  // A null row stored beneath the live version survives a null write; without
  // one, dropping the null version from the history drops only a null live row.
  lemma WithoutNull(live: Option<ObjectRow>, rows: map<string, VersionRow>)
    requires Ranked(rows) && LiveFits(live, rows)
    ensures Without(LivePart(live) + NewestFirst(rows), NULL_VERSION_ID) ==
      (if Saves(live, Suspended) then LivePart(live) else []) + NewestFirst(rows - {NULL_VERSION_ID})
  {
    NewestFirstRemove(rows, NULL_VERSION_ID);
    WithoutConcat(LivePart(live), NewestFirst(rows), NULL_VERSION_ID);
  }

  lemma WrittenRows(live: Option<ObjectRow>, rows: map<string, VersionRow>, state: VersioningState,
                    ids: NewIds, data: Data, now: int)
    requires Ranked(rows) && LiveFits(live, rows) && NotAmong(rows, ids.saved)
    requires state.Unversioned? ==> rows == map[] && (live.Some? ==> live.value.versionId == "")
    requires state.Enabled? || NULL_VERSION_ID !in rows
    ensures
      LivePart(Some(ObjectRow(data, IncomingId(state, ids), now)))
        + NewestFirst(SupersededRows(live, rows, state, ids.saved))
      == Written(LivePart(live) + NewestFirst(rows), state, ExternalId(ids.version), data)
      <==> (Saves(live, state) ==> TopsTies(live, rows, ids.saved))
  {
    var head := LivePart(Some(ObjectRow(data, IncomingId(state, ids), now)));
    var rows1 := SupersededRows(live, rows, state, ids.saved);
    var kept := (if Saves(live, state) then LivePart(live) else []) + NewestFirst(rows);
    SupersededOrder(live, rows, state, ids.saved);
    if !state.Enabled? {
      assert rows - {NULL_VERSION_ID} == rows;
      WithoutNull(live, rows);
    } else if live.None? {
      assert LivePart(live) + NewestFirst(rows) == NewestFirst(rows);
    }
    hide NewestFirst;
    assert Written(LivePart(live) + NewestFirst(rows), state, ExternalId(ids.version), data) == head + kept;
    assert (head + NewestFirst(rows1))[1..] == NewestFirst(rows1) && (head + kept)[1..] == kept;
  }

  lemma NullIsStored(t: Tables, slot: Slot, state: VersioningState)
    ensures NULL_VERSION_ID in StoredRows(t, slot) <==> StoresNull(t, slot)
    ensures !StoresNull(t, slot) || !state.Suspended? ==> Lasting(StoredRows(t, slot), state) == StoredRows(t, slot)
  {
  }

  lemma PutKeepsHistoryIff(t: Tables, slot: Slot, data: Data, state: VersioningState, ids: NewIds, now: int)
    requires SlotOk(t, slot) && Fresh(t, slot, ids)
    requires state.Unversioned? ==> NeverVersioned(t, slot)
    requires state.Enabled? || !StoresNull(t, slot)
    ensures Put(t, slot, data, state, ids, now).Ok?
    ensures
      HistoryOf(Put(t, slot, data, state, ids, now).value, slot)
      == Written(HistoryOf(t, slot), state, ids.version, data)
      <==> SavesOnTop(t, slot, state, ids)
  {
    hide StoredRows, NewestFirst, Put, Unused, Written, StoresNull, TopsTies;
    var live, rows := LiveRow(t, slot), StoredRows(t, slot);
    NullIsStored(t, slot, state);
    UnusedByKey(t, slot, ids.saved);
    PutLayout(t, slot, data, state, ids, now);
    WrittenRows(live, rows, state, ids, data, now);
  }

  lemma PutKeepsInvariant(t: Tables, slot: Slot, data: Data, state: VersioningState, ids: NewIds, now: int)
    requires SlotOk(t, slot) && Later(t, slot, now) && Fresh(t, slot, ids)
    requires state.Enabled? || !StoresNull(t, slot)
    ensures Put(t, slot, data, state, ids, now).Ok?
    ensures SlotOk(Put(t, slot, data, state, ids, now).value, slot)
  {
    hide StoredRows, NewestFirst, Put, Unused, HistoryOf;
    UnusedByKey(t, slot, ids.saved);
    NullIsStored(t, slot, state);
    PutLayout(t, slot, data, state, ids, now);
    SupersededRowsOk(LiveRow(t, slot), StoredRows(t, slot), state, ids.saved, now);
    FindInHistory(t, slot, ids.version);
  }

  // PUT acts on the history as S3 says exactly when the version it saves outranks
  // the rows it ties with and, outside an enabled bucket, no null version of the
  // key is stored: replaceNullVersion is called by DELETE only.
  lemma PutRefines(t: Tables, slot: Slot, data: Data, state: VersioningState, ids: NewIds, now: int)
    requires SlotOk(t, slot) && Later(t, slot, now) && Fresh(t, slot, ids)
    requires state.Unversioned? ==> NeverVersioned(t, slot)
    ensures Put(t, slot, data, state, ids, now).Ok?
    ensures
      HistoryOf(Put(t, slot, data, state, ids, now).value, slot)
      == Written(HistoryOf(t, slot), state, ids.version, data)
      <==> SavesOnTop(t, slot, state, ids) && (state.Enabled? || !StoresNull(t, slot))
    ensures
      SlotOk(Put(t, slot, data, state, ids, now).value, slot) <==> state.Enabled? || !StoresNull(t, slot)
  {
    if state.Enabled? || !StoresNull(t, slot) {
      PutKeepsHistoryIff(t, slot, data, state, ids, now);
      PutKeepsInvariant(t, slot, data, state, ids, now);
    } else {
      assert VersionKey(slot, NULL_VERSION_ID) in t.versions;
      assert NULL_VERSION_ID in StoredRows(t, slot);
      PutDoublesNull(t, slot, data, state, ids, now);
    }
  }

  // Both versions called null: the one in objects and the one left stored.
  lemma PutDoublesNull(t: Tables, slot: Slot, data: Data, state: VersioningState, ids: NewIds, now: int)
    requires SlotOk(t, slot) && Later(t, slot, now) && Unused(t.versions, ids.saved)
    requires state.Suspended? && StoresNull(t, slot)
    ensures Put(t, slot, data, state, ids, now).Ok?
    ensures
      var t', h := Put(t, slot, data, state, ids, now).value, HistoryOf(t, slot);
      && HistoryOf(t', slot) != [] && HistoryOf(t', slot)[0] == Version(NULL_VERSION_ID, Contents(data))
      && HasId(HistoryOf(t', slot)[1..], NULL_VERSION_ID)
      && (TopsTies(LiveRow(t, slot), StoredRows(t, slot), ids.saved) ==>
            HistoryOf(t', slot) == [Version(NULL_VERSION_ID, Contents(data))] + h)
      && HistoryOf(t', slot) != Written(h, state, ids.version, data)
      && !SlotOk(t', slot)
  {
    UnusedByKey(t, slot, ids.saved);
    PutLayout(t, slot, data, state, ids, now);
    var live, rows, h := LiveRow(t, slot), StoredRows(t, slot), HistoryOf(t, slot);
    assert NULL_VERSION_ID in rows;
    SupersededRowsOk(live, rows, state, ids.saved, now);
    SupersededOrder(live, rows, state, ids.saved);
    var rows1 := SupersededRows(live, rows, state, ids.saved);
    FindStored(rows1, NULL_VERSION_ID);
    FindWithout(h, NULL_VERSION_ID, NULL_VERSION_ID);
    var t' := Put(t, slot, data, state, ids, now).value;
    assert HistoryOf(t', slot)[1..] == NewestFirst(rows1);
    assert Written(h, state, ids.version, data)[1..] == Without(h, NULL_VERSION_ID);
  }

  // ------------------------------------------------------------- DELETE

  lemma IsStored(t: Tables, slot: Slot, id: string)
    ensures VersionKey(slot, id) in t.versions <==> id in StoredRows(t, slot)
  {
  }

  // The tables on which the marker is inserted.
  function Unmarked(t: Tables, slot: Slot, state: VersioningState, ids: NewIds): Tables {
    match Supersede(t, slot, state, ids)
    case Err(_) => t
    case Ok(t1) =>
      if state.Suspended? then t1.(versions := t1.versions - {VersionKey(slot, NULL_VERSION_ID)}) else t1
  }

  lemma UnmarkedIs(t: Tables, slot: Slot, state: VersioningState, ids: NewIds)
    requires SlotOk(t, slot) && Fresh(t, slot, ids) && state.Configured()
    ensures Supersede(t, slot, state, ids).Ok?
    ensures StoredRows(Unmarked(t, slot, state, ids), slot)
         == Lasting(SupersededRows(LiveRow(t, slot), StoredRows(t, slot), state, ids.saved), state)
    ensures Unused(Unmarked(t, slot, state, ids).versions, ids.added)
  {
    hide StoredRows, NewestFirst, HistoryOf, KeyOk;
    SupersedeLayout(t, slot, state, ids);
    StoredAfterRemove(Supersede(t, slot, state, ids).value, slot, NULL_VERSION_ID, slot);
  }

  lemma MarkerIsNew(t: Tables, slot: Slot, state: VersioningState, ids: NewIds)
    requires SlotOk(t, slot) && Fresh(t, slot, ids) && state.Configured()
    ensures
      MarkerId(state, ids) !in Lasting(SupersededRows(LiveRow(t, slot), StoredRows(t, slot), state, ids.saved), state)
  {
    hide StoredRows, NewestFirst, HistoryOf, KeyOk;
    FindInHistory(t, slot, ids.version);
  }

  lemma DeleteLayout(t: Tables, slot: Slot, state: VersioningState, ids: NewIds, now: int)
    requires SlotOk(t, slot) && Fresh(t, slot, ids) && state.Configured()
    ensures Delete(t, slot, state, ids, now).Ok?
    ensures
      var t' := Delete(t, slot, state, ids, now).value;
      var rows2 := Lasting(SupersededRows(LiveRow(t, slot), StoredRows(t, slot), state, ids.saved), state);
      && LiveRow(t', slot) == None
      && MarkerId(state, ids) !in rows2
      && StoredRows(t', slot) == rows2[MarkerId(state, ids) := VersionRow(DeleteMarker, now, ids.added)]
  {
    hide StoredRows, NewestFirst, HistoryOf, KeyOk, Unused, Supersede, Lasting, SupersededRows;
    var t2 := Unmarked(t, slot, state, ids);
    UnmarkedIs(t, slot, state, ids);
    MarkerIsNew(t, slot, state, ids);
    IsStored(t2, slot, MarkerId(state, ids));
    var marker := VersionRow(DeleteMarker, now, ids.added);
    StoredAfterInsert(t2, slot, MarkerId(state, ids), marker, slot);
    var t3 := t2.(versions := t2.versions[VersionKey(slot, MarkerId(state, ids)) := marker]);
    StoredIgnoresObjects(t3, t3.objects - {slot}, slot);
  }

  // Dropping the stored null row before or after superseding is the same.
  lemma LastingSuperseded(live: Option<ObjectRow>, rows: map<string, VersionRow>, state: VersioningState, saved: RowId)
    requires LiveFits(live, rows)
    ensures Lasting(SupersededRows(live, rows, state, saved), state)
         == SupersededRows(live, Lasting(rows, state), state, saved)
  {
  }

  // The marker goes on top; beneath it the history is what it should be exactly
  // when the saved version outranks the rows it ties with.
  lemma MarkedRows(live: Option<ObjectRow>, rows: map<string, VersionRow>, state: VersioningState,
                   ids: NewIds, now: int)
    requires Ranked(rows) && "" !in rows && LiveFits(live, rows) && AllBefore(rows, now)
    requires live.Some? ==> live.value.updatedAt < now
    requires NotAmong(rows, ids.saved) && NotAmong(rows, ids.added) && ids.saved != ids.added
    requires state.Configured() && ids.version != ""
    requires MarkerId(state, ids) !in Lasting(SupersededRows(live, rows, state, ids.saved), state)
    ensures
      var rows2 := Lasting(SupersededRows(live, rows, state, ids.saved), state);
      var marked := rows2[MarkerId(state, ids) := VersionRow(DeleteMarker, now, ids.added)];
      && KeyOk(None, marked)
      && (NewestFirst(marked) == Deleted(LivePart(live) + NewestFirst(rows), state, ids.version)
          <==> (Saves(live, state) ==> TopsTies(live, Lasting(rows, state), ids.saved)))
  {
    var before, rows2 := Lasting(rows, state), Lasting(SupersededRows(live, rows, state, ids.saved), state);
    var marker := Version(MarkerId(state, ids), DeleteMarker);
    LastingSuperseded(live, rows, state, ids.saved);
    SupersededRowsOk(live, before, state, ids.saved, now);
    SupersededOrder(live, before, state, ids.saved);
    MarkedRowsOk(rows2, MarkerId(state, ids), ids.added, now);
    if state.Suspended? {
      WithoutNull(live, rows);
    } else if live.None? {
      assert LivePart(live) + NewestFirst(rows) == NewestFirst(rows);
    }
    var kept := (if Saves(live, state) then LivePart(live) else []) + NewestFirst(before);
    hide NewestFirst;
    assert Deleted(LivePart(live) + NewestFirst(rows), state, ids.version) == [marker] + kept;
    assert ([marker] + NewestFirst(rows2))[1..] == NewestFirst(rows2) && ([marker] + kept)[1..] == kept;
  }

  lemma MarkedRowsOk(rows: map<string, VersionRow>, id: string, added: RowId, now: int)
    requires Ranked(rows) && "" !in rows && AllBefore(rows, now) && id !in rows && id != "" && NotAmong(rows, added)
    ensures
      var marked := rows[id := VersionRow(DeleteMarker, now, added)];
      && KeyOk(None, marked)
      && NewestFirst(marked) == [Version(id, DeleteMarker)] + NewestFirst(rows)
  {
    NewestFirstPush(rows, id, VersionRow(DeleteMarker, now, added));
    assert IsNewest(rows[id := VersionRow(DeleteMarker, now, added)], id);
  }

  // DELETE acts on the history as S3 says exactly when the version it saves
  // outranks the rows it ties with.
  lemma DeleteRefines(t: Tables, slot: Slot, state: VersioningState, ids: NewIds, now: int)
    requires SlotOk(t, slot) && Later(t, slot, now) && Fresh(t, slot, ids)
    requires state.Unversioned? ==> NeverVersioned(t, slot)
    ensures Delete(t, slot, state, ids, now).Ok?
    ensures
      HistoryOf(Delete(t, slot, state, ids, now).value, slot) == Deleted(HistoryOf(t, slot), state, ids.version)
      <==> SavesOnTop(t, slot, state, ids)
    ensures SlotOk(Delete(t, slot, state, ids, now).value, slot)
  {
    hide StoredRows, NewestFirst, Delete, Unused;
    if state.Unversioned? {
      DeleteUnversioned(t, slot, ids, now);
    } else {
      UnusedByKey(t, slot, ids.saved);
      UnusedByKey(t, slot, ids.added);
      DeleteLayout(t, slot, state, ids, now);
      MarkedRows(LiveRow(t, slot), StoredRows(t, slot), state, ids, now);
    }
  }

  lemma DeleteUnversioned(t: Tables, slot: Slot, ids: NewIds, now: int)
    requires NeverVersioned(t, slot)
    ensures Delete(t, slot, Unversioned, ids, now).Ok?
    ensures
      var t' := Delete(t, slot, Unversioned, ids, now).value;
      SlotOk(t', slot) && HistoryOf(t', slot) == Deleted(HistoryOf(t, slot), Unversioned, ids.version)
  {
    StoredIgnoresObjects(t, t.objects - {slot}, slot);
    assert NewestFirst(map[]) == [];
    assert HistoryOf(t, slot) == LivePart(LiveRow(t, slot));
    assert Without(LivePart(LiveRow(t, slot)), NULL_VERSION_ID) == [];
  }

  // ----------------------------------------------- deleting one version

  lemma PromoteLayout(t: Tables, slot: Slot, now: int, id: string)
    requires slot !in t.objects && IsNewest(StoredRows(t, slot), id)
    ensures
      var t', rows := Promote(t, slot, now), StoredRows(t, slot);
      match rows[id].body
      case DeleteMarker => t' == t
      case Contents(data) =>
        LiveRow(t', slot) == Some(ObjectRow(data, InternalId(id), now)) && StoredRows(t', slot) == rows - {id}
  {
    var rows := StoredRows(t, slot);
    if rows[id].body.Contents? {
      var moved := t.(objects := t.objects[slot := ObjectRow(rows[id].body.data, InternalId(id), now)]);
      StoredIgnoresObjects(t, moved.objects, slot);
      StoredAfterRemove(moved, slot, id, slot);
      assert Promote(t, slot, now) == moved.(versions := moved.versions - {VersionKey(slot, id)});
    }
  }

  lemma PromotedRowsOk(rows: map<string, VersionRow>, id: string, now: int)
    requires IsNewest(rows, id) && Ranked(rows) && "" !in rows && AllBefore(rows, now)
    ensures rows[id].body.DeleteMarker? ==> KeyOk(None, rows)
    ensures rows[id].body.Contents? ==>
      var live := Some(ObjectRow(rows[id].body.data, InternalId(id), now));
      KeyOk(live, rows - {id}) && LivePart(live) + NewestFirst(rows - {id}) == NewestFirst(rows)
  {
    NewestFirstCons(rows, id);
  }

  // Promotion moves the newest stored version without changing the history.
  lemma PromoteKeepsHistory(t: Tables, slot: Slot, now: int)
    requires slot !in t.objects && AllBefore(StoredRows(t, slot), now)
    requires Ranked(StoredRows(t, slot)) && "" !in StoredRows(t, slot)
    ensures SlotOk(Promote(t, slot, now), slot)
    ensures HistoryOf(Promote(t, slot, now), slot) == NewestFirst(StoredRows(t, slot))
  {
    hide StoredRows, NewestFirst;
    var rows := StoredRows(t, slot);
    if id :| IsNewest(rows, id) {
      PromotedRowsOk(rows, id, now);
      PromoteLayout(t, slot, now, id);
    }
  }

  // Deleting the version in objects, which the next newest then replaces.
  lemma DeleteCurrentRefines(t: Tables, slot: Slot, id: string, now: int)
    requires SlotOk(t, slot) && Later(t, slot, now) && slot in t.objects && ExternalId(t.objects[slot].versionId) == id
    ensures
      var t' := Promote(t.(objects := t.objects - {slot}), slot, now);
      && HasId(HistoryOf(t, slot), id)
      && HistoryOf(t', slot) == Without(HistoryOf(t, slot), id) && SlotOk(t', slot)
  {
    hide NewestFirst, StoredRows;
    var live, rows := LiveRow(t, slot), StoredRows(t, slot);
    var t1 := t.(objects := t.objects - {slot});
    FindInHistory(t, slot, id);
    WithoutConcat(LivePart(live), NewestFirst(rows), id);
    StoredIgnoresObjects(t, t1.objects, slot);
    PromoteKeepsHistory(t1, slot, now);
    FindStored(rows, id);
    WithoutAbsent(NewestFirst(rows), id);
  }

  // Deleting a stored version, promoting only where there is no current one.
  lemma DeleteStoredRefines(t: Tables, slot: Slot, id: string, now: int)
    requires SlotOk(t, slot) && Later(t, slot, now) && VersionKey(slot, id) in t.versions
    requires slot in t.objects ==> ExternalId(t.objects[slot].versionId) != id
    ensures
      var t1 := t.(versions := t.versions - {VersionKey(slot, id)});
      var t' := if slot in t.objects then t1 else Promote(t1, slot, now);
      && HasId(HistoryOf(t, slot), id)
      && HistoryOf(t', slot) == Without(HistoryOf(t, slot), id) && SlotOk(t', slot)
  {
    var live, rows := LiveRow(t, slot), StoredRows(t, slot);
    assert id in rows;
    hide NewestFirst, StoredRows;
    var t1 := t.(versions := t.versions - {VersionKey(slot, id)});
    FindInHistory(t, slot, id);
    WithoutConcat(LivePart(live), NewestFirst(rows), id);
    StoredAfterRemove(t, slot, id, slot);
    NewestFirstRemove(rows, id);
    if slot !in t.objects {
      PromoteKeepsHistory(t1, slot, now);
    }
  }

  lemma DeleteVersionRefines(t: Tables, slot: Slot, versionId: string, now: int)
    requires SlotOk(t, slot) && Later(t, slot, now)
    ensures
      var h, id := HistoryOf(t, slot), ExternalId(versionId);
      match DeleteVersion(t, slot, versionId, now)
      case Err(e) => e == VersionNotFound && !HasId(h, id)
      case Ok(t') => HasId(h, id) && HistoryOf(t', slot) == Without(h, id) && SlotOk(t', slot)
  {
    var id := ExternalId(versionId);
    FindInHistory(t, slot, id);
    assert VersionKey(slot, id) in t.versions <==> id in StoredRows(t, slot);
    hide NewestFirst, StoredRows, Promote, HistoryOf, SlotOk;
    if slot in t.objects && t.objects[slot].versionId == InternalId(versionId) {
      DeleteCurrentRefines(t, slot, id, now);
    } else if VersionKey(slot, id) in t.versions {
      DeleteStoredRefines(t, slot, id, now);
    }
  }

  // ------------------------------------------------------------- restore

  function KeptId(live: Option<ObjectRow>): string {
    if live.Some? then live.value.versionId else ""
  }

  lemma RestoreLayout(t: Tables, slot: Slot, versionId: string, ids: NewIds, now: int)
    requires Insertable(t.versions, VersionKey(slot, ids.version), ids.added)
    ensures
      var live, rows := LiveRow(t, slot), StoredRows(t, slot);
      match Restore(t, slot, versionId, ids, now)
      case Err(e) => e == VersionNotFound && (versionId in rows ==> rows[versionId].body.DeleteMarker?)
      case Ok(t') =>
        && versionId in rows && rows[versionId].body.Contents?
        && LiveRow(t', slot) == Some(ObjectRow(rows[versionId].body.data, KeptId(live), now))
        && StoredRows(t', slot) == rows[ids.version := VersionRow(rows[versionId].body, now, ids.added)]
  {
    var k := VersionKey(slot, versionId);
    assert k in t.versions <==> versionId in StoredRows(t, slot);
    if k in t.versions && t.versions[k].body.Contents? {
      var data := t.versions[k].body.data;
      var liveId := if slot in t.objects then t.objects[slot].versionId else "";
      var t1 := t.(objects := t.objects[slot := ObjectRow(data, liveId, now)]);
      StoredIgnoresObjects(t, t1.objects, slot);
      StoredAfterInsert(t1, slot, ids.version, VersionRow(Contents(data), now, ids.added), slot);
    }
  }

  // The versions beneath the current one are the stored rows.
  lemma StoredIsStored(live: Option<ObjectRow>, rows: map<string, VersionRow>)
    requires KeyOk(live, rows)
    ensures Stored(LivePart(live) + NewestFirst(rows)) == NewestFirst(rows)
    ensures live.None? <==> Stored(LivePart(live) + NewestFirst(rows)) == LivePart(live) + NewestFirst(rows)
  {
    if live.None? {
      assert LivePart(live) + NewestFirst(rows) == NewestFirst(rows);
      if rows != map[] {
        NewestExists(rows);
      }
    } else {
      assert (LivePart(live) + NewestFirst(rows))[1..] == NewestFirst(rows);
    }
  }

  lemma RestoredIs(live: Option<ObjectRow>, rows: map<string, VersionRow>, versionId: string, newId: string)
    requires KeyOk(live, rows) && versionId in rows && rows[versionId].body.Contents?
    ensures Restored(LivePart(live) + NewestFirst(rows), versionId, newId)
         == [Version(ExternalId(KeptId(live)), rows[versionId].body), Version(newId, rows[versionId].body)]
              + NewestFirst(rows)
  {
    StoredIsStored(live, rows);
    FindStored(rows, versionId);
    hide NewestFirst, KeyOk;
    assert live.Some? ==> (LivePart(live) + NewestFirst(rows))[0].id == ExternalId(live.value.versionId);
  }

  lemma RestoredRows(live: Option<ObjectRow>, rows: map<string, VersionRow>, versionId: string, ids: NewIds, now: int)
    requires KeyOk(live, rows) && AllBefore(rows, now) && NotAmong(rows, ids.added)
    requires ids.version != "" && ids.version != NULL_VERSION_ID && ids.version !in rows
    requires live.Some? ==> ExternalId(live.value.versionId) != ids.version
    requires versionId in rows && rows[versionId].body.Contents?
    ensures
      var live1 := Some(ObjectRow(rows[versionId].body.data, KeptId(live), now));
      var rows1 := rows[ids.version := VersionRow(rows[versionId].body, now, ids.added)];
      && LivePart(live1) + NewestFirst(rows1) == Restored(LivePart(live) + NewestFirst(rows), versionId, ids.version)
      && (KeyOk(live1, rows1) <==> live.Some? || NULL_VERSION_ID !in rows)
  {
    hide NewestFirst, Restored, IsNewest;
    RestoredIs(live, rows, versionId, ids.version);
    NewestFirstPush(rows, ids.version, VersionRow(rows[versionId].body, now, ids.added));
    var live1 := Some(ObjectRow(rows[versionId].body.data, KeptId(live), now));
    assert LivePart(live1) == [Version(ExternalId(KeptId(live)), rows[versionId].body)];
  }

  // A restore rewrites the current version, which keeps its id, and records the
  // same contents as one more version beneath it. Without a current version the
  // contents become the null version.
  lemma RestoreRefines(t: Tables, slot: Slot, versionId: string, ids: NewIds, now: int)
    requires SlotOk(t, slot) && Later(t, slot, now) && Fresh(t, slot, ids)
    ensures match Restore(t, slot, versionId, ids, now)
      case Err(e) => e == VersionNotFound && Restored(HistoryOf(t, slot), versionId, ids.version) == HistoryOf(t, slot)
      case Ok(t') =>
        && HistoryOf(t', slot) == Restored(HistoryOf(t, slot), versionId, ids.version)
        && (SlotOk(t', slot) <==> slot in t.objects || !StoresNull(t, slot))
  {
    var live, rows := LiveRow(t, slot), StoredRows(t, slot);
    FindInHistory(t, slot, ids.version);
    assert VersionKey(slot, ids.version) in t.versions <==> ids.version in rows;
    hide NewestFirst, StoredRows, Restore, Unused, StoresNull, KeyOk, Restored;
    UnusedByKey(t, slot, ids.added);
    NullIsStored(t, slot, Suspended);
    RestoreLayout(t, slot, versionId, ids, now);
    if Restore(t, slot, versionId, ids, now).Ok? {
      RestoredRows(live, rows, versionId, ids, now);
    } else {
      NothingRestored(live, rows, versionId, ids.version);
    }
  }

  lemma NothingRestored(live: Option<ObjectRow>, rows: map<string, VersionRow>, versionId: string, newId: string)
    requires KeyOk(live, rows) && (versionId in rows ==> rows[versionId].body.DeleteMarker?)
    ensures Restored(LivePart(live) + NewestFirst(rows), versionId, newId) == LivePart(live) + NewestFirst(rows)
  {
    StoredIsStored(live, rows);
    FindStored(rows, versionId);
  }

  // ---------------------------------------------------------------- ties

  // No stored row is as recent as the live one: so it is until a restore.
  ghost predicate Untied(t: Tables, slot: Slot) {
    slot in t.objects ==> AllBefore(StoredRows(t, slot), t.objects[slot].updatedAt)
  }

  lemma UntiedSavesOnTop(t: Tables, slot: Slot, state: VersioningState, ids: NewIds)
    requires Untied(t, slot)
    ensures SavesOnTop(t, slot, state, ids)
  {
    hide StoredRows;
  }

  lemma PutUnties(t: Tables, slot: Slot, data: Data, state: VersioningState, ids: NewIds, now: int)
    requires SlotOk(t, slot) && Later(t, slot, now) && Unused(t.versions, ids.saved)
    ensures Put(t, slot, data, state, ids, now).Ok? && Untied(Put(t, slot, data, state, ids, now).value, slot)
  {
    hide StoredRows, Put, Unused;
    PutLayout(t, slot, data, state, ids, now);
  }

  lemma PromoteUnties(t: Tables, slot: Slot, now: int)
    requires slot !in t.objects && AllBefore(StoredRows(t, slot), now)
    ensures Untied(Promote(t, slot, now), slot)
  {
    hide StoredRows;
    if id :| IsNewest(StoredRows(t, slot), id) {
      PromoteLayout(t, slot, now, id);
    }
  }

  lemma DeleteVersionUnties(t: Tables, slot: Slot, versionId: string, now: int)
    requires Later(t, slot, now) && Untied(t, slot)
    ensures DeleteVersion(t, slot, versionId, now).Ok? ==>
      Untied(DeleteVersion(t, slot, versionId, now).value, slot)
  {
    hide StoredRows, Promote;
    var t0 := t.(objects := t.objects - {slot});
    StoredIgnoresObjects(t, t0.objects, slot);
    PromoteUnties(t0, slot, now);
    var id := ExternalId(InternalId(versionId));
    var t1 := t.(versions := t.versions - {VersionKey(slot, id)});
    StoredAfterRemove(t, slot, id, slot);
    if slot !in t.objects {
      PromoteUnties(t1, slot, now);
    }
  }
}
