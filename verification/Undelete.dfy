// DELETE on an enabled bucket and then deletion of the marker it left: what that
// pair gives back, and when it does not.
module Undelete {
  import opened Outcomes
  import opened VersionHistory
  import opened StoreTables
  import opened StoreRefinement
  import opened StoreRuns

  // The state with the live row's updated_at moved to now.
  function Touched(t: Tables, slot: Slot, now: int): Tables {
    if slot in t.objects then t.(objects := t.objects[slot := t.objects[slot].(updatedAt := now)]) else t
  }

  function SavedRow(live: ObjectRow, saved: RowId): VersionRow {
    VersionRow(Contents(live.data), live.updatedAt, saved)
  }

  // A deleted live row, saved among the stored versions.
  function Saved(t: Tables, slot: Slot, saved: RowId): Tables {
    if slot !in t.objects then t else
    var live := t.objects[slot];
    t.(objects := t.objects - {slot},
       versions := t.versions[VersionKey(slot, ExternalId(live.versionId)) := SavedRow(live, saved)])
  }

  function WithRow(t: Tables, k: VersionKey, row: VersionRow): Tables {
    t.(versions := t.versions[k := row])
  }

  lemma DeleteEnabled(t: Tables, slot: Slot, ids: NewIds, now: int)
    requires Delete(t, slot, Enabled, ids, now).Ok?
    ensures
      var k, base := VersionKey(slot, ids.version), Saved(t, slot, ids.saved);
      && k !in base.versions && slot !in base.objects
      && Delete(t, slot, Enabled, ids, now) == Ok(WithRow(base, k, VersionRow(DeleteMarker, now, ids.added)))
    ensures slot in t.objects ==> VersionKey(slot, ExternalId(t.objects[slot].versionId)) !in t.versions
  {
    if slot !in t.objects {
      assert t.objects - {slot} == t.objects;
    }
  }

  lemma PutBack<K, V>(m: map<K, V>, k: K, v: V)
    ensures k !in m ==> m[k := v] - {k} == m
    ensures (m - {k})[k := v] == m[k := v]
  {
  }

  lemma DeleteMarkerRow(t: Tables, slot: Slot, marker: string, row: VersionRow, now: int)
    requires slot !in t.objects && VersionKey(slot, marker) !in t.versions && marker != "" && marker != NULL_VERSION_ID
    ensures DeleteVersion(WithRow(t, VersionKey(slot, marker), row), slot, marker, now) == Ok(Promote(t, slot, now))
  {
    hide Promote;
    PutBack(t.versions, VersionKey(slot, marker), row);
  }

  // The pair comes to saving the live row and promoting the newest.
  lemma UndeletePromotes(t: Tables, slot: Slot, ids: NewIds, deletedAt: int, undeletedAt: int)
    requires Delete(t, slot, Enabled, ids, deletedAt).Ok? && ids.version != "" && ids.version != NULL_VERSION_ID
    ensures DeleteVersion(Delete(t, slot, Enabled, ids, deletedAt).value, slot, ids.version, undeletedAt)
         == Ok(Promote(Saved(t, slot, ids.saved), slot, undeletedAt))
  {
    hide Promote, Delete, DeleteVersion, Saved;
    DeleteEnabled(t, slot, ids, deletedAt);
    DeleteMarkerRow(Saved(t, slot, ids.saved), slot, ids.version, VersionRow(DeleteMarker, deletedAt, ids.added),
        undeletedAt);
  }

  // Every stored row comes before the live one, were it saved under that row id;
  // or, without a live row, there is nothing to bring back.
  ghost predicate ComesBack(t: Tables, slot: Slot, saved: RowId) {
    var rows := StoredRows(t, slot);
    if slot in t.objects then forall id :: id in rows ==> rows[id].Before(SavedRow(t.objects[slot], saved))
    else forall id :: IsNewest(rows, id) ==> rows[id].body.DeleteMarker?
  }

  // The null version is spelled one way in each table.
  ghost predicate WellKept(t: Tables, slot: Slot) {
    && "" !in StoredRows(t, slot)
    && (slot in t.objects ==> t.objects[slot].versionId != NULL_VERSION_ID)
  }

  lemma SavedRows(t: Tables, slot: Slot, saved: RowId)
    requires slot in t.objects
    ensures
      var id := ExternalId(t.objects[slot].versionId);
      StoredRows(Saved(t, slot, saved), slot) == StoredRows(t, slot)[id := SavedRow(t.objects[slot], saved)]
  {
    var live := t.objects[slot];
    var id, row := ExternalId(live.versionId), SavedRow(live, saved);
    StoredAfterInsert(t, slot, id, row, slot);
    StoredIgnoresObjects(WithRow(t, VersionKey(slot, id), row), t.objects - {slot}, slot);
  }

  lemma SavedIsNewestIff(rows: map<string, VersionRow>, id: string, row: VersionRow)
    requires id !in rows
    ensures IsNewest(rows[id := row], id) <==> forall other :: other in rows ==> rows[other].Before(row)
  {
    assert forall other :: other in rows ==> rows[id := row][other] == rows[other];
  }

  lemma PromoteSaved(t: Tables, slot: Slot, saved: RowId, now: int)
    requires slot in t.objects && WellKept(t, slot) && ComesBack(t, slot, saved)
    requires VersionKey(slot, ExternalId(t.objects[slot].versionId)) !in t.versions
    ensures Promote(Saved(t, slot, saved), slot, now) == Touched(t, slot, now)
  {
    var live := t.objects[slot];
    var id, row := ExternalId(live.versionId), SavedRow(live, saved);
    assert id !in StoredRows(t, slot);
    hide StoredRows, Promote, IsNewest;
    SavedRows(t, slot, saved);
    SavedIsNewestIff(StoredRows(t, slot), id, row);
    PromoteIs(Saved(t, slot, saved), slot, now, id);
    PutBack(t.versions, VersionKey(slot, id), row);
    PutBack(t.objects, slot, ObjectRow(live.data, live.versionId, now));
  }

  lemma PromoteIs(t: Tables, slot: Slot, now: int, id: string)
    requires IsNewest(StoredRows(t, slot), id) && StoredRows(t, slot)[id].body.Contents?
    ensures Promote(t, slot, now) ==
      t.(objects := t.objects[slot := ObjectRow(StoredRows(t, slot)[id].body.data, InternalId(id), now)],
         versions := t.versions - {VersionKey(slot, id)})
  {
    hide StoredRows;
  }

  // Otherwise another version comes back, or none.
  lemma PromoteOther(t: Tables, slot: Slot, saved: RowId, now: int)
    requires slot in t.objects && WellKept(t, slot) && !ComesBack(t, slot, saved)
    requires VersionKey(slot, ExternalId(t.objects[slot].versionId)) !in t.versions
    ensures
      var t' := Promote(Saved(t, slot, saved), slot, now);
      slot in t'.objects ==> t'.objects[slot].versionId != t.objects[slot].versionId
  {
    var live, rows := t.objects[slot], StoredRows(t, slot);
    var id := ExternalId(live.versionId);
    assert id !in rows;
    hide StoredRows, Promote, IsNewest;
    SavedRows(t, slot, saved);
    SavedIsNewestIff(rows, id, SavedRow(live, saved));
    PromotesNewest(Saved(t, slot, saved), slot, now);
  }

  lemma PromotesNewest(t: Tables, slot: Slot, now: int)
    requires slot !in t.objects
    ensures
      var t', rows := Promote(t, slot, now), StoredRows(t, slot);
      slot in t'.objects ==> exists id :: IsNewest(rows, id) && t'.objects[slot].versionId == InternalId(id)
  {
    hide StoredRows, IsNewest;
  }

  lemma PromoteNothingIff(t: Tables, slot: Slot, now: int)
    requires slot !in t.objects
    ensures Promote(t, slot, now) == t <==> forall id :: IsNewest(StoredRows(t, slot), id) ==>
      StoredRows(t, slot)[id].body.DeleteMarker?
  {
    hide StoredRows;
    if id :| IsNewest(StoredRows(t, slot), id) && StoredRows(t, slot)[id].body.Contents? {
      PromoteIs(t, slot, now, id);
    }
  }

  // Deleting a key on an enabled bucket and then deleting the marker restores
  // every table exactly, except that the live row's updated_at is the time of the
  // undelete, if and only if the saved row comes after every stored one. If not,
  // the key comes back under another version id, or not at all. This is so of any
  // tables on which the delete succeeds.
  lemma UndeleteIff(t: Tables, slot: Slot, ids: NewIds, deletedAt: int, undeletedAt: int)
    requires Delete(t, slot, Enabled, ids, deletedAt).Ok? && WellKept(t, slot)
    requires ids.version != "" && ids.version != NULL_VERSION_ID
    ensures
      var undeleted := DeleteVersion(Delete(t, slot, Enabled, ids, deletedAt).value, slot, ids.version, undeletedAt);
      && undeleted.Ok?
      && (undeleted.value == Touched(t, slot, undeletedAt) <==> ComesBack(t, slot, ids.saved))
      && (slot in t.objects ==>
            (slot in undeleted.value.objects && undeleted.value.objects[slot].versionId == t.objects[slot].versionId
             <==> ComesBack(t, slot, ids.saved)))
  {
    hide Delete, DeleteVersion, Promote, StoredRows, ComesBack;
    DeleteEnabled(t, slot, ids, deletedAt);
    UndeletePromotes(t, slot, ids, deletedAt, undeletedAt);
    if slot !in t.objects {
      NothingComesBack(t, slot, ids.saved, undeletedAt);
    } else if ComesBack(t, slot, ids.saved) {
      PromoteSaved(t, slot, ids.saved, undeletedAt);
    } else {
      PromoteOther(t, slot, ids.saved, undeletedAt);
    }
  }

  lemma NothingComesBack(t: Tables, slot: Slot, saved: RowId, now: int)
    requires slot !in t.objects
    ensures Promote(t, slot, now) == t <==> ComesBack(t, slot, saved)
  {
    hide Promote, StoredRows;
    PromoteNothingIff(t, slot, now);
  }

  // In the states the run theorems speak of it is a question of ties alone, which
  // without a restore there are none.
  lemma UndeleteIsIdentity(t: Tables, slot: Slot, ids: NewIds, deletedAt: int, undeletedAt: int)
    requires SlotOk(t, slot) && Fresh(t, slot, ids)
    ensures Delete(t, slot, Enabled, ids, deletedAt).Ok?
    ensures
      DeleteVersion(Delete(t, slot, Enabled, ids, deletedAt).value, slot, ids.version, undeletedAt)
      == Ok(Touched(t, slot, undeletedAt))
      <==> SavesOnTop(t, slot, Enabled, ids)
    ensures Untied(t, slot) ==> SavesOnTop(t, slot, Enabled, ids)
  {
    UntiedMeansOnTop(t, slot, ids);
    hide Delete, DeleteVersion, StoredRows, IsNewest, Promote, Fresh;
    DeleteLayout(t, slot, Enabled, ids, deletedAt);
    UndeleteIff(t, slot, ids, deletedAt, undeletedAt);
  }

  lemma UntiedMeansOnTop(t: Tables, slot: Slot, ids: NewIds)
    requires Fresh(t, slot, ids)
    ensures Untied(t, slot) ==> SavesOnTop(t, slot, Enabled, ids)
    ensures ids.version != "" && ids.version != NULL_VERSION_ID
  {
    hide StoredRows;
    if Untied(t, slot) {
      UntiedSavesOnTop(t, slot, Enabled, ids);
    }
  }

  // So the history and every reference count are what they were.
  lemma UndeleteRestoresHistory(t: Tables, slot: Slot, undeletedAt: int)
    ensures HistoryOf(Touched(t, slot, undeletedAt), slot) == HistoryOf(t, slot)
  {
    StoredIgnoresObjects(t, Touched(t, slot, undeletedAt).objects, slot);
    hide StoredRows, NewestFirst;
  }
}
