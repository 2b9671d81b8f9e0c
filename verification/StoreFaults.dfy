// Where the store breaks its promises: writes that a unique constraint refuses,
// restores that rebind an id, and a delete that is not undone.
module StoreFaults {
  import opened Outcomes
  import opened VersionHistory
  import opened StoreTables
  import opened StoreRefinement
  import opened StoreRuns
  import opened Undelete

  // ------------------------------------------------------ refused writes

  // The current version's id is stored already.
  predicate StoredTwice(t: Tables, slot: Slot) {
    slot in t.objects && VersionKey(slot, ExternalId(t.objects[slot].versionId)) in t.versions
  }

  // With new row ids, writes on an enabled bucket fail exactly when the current
  // version's id is stored already or, for a DELETE, the marker's is or becomes so.
  lemma EnabledWriteFailsIff(t: Tables, slot: Slot, data: Data, ids: NewIds, now: int)
    requires Unused(t.versions, ids.saved) && Unused(t.versions, ids.added) && ids.saved != ids.added
    ensures Put(t, slot, data, Enabled, ids, now).Err? <==> StoredTwice(t, slot)
    ensures Delete(t, slot, Enabled, ids, now).Err? <==>
      || StoredTwice(t, slot)
      || VersionKey(slot, ids.version) in t.versions
      || (slot in t.objects && ExternalId(t.objects[slot].versionId) == ids.version)
    ensures Put(t, slot, data, Enabled, ids, now).Err? ==>
      Put(t, slot, data, Enabled, ids, now).error == UniqueViolation
    ensures Delete(t, slot, Enabled, ids, now).Err? ==> Delete(t, slot, Enabled, ids, now).error == UniqueViolation
  {
  }

  // Two null versions of one key block the key: every later write on the bucket,
  // once enabled, tries to store a second row under "null".
  lemma NullCollision(t: Tables, slot: Slot, data: Data, ids: NewIds, now: int)
    requires slot in t.objects && t.objects[slot].versionId == "" && StoresNull(t, slot)
    ensures Put(t, slot, data, Enabled, ids, now) == Err(UniqueViolation)
    ensures Delete(t, slot, Enabled, ids, now) == Err(UniqueViolation)
  {
    assert ExternalId("") == NULL_VERSION_ID;
  }

  // PUT, DELETE, PUT on a suspended bucket is enough to get there.
  lemma CollisionIsReachable(slot: Slot, data: Data)
    ensures WorldOk(EMPTY)
    ensures
      var w := Run(EMPTY, [SetVersioningOp(slot.bucket, Suspended)] + ([PutOp(slot, data, NewIds("a", 0, 1), 1)]
                           + ([DeleteOp(slot, NewIds("b", 2, 3), 2)] + ([PutOp(slot, data, NewIds("c", 4, 5), 3)]
                           + ([SetVersioningOp(slot.bucket, Enabled)] + [])))));
      w.StateOf(slot.bucket) == Enabled
      && Outcome(w, PutOp(slot, data, NewIds("d", 6, 7), 4)) == Err(UniqueViolation)
  {
    var state := map[slot.bucket := Suspended];
    var marked := map[VersionKey(slot, NULL_VERSION_ID) := VersionRow(DeleteMarker, 2, 3)];
    var w1 := World(EMPTY.tables, state);
    var w2 := World(Tables(map[slot := ObjectRow(data, "", 1)], map[], map[], map[]), state);
    var w3 := World(Tables(map[], marked, map[], map[]), state);
    var w4 := World(Tables(map[slot := ObjectRow(data, "", 3)], marked, map[], map[]), state);
    var w5 := World(w4.tables, state[slot.bucket := Enabled]);
    var last := [SetVersioningOp(slot.bucket, Enabled)] + [];
    var put, delete := PutOp(slot, data, NewIds("c", 4, 5), 3), DeleteOp(slot, NewIds("b", 2, 3), 2);
    var first := PutOp(slot, data, NewIds("a", 0, 1), 1);
    EmptyIsFine();
    hide Run;
    RunCons(w4, SetVersioningOp(slot.bucket, Enabled), []);
    RunCons(w3, put, last);
    RunCons(w2, delete, [put] + last);
    RunCons(w1, first, [delete] + ([put] + last));
    RunCons(EMPTY, SetVersioningOp(slot.bucket, Suspended), [first] + ([delete] + ([put] + last)));
    RunNothing(w5);
    TraceSteps(slot, data);
    NullCollision(w5.tables, slot, data, NewIds("d", 6, 7), 4);
  }

  lemma TraceSteps(slot: Slot, data: Data)
    ensures
      var state := map[slot.bucket := Suspended];
      var marked := map[VersionKey(slot, NULL_VERSION_ID) := VersionRow(DeleteMarker, 2, 3)];
      var w1 := World(EMPTY.tables, state);
      var w2 := World(Tables(map[slot := ObjectRow(data, "", 1)], map[], map[], map[]), state);
      var w3 := World(Tables(map[], marked, map[], map[]), state);
      var w4 := World(Tables(map[slot := ObjectRow(data, "", 3)], marked, map[], map[]), state);
      && Step(EMPTY, SetVersioningOp(slot.bucket, Suspended)) == w1
      && Step(w1, PutOp(slot, data, NewIds("a", 0, 1), 1)) == w2
      && Step(w2, DeleteOp(slot, NewIds("b", 2, 3), 2)) == w3
      && Step(w3, PutOp(slot, data, NewIds("c", 4, 5), 3)) == w4
      && Step(w4, SetVersioningOp(slot.bucket, Enabled)) == World(w4.tables, state[slot.bucket := Enabled])
  {
  }

  // ---------------------------------------------------------------- restore

  // The id that a restore writes over: the current version's, or null.
  function OverwrittenId(t: Tables, slot: Slot): string {
    if slot in t.objects then ExternalId(t.objects[slot].versionId) else NULL_VERSION_ID
  }

  // A restore overwrites the live row's contents under the id it already had, so
  // ids keep their contents exactly when that row held the restored data anyway,
  // or there was none and no other null version answers to the new row's id. The
  // key may have been restored before.
  lemma RestoreKeepsIds(t: Tables, slot: Slot, versionId: string, ids: NewIds, now: int)
    requires slot in t.objects ==>
      && t.objects[slot].versionId != NULL_VERSION_ID && OverwrittenId(t, slot) != ids.version
      && VersionKey(slot, OverwrittenId(t, slot)) !in t.versions
    requires ids.version != "" && ids.version != NULL_VERSION_ID
    requires Insertable(t.versions, VersionKey(slot, ids.version), ids.added)
    requires VersionKey(slot, versionId) in t.versions && t.versions[VersionKey(slot, versionId)].body.Contents?
    ensures Restore(t, slot, versionId, ids, now).Ok?
    ensures
      var t' := Restore(t, slot, versionId, ids, now).value;
      var restored := t.versions[VersionKey(slot, versionId)].body.data;
      (forall id :: GetVersion(t, slot, id) != Err(VersionNotFound) ==>
         GetVersion(t', slot, id) == GetVersion(t, slot, id))
      <==>
      (slot in t.objects && t.objects[slot].data == restored)
      || (slot !in t.objects
          && (StoresNull(t, slot) ==> t.versions[VersionKey(slot, NULL_VERSION_ID)].body == Contents(restored)))
  {
    forall id
      ensures
        var t' := Restore(t, slot, versionId, ids, now).value;
        if ExternalId(id) == OverwrittenId(t, slot) then
          GetVersion(t', slot, id) == Ok(t.versions[VersionKey(slot, versionId)].body.data)
          && GetVersion(t, slot, id) == GetVersion(t, slot, OverwrittenId(t, slot))
        else GetVersion(t, slot, id) != Err(VersionNotFound) ==> GetVersion(t', slot, id) == GetVersion(t, slot, id)
    {
      ReadAfterRestore(t, slot, versionId, ids, now, id);
    }
    assert slot !in t.objects ==> (StoresNull(t, slot) <==>
      GetVersion(t, slot, OverwrittenId(t, slot)) != Err(VersionNotFound));
    assert ExternalId(OverwrittenId(t, slot)) == OverwrittenId(t, slot);
    hide Restore;
  }

  lemma ReadAfterRestore(t: Tables, slot: Slot, versionId: string, ids: NewIds, now: int, id: string)
    requires slot in t.objects ==> t.objects[slot].versionId != NULL_VERSION_ID && OverwrittenId(t, slot) != ids.version
    requires ids.version != "" && ids.version != NULL_VERSION_ID
    requires Insertable(t.versions, VersionKey(slot, ids.version), ids.added)
    requires VersionKey(slot, versionId) in t.versions && t.versions[VersionKey(slot, versionId)].body.Contents?
    ensures Restore(t, slot, versionId, ids, now).Ok?
    ensures
      var t' := Restore(t, slot, versionId, ids, now).value;
      if ExternalId(id) == OverwrittenId(t, slot) then
        GetVersion(t', slot, id) == Ok(t.versions[VersionKey(slot, versionId)].body.data)
        && GetVersion(t, slot, id) == GetVersion(t, slot, OverwrittenId(t, slot))
      else GetVersion(t, slot, id) != Err(VersionNotFound) ==> GetVersion(t', slot, id) == GetVersion(t, slot, id)
  {
  }

  // Two versions of a key on an enabled bucket.
  function TwoVersions(slot: Slot, older: Data, newer: Data): seq<Op> {
    [SetVersioningOp(slot.bucket, Enabled)]
      + ([PutOp(slot, older, NewIds("v1", 0, 1), 1)] + ([PutOp(slot, newer, NewIds("v2", 2, 3), 2)] + []))
  }

  function AfterTwo(slot: Slot, older: Data, newer: Data): World {
    World(Tables(map[slot := ObjectRow(newer, "v2", 2)],
                 map[VersionKey(slot, "v1") := VersionRow(Contents(older), 1, 2)], map[], map[]),
          map[slot.bucket := Enabled])
  }

  lemma TwoVersionsAre(slot: Slot, older: Data, newer: Data)
    ensures Run(EMPTY, TwoVersions(slot, older, newer)) == AfterTwo(slot, older, newer)
  {
    var state := map[slot.bucket := Enabled];
    var w1 := World(EMPTY.tables, state);
    var w2 := World(Tables(map[slot := ObjectRow(older, "v1", 1)], map[], map[], map[]), state);
    var first, second := PutOp(slot, older, NewIds("v1", 0, 1), 1), PutOp(slot, newer, NewIds("v2", 2, 3), 2);
    assert Step(EMPTY, SetVersioningOp(slot.bucket, Enabled)) == w1;
    assert Step(w1, first) == w2;
    assert Step(w2, second) == AfterTwo(slot, older, newer);
    hide Run, Step;
    RunCons(w2, second, []);
    RunCons(w1, first, [second] + []);
    RunCons(EMPTY, SetVersioningOp(slot.bucket, Enabled), [first] + ([second] + []));
    RunNothing(AfterTwo(slot, older, newer));
  }

  // Two versions of a key, the older restored: the id of the newer one now names
  // the older one's contents.
  lemma RestoreRebinds(slot: Slot, older: Data, newer: Data)
    requires older != newer
    ensures
      var w := Run(EMPTY, TwoVersions(slot, older, newer));
      && GetVersion(w.tables, slot, "v2") == Ok(newer)
      && Restore(w.tables, slot, "v1", NewIds("v3", 4, 5), 3).Ok?
      && GetVersion(Restore(w.tables, slot, "v1", NewIds("v3", 4, 5), 3).value, slot, "v2") == Ok(older)
  {
    TwoVersionsAre(slot, older, newer);
    hide Run, Step;
  }

  // The stored rows of that key after the restore, and after a delete but for its
  // marker.
  function Copied(slot: Slot, data: Data, copied: RowId): map<VersionKey, VersionRow> {
    map[VersionKey(slot, "v1") := VersionRow(Contents(data), 1, 2),
        VersionKey(slot, "v3") := VersionRow(Contents(data), 3, copied)]
  }

  function Hidden(slot: Slot, data: Data, copied: RowId, saved: RowId): Tables {
    Tables(map[], Copied(slot, data, copied)[VersionKey(slot, "v2") := VersionRow(Contents(data), 3, saved)],
           map[], map[])
  }

  lemma RestoreStep(slot: Slot, older: Data, newer: Data, copied: RowId)
    requires copied > 3
    ensures Step(AfterTwo(slot, older, newer), RestoreOp(slot, "v1", NewIds("v3", 3, copied), 3))
         == World(Tables(map[slot := ObjectRow(older, "v2", 3)], Copied(slot, older, copied), map[], map[]),
                  map[slot.bucket := Enabled])
  {
  }

  lemma DeleteStep(slot: Slot, data: Data, copied: RowId, saved: RowId)
    requires copied > 3 && saved > 3 && copied != saved
    ensures
      var t := Tables(map[slot := ObjectRow(data, "v2", 3)], Copied(slot, data, copied), map[], map[]);
      Step(World(t, map[slot.bucket := Enabled]), DeleteOp(slot, NewIds("m", saved, 1), 4))
      == World(WithRow(Hidden(slot, data, copied, saved), VersionKey(slot, "m"), VersionRow(DeleteMarker, 4, 1)),
               map[slot.bucket := Enabled])
  {
  }

  lemma HiddenRows(slot: Slot, data: Data, copied: RowId, saved: RowId)
    requires copied != saved
    ensures
      var rows := StoredRows(Hidden(slot, data, copied, saved), slot);
      var top := if copied < saved then "v2" else "v3";
      IsNewest(rows, top) && rows[top].body == Contents(data)
  {
    assert StoredRows(Hidden(slot, data, copied, saved), slot)
        == map["v1" := VersionRow(Contents(data), 1, 2), "v2" := VersionRow(Contents(data), 3, saved),
               "v3" := VersionRow(Contents(data), 3, copied)];
  }

  // The same key deleted and undeleted after the restore. What comes back is the
  // version that was current only if chance gave its saved row the greater id;
  // otherwise it is the copy.
  lemma RestoredKeyComesBackAs(slot: Slot, older: Data, newer: Data, copied: RowId, saved: RowId)
    requires copied > 3 && saved > 3 && copied != saved
    ensures
      var w := Run(EMPTY, TwoVersions(slot, older, newer));
      var w1 := Step(w, RestoreOp(slot, "v1", NewIds("v3", 3, copied), 3));
      var w2 := Step(w1, DeleteOp(slot, NewIds("m", saved, 1), 4));
      var w3 := Step(w2, DeleteVersionOp(slot, "m", 5));
      && slot in w1.tables.objects && w1.tables.objects[slot].versionId == "v2"
      && slot !in w2.tables.objects
      && slot in w3.tables.objects
      && w3.tables.objects[slot].versionId == if copied < saved then "v2" else "v3"
  {
    hide Run, StoredRows, IsNewest, Promote, DeleteVersion, Restore, Delete, TwoVersions, AfterTwo;
    var marker := VersionRow(DeleteMarker, 4, 1);
    var hidden := Hidden(slot, older, copied, saved);
    TwoVersionsAre(slot, older, newer);
    RestoreStep(slot, older, newer, copied);
    DeleteStep(slot, older, copied, saved);
    DeleteMarkerRow(hidden, slot, "m", marker, 5);
    HiddenRows(slot, older, copied, saved);
    PromoteIs(hidden, slot, 5, if copied < saved then "v2" else "v3");
  }
}
