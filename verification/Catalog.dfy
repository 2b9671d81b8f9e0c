// The database as the transactions see it: five relations and the files on disk,
// edited step by step. Every public method keeps each refcount equal to the
// number of rows holding the digest, never takes the branches of ReleaseBlob
// that forgive a wrong count, and reaches the tables StoreTables promises.
module Catalog {
  import opened Outcomes
  import opened VersionHistory
  import opened StoreTables
  import opened StoreRuns
  import opened StoreCounts

  datatype BlobRow = BlobRow(size: nat, refcount: nat)

  datatype Deletion = Deletion(deleted: bool, markerVersionId: string, deleteMarker: bool)

  function Balance(blobs: map<Digest, BlobRow>, d: Digest): nat {
    if d in blobs then blobs[d].refcount else 0
  }

  // What can go wrong with one claim of the sweep.
  datatype ClaimFault = FailsToLock | FailsToUnlink | FailsToCommit

  // Nothing refers to it, so the sweep may take it.
  predicate Idle(blobs: map<Digest, BlobRow>, d: Digest) {
    d in blobs && blobs[d].refcount == 0
  }

  // What is counted at least once is on disk. The row of a blob that nothing
  // refers to may have lost its file already, to a claim that did not commit.
  ghost predicate Backed(blobs: map<Digest, BlobRow>, files: set<Digest>) {
    forall d :: Balance(blobs, d) > 0 ==> d in files
  }

  // No digest but these has gained a first reference.
  ghost predicate NoneRevived(before: map<Digest, BlobRow>, after: map<Digest, BlobRow>, written: set<Digest>) {
    forall d :: Balance(after, d) > 0 ==> Balance(before, d) > 0 || d in written
  }

  class Database {
    var objects: map<Slot, ObjectRow>
    var versions: map<VersionKey, VersionRow>
    var uploads: map<string, UploadRow>
    var parts: map<PartKey, PartRow>
    var blobs: map<Digest, BlobRow>
    var versioning: map<string, VersioningState>
    var files: set<Digest>
    // How often a release found no row, or a count already at zero.
    ghost var clamps: nat

    ghost function Rows(): Tables
      reads this
    {
      Tables(objects, versions, uploads, parts)
    }

    ghost predicate Conserved()
      reads this
    {
      forall d :: Balance(blobs, d) == Refs(Rows(), d)
    }

    // And whatever some row refers to is on disk, and the primary key holds.
    ghost predicate Valid()
      reads this
    {
      Conserved() && Backed(blobs, files) && RowIdsDistinct(versions)
    }

    // No live bytes are ever missing.
    lemma LiveBytesOnDisk()
      requires Valid()
      ensures forall d :: Refs(Rows(), d) > 0 ==> d in files
    {
      forall d | Refs(Rows(), d) > 0 ensures d in files {
        assert Balance(blobs, d) > 0;
      }
    }

    constructor ()
      ensures Valid() && Rows() == Tables(map[], map[], map[], map[]) && clamps == 0
    {
      objects, versions, uploads, parts := map[], map[], map[], map[];
      blobs, versioning, files, clamps := map[], map[], {}, 0;
    }

    // ------------------------------------------------------ blob references

    method RetainBlob(d: Digest, size: nat)
      modifies `blobs
      ensures blobs == old(blobs)[d := BlobRow(if d in old(blobs) then old(blobs)[d].size else size,
                                               Balance(old(blobs), d) + 1)]
    {
      if d in blobs {
        blobs := blobs[d := blobs[d].(refcount := blobs[d].refcount + 1)];
      } else {
        blobs := blobs[d := BlobRow(size, 1)];
      }
    }

    method ReleaseBlob(d: Digest) returns (remaining: nat)
      modifies `blobs, `clamps
      ensures remaining == if Balance(old(blobs), d) > 0 then Balance(old(blobs), d) - 1 else 0
      ensures blobs == if d in old(blobs) then old(blobs)[d := old(blobs)[d].(refcount := remaining)] else old(blobs)
      ensures clamps == old(clamps) + if Balance(old(blobs), d) == 0 then 1 else 0
    {
      if d !in blobs {
        clamps := clamps + 1;
        return 0;
      }
      if blobs[d].refcount == 0 {
        clamps := clamps + 1;
      }
      remaining := if blobs[d].refcount > 0 then blobs[d].refcount - 1 else 0;
      blobs := blobs[d := blobs[d].(refcount := remaining)];
    }

    // Claims one blob under its lock and unlinks the file before committing. A
    // failed unlink rolls the claim back; when it is the commit that fails, the
    // row comes back at zero without its file.
    method ClaimAndUnlink(d: Digest, fault: Option<ClaimFault>) returns (r: Result<bool, ClaimFault>)
      requires Valid()
      modifies `blobs, `files
      ensures Valid()
      ensures r == if fault == Some(FailsToLock) then Err(FailsToLock)
                   else if !Idle(old(blobs), d) then Ok(false)
                   else if fault.Some? then Err(fault.value) else Ok(true)
      ensures blobs == if r == Ok(true) then old(blobs) - {d} else old(blobs)
      ensures files == if r == Ok(true) || r == Err(FailsToCommit) then old(files) - {d} else old(files)
      ensures files != old(files) ==> Refs(Rows(), d) == 0
      // Every row still has its file exactly when no commit failed on an idle blob.
      ensures old(blobs.Keys <= files) ==>
        (blobs.Keys <= files <==> !(Idle(old(blobs), d) && fault == Some(FailsToCommit)))
    {
      hide Refs, Holders, Holding;
      assert Balance(blobs, d) == Refs(Rows(), d);
      var blobs0 := blobs;
      match fault {
        case Some(FailsToLock) =>
          return Err(FailsToLock);
        case _ =>
      }
      if !Idle(blobs, d) {
        return Ok(false);
      }
      blobs := blobs - {d};
      assert forall x :: Balance(blobs, x) == Balance(blobs0, x);
      match fault {
        case None =>
          files := files - {d};
          return Ok(true);
        case Some(FailsToCommit) =>
          files := files - {d};
          blobs := blobs0;
          return Err(FailsToCommit);
        case Some(FailsToUnlink) =>
          blobs := blobs0;
          return Err(FailsToUnlink);
      }
    }

    // Whatever candidates the query lists, only unreferenced blobs go. A claim
    // that fails is passed over.
    method SweepUnreferenced(candidates: seq<Digest>, faults: seq<Option<ClaimFault>>) returns (reclaimed: nat)
      requires Valid() && |faults| == |candidates|
      modifies `blobs, `files
      ensures Valid()
      ensures reclaimed == |old(blobs)| - |blobs|
      ensures blobs.Keys <= old(blobs).Keys && forall d :: d in blobs ==> blobs[d] == old(blobs)[d]
      ensures forall d :: d in old(blobs) && d !in blobs ==> Idle(old(blobs), d) && d in candidates
      ensures forall i :: 0 <= i < |candidates| && faults[i].None? ==> !Idle(blobs, candidates[i])
      ensures files <= old(files)
      ensures forall d :: d in old(files) && d !in files ==> Idle(old(blobs), d) && d in candidates
    {
      hide Refs, Holders, Holding, Database.Valid;
      reclaimed := 0;
      for i := 0 to |candidates|
        invariant Valid()
        invariant reclaimed == |old(blobs)| - |blobs|
        invariant blobs.Keys <= old(blobs).Keys && forall d :: d in blobs ==> blobs[d] == old(blobs)[d]
        invariant forall d :: d in old(blobs) && d !in blobs ==> Idle(old(blobs), d) && d in candidates
        invariant forall j :: 0 <= j < i && faults[j].None? ==> !Idle(blobs, candidates[j])
        invariant files <= old(files)
        invariant forall d :: d in old(files) && d !in files ==> Idle(old(blobs), d) && d in candidates
      {
        ghost var before := blobs;
        var claimed := ClaimAndUnlink(candidates[i], faults[i]);
        if claimed == Ok(true) {
          assert (before - {candidates[i]}).Keys == before.Keys - {candidates[i]};
          reclaimed := reclaimed + 1;
        }
      }
    }

    // ------------------------------------------------------ version records

    // One insert into versions and one more reference on its digest. A clash of
    // ids leaves both relations to the caller's rollback.
    method RecordVersion(slot: Slot, id: string, row: VersionRow) returns (r: Result<(), StoreError>)
      modifies `versions, `blobs
      ensures r.Ok? <==> Insertable(old(versions), VersionKey(slot, id), row.rowId)
      ensures r.Err? ==> r.error == UniqueViolation
      ensures r.Ok? ==> versions == old(versions)[VersionKey(slot, id) := row]
      ensures forall d :: Balance(blobs, d) == Balance(old(blobs), d) + One(VersionDigest(row), d)
    {
      if row.body.Contents? {
        RetainBlob(row.body.data.digest, row.body.data.size);
      }
      if !Insertable(versions, VersionKey(slot, id), row.rowId) {
        return Err(UniqueViolation);
      }
      versions := versions[VersionKey(slot, id) := row];
      return Ok(());
    }

    // Saves the live row among the stored ones exactly where Preserves says so.
    // The result is the id under which the next live row goes.
    method SupersedeCurrent(slot: Slot, state: VersioningState, ids: NewIds) returns (r: Result<string, StoreError>)
      requires slot in objects ==> Balance(blobs, objects[slot].data.digest) > 0
      modifies `versions, `blobs
      ensures match Supersede(old(Rows()), slot, state, ids)
        case Err(e) => r == Err(e)
        case Ok(t) => r == Ok(IncomingId(state, ids)) && Rows() == t && NoneRevived(old(blobs), blobs, {})
      ensures r.Ok? ==> forall d :: Balance(blobs, d) - Refs(Rows(), d) == Balance(old(blobs), d) - Refs(old(Rows()), d)
    {
      var preserve := false;
      match state {
        case Enabled => preserve := slot in objects;
        case Suspended => preserve := slot in objects && objects[slot].versionId != "";
        case Unversioned =>
      }
      if preserve {
        var live := objects[slot];
        var id := ExternalId(live.versionId);
        var row := VersionRow(Contents(live.data), live.updatedAt, ids.saved);
        var recorded := RecordVersion(slot, id, row);
        if recorded.Err? {
          return Err(recorded.error);
        }
        forall d ensures Refs(Rows(), d) == Refs(old(Rows()), d) + One(VersionDigest(row), d) {
          RefsPutVersion(old(Rows()), VersionKey(slot, id), row, d);
        }
      }
      return Ok(IncomingId(state, ids));
    }

    // Removes a key's stored null version and releases the blob it held.
    method ReplaceNullVersion(slot: Slot)
      requires forall d :: Balance(blobs, d) >= Refs(Rows(), d)
      modifies `versions, `blobs, `clamps
      ensures Rows() == old(Rows()).(versions := old(versions) - {VersionKey(slot, NULL_VERSION_ID)})
      ensures clamps == old(clamps) && NoneRevived(old(blobs), blobs, {})
      ensures forall d :: Balance(blobs, d) - Refs(Rows(), d) == Balance(old(blobs), d) - Refs(old(Rows()), d)
    {
      var _ := RemoveVersionRow(VersionKey(slot, NULL_VERSION_ID));
    }

    // DELETE ... RETURNING one row of object_versions, and release its blob.
    method RemoveVersionRow(k: VersionKey) returns (removed: Option<VersionRow>)
      requires forall d :: Balance(blobs, d) >= Refs(Rows(), d)
      modifies `versions, `blobs, `clamps
      ensures removed == if k in old(versions) then Some(old(versions)[k]) else None
      ensures removed.None? ==> blobs == old(blobs)
      ensures Rows() == old(Rows()).(versions := old(versions) - {k})
      ensures clamps == old(clamps) && NoneRevived(old(blobs), blobs, {})
      ensures forall d :: Balance(blobs, d) - Refs(Rows(), d) == Balance(old(blobs), d) - Refs(old(Rows()), d)
    {
      forall d ensures Refs(old(Rows()).(versions := versions - {k}), d) ==
        Refs(old(Rows()), d) - (if k in versions then One(VersionDigest(versions[k]), d) else 0)
      {
        RefsDropVersion(Rows(), k, d);
      }
      if k !in versions {
        assert versions - {k} == versions;
        return None;
      }
      var row := versions[k];
      versions := versions - {k};
      if row.body.Contents? {
        var d := row.body.data.digest;
        assert Balance(blobs, d) >= Refs(old(Rows()), d) >= 1;
        var _ := ReleaseBlob(d);
      }
      return Some(row);
    }

    // --------------------------------------------------------- transactions

    // Replaces the row of a key and releases the blob it held. The new blob has
    // already been retained.
    method UpsertObject(slot: Slot, row: ObjectRow)
      requires forall d :: Balance(blobs, d) == Refs(Rows(), d) + One(ObjectDigest(row), d)
      modifies `objects, `blobs, `clamps
      ensures Rows() == old(Rows()).(objects := old(objects)[slot := row])
      ensures Conserved() && clamps == old(clamps) && NoneRevived(old(blobs), blobs, {})
    {
      var hadPrevious := slot in objects;
      var previous := if hadPrevious then objects[slot] else row;
      objects := objects[slot := row];
      forall d ensures Refs(Rows(), d) == Refs(old(Rows()), d) + One(ObjectDigest(row), d)
                                          - (if hadPrevious then One(ObjectDigest(previous), d) else 0)
      {
        RefsPutObject(old(Rows()), slot, row, d);
      }
      if hadPrevious {
        assert Balance(blobs, previous.data.digest) > 0;
        var _ := ReleaseBlob(previous.data.digest);
      }
    }

    // The shared half of a PUT and a multipart completion.
    method ReplaceKey(slot: Slot, data: Data, state: VersioningState, ids: NewIds, now: int)
      returns (r: Result<string, StoreError>)
      requires Conserved()
      modifies `objects, `versions, `blobs, `clamps
      ensures match Put(old(Rows()), slot, data, state, ids, now)
        case Err(e) => r == Err(e)
        case Ok(t) => r == Ok(IncomingId(state, ids)) && Rows() == t && Conserved()
      ensures r.Ok? ==> clamps == old(clamps) && NoneRevived(old(blobs), blobs, {data.digest})
    {
      if slot in objects {
        ObjectIsHeld(Rows(), slot);
        assert Balance(blobs, objects[slot].data.digest) > 0;
      }
      RetainBlob(data.digest, data.size);
      assert forall d :: Balance(blobs, d) == Refs(old(Rows()), d) + One(Some(data.digest), d);
      var superseded := SupersedeCurrent(slot, state, ids);
      if superseded.Err? {
        return Err(superseded.error);
      }
      UpsertObject(slot, ObjectRow(data, superseded.value, now));
      return superseded;
    }

    // The PUT transaction: Put on the tables, one reference gained by the new
    // digest, and one lost by whatever the key no longer holds.
    method PutObject(slot: Slot, data: Data, state: VersioningState, ids: NewIds, now: int)
      returns (r: Result<string, StoreError>)
      requires Valid() && data.digest in files
      modifies `objects, `versions, `blobs, `clamps
      ensures Valid() && clamps == old(clamps)
      ensures match Put(old(Rows()), slot, data, state, ids, now)
        case Err(e) => r == Err(e) && Rows() == old(Rows()) && blobs == old(blobs)
        case Ok(t) => r == Ok(IncomingId(state, ids)) && Rows() == t
      ensures r.Ok? ==>
        objects == old(objects)[slot := ObjectRow(data, if state.Enabled? then ids.version else "", now)]
    {
      PutObjects(Rows(), slot, data, state, ids, now);
      hide RowIdsDistinct, Put, Refs;
      var objects0, versions0, blobs0 := objects, versions, blobs;
      ghost var clamps0 := clamps;
      r := ReplaceKey(slot, data, state, ids, now);
      if r.Err? {
        objects, versions, blobs, clamps := objects0, versions0, blobs0, clamps0;
      } else {
        PutKeepsRowIds(old(Rows()), slot, data, state, ids, now);
      }
    }

    // The DELETE transaction: Delete on the tables, in each of the three states.
    method DeleteObject(slot: Slot, state: VersioningState, ids: NewIds, now: int)
      returns (r: Result<Deletion, StoreError>)
      requires Valid()
      modifies `objects, `versions, `blobs, `clamps
      ensures Valid() && clamps == old(clamps)
      ensures match Delete(old(Rows()), slot, state, ids, now)
        case Err(e) => r == Err(e) && Rows() == old(Rows()) && blobs == old(blobs)
        case Ok(t) =>
          && Rows() == t
          && r == Ok(Deletion(slot in old(objects) || state.Configured(),
                              if state.Configured() then MarkerId(state, ids) else "", state.Configured()))
    {
      hide RowIdsDistinct, Mark, Refs;
      DeleteRowIds(old(Rows()), slot, state, ids, now);
      var objects0, versions0, blobs0 := objects, versions, blobs;
      ghost var clamps0 := clamps;
      var marker := "";
      if state.Configured() {
        var marked := RecordMarker(slot, state, ids, now);
        if marked.Err? {
          objects, versions, blobs, clamps := objects0, versions0, blobs0, clamps0;
          return Err(marked.error);
        }
        marker := marked.value;
      }
      r := Ok(Deletion(slot in objects || state.Configured(), marker, state.Configured()));
      if slot !in objects {
        assert objects - {slot} == objects;
        return;
      }
      RemoveObject(slot);
    }

    method RecordMarker(slot: Slot, state: VersioningState, ids: NewIds, now: int)
      returns (r: Result<string, StoreError>)
      requires Conserved() && state.Configured()
      modifies `versions, `blobs, `clamps
      ensures match Mark(old(Rows()), slot, state, ids, now)
        case Err(e) => r == Err(e)
        case Ok(t) => r == Ok(MarkerId(state, ids)) && Rows() == t && Conserved()
      ensures r.Ok? ==> clamps == old(clamps) && NoneRevived(old(blobs), blobs, {})
    {
      hide Refs, Holders, Holding;
      if slot in objects {
        ObjectIsHeld(Rows(), slot);
        assert Balance(blobs, objects[slot].data.digest) > 0;
      }
      var superseded := SupersedeCurrent(slot, state, ids);
      if superseded.Err? {
        return Err(superseded.error);
      }
      var marker := NULL_VERSION_ID;
      if state.Enabled? {
        marker := ids.version;
      } else {
        ReplaceNullVersion(slot);
      }
      ghost var before := Rows();
      var row := VersionRow(DeleteMarker, now, ids.added);
      var recorded := RecordVersion(slot, marker, row);
      if recorded.Err? {
        return Err(recorded.error);
      }
      forall d ensures Refs(Rows(), d) == Refs(before, d) {
        RefsPutVersion(before, VersionKey(slot, marker), row, d);
      }
      return Ok(marker);
    }

    // Deletes the row of a key and releases the blob it held.
    method RemoveObject(slot: Slot)
      requires Conserved() && slot in objects
      modifies `objects, `blobs, `clamps
      ensures Rows() == old(Rows()).(objects := old(objects) - {slot})
      ensures Conserved() && clamps == old(clamps) && NoneRevived(old(blobs), blobs, {})
    {
      var d := objects[slot].data.digest;
      ObjectIsHeld(Rows(), slot);
      assert Balance(blobs, d) > 0;
      objects := objects - {slot};
      forall x ensures Refs(Rows(), x) == Refs(old(Rows()), x) - One(Some(d), x) {
        RefsDropObject(old(Rows()), slot, x);
      }
      var _ := ReleaseBlob(d);
    }

    // Makes the newest remaining version current, unless it is a marker.
    method PromoteNewestVersion(slot: Slot, now: int)
      requires Valid() && slot !in objects
      modifies `objects, `versions, `blobs, `clamps
      ensures Valid() && clamps == old(clamps) && Rows() == Promote(old(Rows()), slot, now)
    {
      hide RowIdsDistinct, Ranked, Refs;
      KeyIsRanked(Rows(), slot);
      FewerKeepRowIds(versions, Promote(Rows(), slot, now).versions);
      var rows := StoredRows(Tables(objects, versions, uploads, parts), slot);
      var newest := Newest(rows);
      if newest.None? || rows[newest.value].body.DeleteMarker? {
        return;
      }
      MoveToObjects(slot, newest.value, now);
    }

    method MoveToObjects(slot: Slot, id: string, now: int)
      requires Conserved() && slot !in objects
      requires VersionKey(slot, id) in versions && versions[VersionKey(slot, id)].body.Contents?
      modifies `objects, `versions, `blobs, `clamps
      ensures Conserved() && clamps == old(clamps) && NoneRevived(old(blobs), blobs, {})
      ensures Rows() == old(Rows()).(
        objects := old(objects)[slot := ObjectRow(old(versions)[VersionKey(slot, id)].body.data, InternalId(id), now)],
        versions := old(versions) - {VersionKey(slot, id)})
    {
      hide Refs, Holders, Holding;
      var data := versions[VersionKey(slot, id)].body.data;
      VersionIsHeld(Rows(), VersionKey(slot, id));
      assert Balance(blobs, data.digest) > 0;
      RetainBlob(data.digest, data.size);
      var row := ObjectRow(data, InternalId(id), now);
      objects := objects[slot := row];
      forall d ensures Refs(Rows(), d) == Refs(old(Rows()), d) + One(Some(data.digest), d) {
        RefsPutObject(old(Rows()), slot, row, d);
      }
      var _ := RemoveVersionRow(VersionKey(slot, id));
    }

    // Permanently removes one version; removing what hid an older one brings
    // that one back.
    method DeleteObjectVersion(slot: Slot, versionId: string, now: int) returns (r: Result<Deletion, StoreError>)
      requires Valid()
      modifies `objects, `versions, `blobs, `clamps
      ensures Valid() && clamps == old(clamps)
      ensures match DeleteVersion(old(Rows()), slot, versionId, now)
        case Err(e) => r == Err(e) && Rows() == old(Rows()) && blobs == old(blobs)
        case Ok(t) =>
          && Rows() == t
          && r == Ok(Deletion(true, "", !(slot in old(objects) && old(objects)[slot].versionId == InternalId(versionId))
                                        && old(versions)[VersionKey(slot, ExternalId(versionId))].body.DeleteMarker?))
    {
      var stored := InternalId(versionId);
      var isMarker := false;
      if slot in objects && objects[slot].versionId == stored {
        RemoveObject(slot);
      } else {
        var removed := RemoveVersionRow(VersionKey(slot, ExternalId(stored)));
        if removed.None? {
          return Err(VersionNotFound);
        }
        isMarker := removed.value.body.DeleteMarker?;
      }
      if slot !in objects {
        PromoteNewestVersion(slot, now);
      }
      return Ok(Deletion(true, "", isMarker));
    }

    // The current version first; then the stored ones.
    method GetObjectVersion(slot: Slot, versionId: string) returns (r: Result<Data, StoreError>)
      ensures r == GetVersion(Rows(), slot, versionId)
    {
      var stored := InternalId(versionId);
      if slot in objects && objects[slot].versionId == stored {
        return Ok(objects[slot].data);
      }
      var k := VersionKey(slot, ExternalId(stored));
      if k !in versions {
        return Err(VersionNotFound);
      }
      match versions[k].body {
        case DeleteMarker => return Err(IsDeleteMarker);
        case Contents(data) => return Ok(data);
      }
    }

    // Copies an old version over the live row, which keeps its own version id,
    // and records the copy as one more stored version.
    method RestoreVersion(slot: Slot, versionId: string, ids: NewIds, now: int) returns (r: Result<Data, StoreError>)
      requires Valid()
      modifies `objects, `versions, `blobs, `clamps
      ensures Valid() && clamps == old(clamps)
      ensures match Restore(old(Rows()), slot, versionId, ids, now)
        case Err(e) => r == Err(e) && Rows() == old(Rows()) && blobs == old(blobs)
        case Ok(t) => r == Ok(old(versions)[VersionKey(slot, versionId)].body.data) && Rows() == t
    {
      hide Refs, Holders, Holding, RowIdsDistinct;
      var k := VersionKey(slot, versionId);
      if k !in versions || versions[k].body.DeleteMarker? {
        return Err(VersionNotFound);
      }
      var objects0, versions0, blobs0 := objects, versions, blobs;
      ghost var clamps0 := clamps;
      var data := versions[k].body.data;
      VersionIsHeld(Rows(), k);
      assert Balance(blobs, data.digest) > 0;
      RetainBlob(data.digest, data.size);
      UpsertObject(slot, ObjectRow(data, if slot in objects then objects[slot].versionId else "", now));
      var recorded := RecordCopy(slot, ids.version, VersionRow(Contents(data), now, ids.added));
      if recorded.Err? {
        objects, versions, blobs, clamps := objects0, versions0, blobs0, clamps0;
        return Err(recorded.error);
      }
      RestoreKeepsRowIds(old(Rows()), slot, versionId, ids, now);
      return Ok(data);
    }

    method RecordCopy(slot: Slot, id: string, row: VersionRow) returns (r: Result<(), StoreError>)
      requires Conserved()
      modifies `versions, `blobs
      ensures match InsertVersion(old(Rows()), slot, id, row)
        case Err(e) => r == Err(e)
        case Ok(t) => r.Ok? && Rows() == t && Conserved()
      ensures r.Ok? ==> forall d :: Balance(blobs, d) == Balance(old(blobs), d) + One(VersionDigest(row), d)
    {
      r := RecordVersion(slot, id, row);
      if r.Ok? {
        forall d ensures Refs(Rows(), d) == Refs(old(Rows()), d) + One(VersionDigest(row), d) {
          RefsPutVersion(old(Rows()), VersionKey(slot, id), row, d);
        }
      }
    }

    method PurgeVersion(slot: Slot, versionId: string) returns (r: Result<(), StoreError>)
      requires Valid()
      modifies `versions, `blobs, `clamps
      ensures Valid() && clamps == old(clamps)
      ensures match Purge(old(Rows()), slot, versionId)
        case Err(e) => r == Err(e) && Rows() == old(Rows()) && blobs == old(blobs)
        case Ok(t) => r == Ok(()) && Rows() == t
      ensures r == if VersionKey(slot, versionId) in old(versions) then Ok(()) else Err(VersionNotFound)
      ensures versions == old(versions) - {VersionKey(slot, versionId)}
    {
      var removed := RemoveVersionRow(VersionKey(slot, versionId));
      return if removed.None? then Err(VersionNotFound) else Ok(());
    }

    method PurgeKeyVersions(slot: Slot) returns (purged: nat)
      requires Valid()
      modifies `versions, `blobs, `clamps
      ensures Valid() && clamps == old(clamps)
      ensures Rows() == PurgeKey(old(Rows()), slot)
      ensures forall k :: k in versions <==> k in old(versions) && k.slot != slot
      ensures forall k :: k in versions ==> versions[k] == old(versions)[k]
      ensures purged == |ContentsOf(old(versions), slot)|
    {
      hide Refs, Holders, Holding;
      var digests := DeleteVersionRows(slot);
      ReleaseAll(digests);
      return |digests|;
    }

    // DELETE ... RETURNING the blob digest of every stored version of a key.
    method DeleteVersionRows(slot: Slot) returns (digests: seq<Digest>)
      modifies `versions
      ensures Rows() == PurgeKey(old(Rows()), slot)
      ensures |digests| == |ContentsOf(old(versions), slot)|
      ensures forall d :: Refs(Rows(), d) + multiset(digests)[d] == Refs(old(Rows()), d)
    {
      digests := [];
      var doomed := set k | k in versions && k.slot == slot;
      while doomed != {}
        invariant doomed == set k | k in versions && k.slot == slot
        invariant PurgeKey(Rows(), slot) == PurgeKey(old(Rows()), slot)
        invariant |digests| + |ContentsOf(versions, slot)| == |ContentsOf(old(versions), slot)|
        invariant forall d :: Refs(Rows(), d) + multiset(digests)[d] == Refs(old(Rows()), d)
        decreases doomed
      {
        var k :| k in doomed;
        var body := versions[k].body;
        DropPurgedRow(Rows(), slot, k);
        versions := versions - {k};
        if body.Contents? {
          digests := digests + [body.data.digest];
        }
        doomed := doomed - {k};
      }
      assert forall k :: k in versions ==> k !in doomed;
      assert versions == PurgeKey(Rows(), slot).versions;
      assert ContentsOf(versions, slot) == {};
    }

    // One release per listed reference.
    method ReleaseAll(digests: seq<Digest>)
      requires forall d :: Balance(blobs, d) >= multiset(digests)[d]
      modifies `blobs, `clamps
      ensures clamps == old(clamps) && NoneRevived(old(blobs), blobs, {})
      ensures forall d :: Balance(blobs, d) == Balance(old(blobs), d) - multiset(digests)[d]
    {
      for i := 0 to |digests|
        invariant clamps == old(clamps) && NoneRevived(old(blobs), blobs, {})
        invariant forall d :: Balance(blobs, d) == Balance(old(blobs), d) - multiset(digests[..i])[d]
      {
        assert digests[..i + 1] == digests[..i] + [digests[i]];
        assert digests == digests[..i + 1] + digests[i + 1..];
        assert multiset(digests)[digests[i]] >= multiset(digests[..i + 1])[digests[i]];
        var _ := ReleaseBlob(digests[i]);
      }
      assert digests[..|digests|] == digests;
    }

    // ------------------------------------------------------------ multipart

    method CreateMultipartUpload(upload: string, row: UploadRow)
      requires Valid()
      modifies `uploads
      ensures Valid() && Rows() == old(Rows()).(uploads := old(uploads)[upload := row])
    {
      uploads := uploads[upload := row];
      assert forall d :: Refs(Rows(), d) == Refs(old(Rows()), d);
    }

    // The part's digest gains a reference before the one it displaces loses its.
    method PutMultipartPart(k: PartKey, part: PartRow) returns (r: Result<(), StoreError>)
      requires Valid() && part.digest in files
      modifies `parts, `blobs, `clamps
      ensures Valid() && clamps == old(clamps)
      ensures match PutPart(old(Rows()), k, part)
        case Err(e) => r == Err(e) && Rows() == old(Rows()) && blobs == old(blobs)
        case Ok(t) => r == Ok(()) && Rows() == t
      ensures r == if k.upload in old(uploads) then Ok(()) else Err(ForeignKeyViolation)
      ensures parts == if k.upload in old(uploads) then old(parts)[k := part] else old(parts)
      ensures objects == old(objects) && versions == old(versions) && uploads == old(uploads)
    {
      var blobs0 := blobs;
      RetainBlob(part.digest, part.size);
      if k.upload !in uploads {
        blobs := blobs0;
        return Err(ForeignKeyViolation);
      }
      UpsertPart(k, part);
      return Ok(());
    }

    method UpsertPart(k: PartKey, part: PartRow)
      requires forall d :: Balance(blobs, d) == Refs(Rows(), d) + One(PartDigest(part), d)
      modifies `parts, `blobs, `clamps
      ensures Rows() == old(Rows()).(parts := old(parts)[k := part])
      ensures Conserved() && clamps == old(clamps) && NoneRevived(old(blobs), blobs, {})
    {
      var hadPrevious := k in parts;
      var previous := if hadPrevious then parts[k] else part;
      parts := parts[k := part];
      forall d ensures Refs(Rows(), d) == Refs(old(Rows()), d) + One(PartDigest(part), d)
                                          - (if hadPrevious then One(PartDigest(previous), d) else 0)
      {
        RefsPutPart(old(Rows()), k, part, d);
      }
      if hadPrevious {
        assert Balance(blobs, previous.digest) > 0;
        var _ := ReleaseBlob(previous.digest);
      }
    }

    // Every part of an upload, each once.
    method ListMultipartParts(upload: string) returns (keys: seq<PartKey>)
      ensures Lists(Rows(), upload, keys)
    {
      keys := [];
      var left := set k | k in parts && k.upload == upload;
      while left != {}
        invariant forall i, j :: 0 <= i < j < |keys| ==> keys[i] != keys[j]
        invariant forall k :: k in keys || k in left <==> k in parts && k.upload == upload
        invariant forall k :: k in keys ==> k !in left
        decreases left
      {
        var k :| k in left;
        keys := keys + [k];
        left := left - {k};
      }
    }

    // Drops every part's reference, then the upload row, whose parts cascade.
    method ReleaseUpload(upload: string)
      requires Conserved()
      modifies `uploads, `parts, `blobs, `clamps
      ensures Conserved() && clamps == old(clamps) && NoneRevived(old(blobs), blobs, {})
      ensures Rows() == Abort(old(Rows()), upload)
    {
      var keys := ListMultipartParts(upload);
      forall d ensures Refs(Abort(Rows(), upload), d) + multiset(DigestsOf(parts, keys))[d] == Refs(Rows(), d) {
        RefsAbort(Rows(), upload, keys, d);
      }
      ReleaseAll(DigestsOf(parts, keys));
      uploads := uploads - {upload};
      parts := map k | k in parts && k.upload != upload :: parts[k];
    }

    method AbortMultipartUpload(upload: string)
      requires Valid()
      modifies `uploads, `parts, `blobs, `clamps
      ensures Valid() && clamps == old(clamps)
      ensures Rows() == Abort(old(Rows()), upload)
      ensures uploads == old(uploads) - {upload}
      ensures forall k :: k in parts <==> k in old(parts) && k.upload != upload
      ensures forall k :: k in parts ==> parts[k] == old(parts)[k]
    {
      ReleaseUpload(upload);
    }

    // Discards the uploads the age query listed, up to the first abort to fail.
    method ReapAbandonedUploads(stale: seq<string>, failsAt: nat) returns (reaped: nat, ok: bool)
      requires Valid()
      modifies `uploads, `parts, `blobs, `clamps
      ensures Valid() && clamps == old(clamps)
      ensures reaped == (if failsAt < |stale| then failsAt else |stale|) && (ok <==> reaped == |stale|)
      ensures Rows() == Reaped(old(Rows()), stale[..reaped])
      ensures forall u :: u in uploads <==> u in old(uploads) && u !in stale[..reaped]
      ensures forall k :: k in parts <==> k in old(parts) && k.upload !in stale[..reaped]
    {
      hide Refs, Holders, Holding;
      reaped := 0;
      while reaped < |stale|
        invariant 0 <= reaped <= |stale| && reaped <= failsAt && Valid() && clamps == old(clamps)
        invariant Rows() == Reaped(old(Rows()), stale[..reaped])
      {
        if reaped == failsAt {
          return reaped, false;
        }
        ReapOneMore(old(Rows()), stale, reaped);
        AbortMultipartUpload(stale[reaped]);
        reaped := reaped + 1;
      }
      return reaped, true;
    }

    // Put followed by Abort, as one transaction that fails or succeeds whole.
    method CompleteMultipartUpload(upload: string, slot: Slot, data: Data, state: VersioningState,
                                   ids: NewIds, now: int)
      returns (r: Result<string, StoreError>)
      requires Valid() && data.digest in files
      modifies `objects, `versions, `uploads, `parts, `blobs, `clamps
      ensures Valid() && clamps == old(clamps)
      ensures match Put(old(Rows()), slot, data, state, ids, now)
        case Err(e) => r == Err(e) && Rows() == old(Rows()) && blobs == old(blobs)
        case Ok(t) => r == Ok(IncomingId(state, ids)) && Rows() == Abort(t, upload)
      ensures r.Ok? ==>
        && objects == old(objects)[slot := ObjectRow(data, if state.Enabled? then ids.version else "", now)]
        && uploads == old(uploads) - {upload}
        && (forall k :: k in parts <==> k in old(parts) && k.upload != upload)
        && forall k :: k in parts ==> parts[k] == old(parts)[k]
    {
      hide Refs, Holders, Holding;
      var objects0, versions0, blobs0 := objects, versions, blobs;
      ghost var clamps0 := clamps;
      r := ReplaceKey(slot, data, state, ids, now);
      if r.Err? {
        objects, versions, blobs, clamps := objects0, versions0, blobs0, clamps0;
        return;
      }
      ReleaseUpload(upload);
    }

    // ------------------------------------------------------------ whole runs

    ghost function Now(): World
      reads this
    {
      World(Rows(), versioning)
    }

    // Changes a bucket's setting where the transition is legal.
    method SetVersioning(bucket: string, next: VersioningState)
      modifies `versioning
      ensures Now() == Step(old(Now()), SetVersioningOp(bucket, next))
      ensures next.Configured() ==> versioning == old(versioning)[bucket := next]
      ensures next.Unversioned? && bucket in old(versioning) && old(versioning)[bucket].Configured() ==>
        versioning == old(versioning)
    {
      var current := if bucket in versioning then versioning[bucket] else Unversioned;
      var changed := current.TransitionTo(next);
      if changed.Ok? {
        versioning := versioning[bucket := changed.value];
      }
    }

    method Execute(op: Op)
      requires Valid()
      requires OnDisk(op, files)
      modifies this
      ensures Valid() && clamps == old(clamps) && files == old(files)
      ensures Now() == Step(old(Now()), op)
    {
      match op {
        case PutOp(slot, data, ids, now) =>
          var state := if slot.bucket in versioning then versioning[slot.bucket] else Unversioned;
          var _ := PutObject(slot, data, state, ids, now);
        case CompleteOp(upload, slot, data, ids, now) =>
          var state := if slot.bucket in versioning then versioning[slot.bucket] else Unversioned;
          var _ := CompleteMultipartUpload(upload, slot, data, state, ids, now);
        case DeleteOp(slot, ids, now) =>
          var state := if slot.bucket in versioning then versioning[slot.bucket] else Unversioned;
          var _ := DeleteObject(slot, state, ids, now);
        case DeleteVersionOp(slot, versionId, now) =>
          var _ := DeleteObjectVersion(slot, versionId, now);
        case SetVersioningOp(bucket, next) =>
          SetVersioning(bucket, next);
        case CreateUploadOp(upload, row) =>
          CreateMultipartUpload(upload, row);
        case PutPartOp(k, part) =>
          var _ := PutMultipartPart(k, part);
        case AbortOp(upload) =>
          AbortMultipartUpload(upload);
        case RestoreOp(slot, versionId, ids, now) =>
          var _ := RestoreVersion(slot, versionId, ids, now);
      }
    }

    // The transactions, executed one after another from any valid state, reach
    // exactly the state the run theorems speak of, with every count exact.
    method Replay(ops: seq<Op>)
      requires Valid()
      requires forall op :: op in ops ==> OnDisk(op, files)
      modifies this
      ensures Valid() && clamps == old(clamps)
      ensures Now() == Run(old(Now()), ops)
    {
      for i := 0 to |ops|
        invariant Valid() && clamps == old(clamps) && files == old(files)
        invariant Run(Now(), ops[i..]) == Run(old(Now()), ops)
      {
        assert ops[i..][0] == ops[i] && ops[i..][1..] == ops[i + 1..];
        Execute(ops[i]);
      }
    }

    // ---------------------------------------- runs that also clean up

    // A blob's bytes arrive on disk, as BlobStore.Store.Put has it.
    method AddFile(d: Digest)
      requires Valid()
      modifies `files
      ensures Valid() && files == old(files) + {d}
    {
      files := files + {d};
    }

    method Perform(tx: Transaction)
      requires Valid()
      requires tx.Client? ==> OnDisk(tx.op, files)
      modifies this
      ensures Valid() && clamps == old(clamps)
      ensures Now() == Performed(old(Now()), tx)
      ensures !tx.Sweep? ==> files == old(files) + (if tx.StoreFile? then {tx.d} else {})
    {
      hide Refs, Holders, Holding, Step, Database.Valid;
      match tx {
        case Client(op) =>
          Execute(op);
        case StoreFile(d) =>
          AddFile(d);
        case PurgeOne(slot, versionId) =>
          var _ := PurgeVersion(slot, versionId);
        case PurgeAll(slot) =>
          var _ := PurgeKeyVersions(slot);
        case Reap(stale, failsAt) =>
          var _, _ := ReapAbandonedUploads(stale, failsAt);
        case Sweep(claims) =>
          var candidates := seq(|claims|, i requires 0 <= i < |claims| => claims[i].0);
          var faults := seq(|claims|, i requires 0 <= i < |claims| => claims[i].1);
          var _ := SweepUnreferenced(candidates, faults);
      }
    }

    // Any sequence of transactions at all, until a write refers to bytes that are
    // not on disk: to that point every count is exact, no release was clamped and
    // every byte some row refers to is there. A run in which each write follows
    // its bytes, with no sweep in between, gets to its end.
    method ReplayAll(txs: seq<Transaction>) returns (done: nat)
      requires Valid()
      modifies this
      ensures Valid() && clamps == old(clamps)
      ensures forall d :: Refs(Rows(), d) > 0 ==> d in files
      ensures done <= |txs| && Now() == PerformedAll(old(Now()), txs[..done])
      ensures done < |txs| ==> txs[done].Client? && !OnDisk(txs[done].op, files)
      ensures Fed(txs, old(files)) ==> done == |txs|
    {
      hide Refs, Holders, Holding, Performed, Database.Valid;
      done := 0;
      ghost var have := files;
      while done < |txs| && (txs[done].Client? ==> OnDisk(txs[done].op, files))
        invariant 0 <= done <= |txs| && Valid() && clamps == old(clamps)
        invariant Now() == PerformedAll(old(Now()), txs[..done])
        invariant have <= files && (Fed(txs, old(files)) ==> Fed(txs[done..], have))
      {
        assert txs[done..][0] == txs[done] && txs[done..][1..] == txs[done + 1..];
        assert txs[..done + 1][..done] == txs[..done];
        Perform(txs[done]);
        have := OnDiskAfter(txs[done], have);
        done := done + 1;
      }
      LiveBytesOnDisk();
      if done < |txs| {
        assert txs[done..][0] == txs[done];
      }
    }
  }

  // The bytes a write refers to have been stored before it runs.
  predicate OnDisk(op: Op, files: set<Digest>) {
    match op
    case PutOp(_, data, _, _) => data.digest in files
    case CompleteOp(_, _, data, _, _) => data.digest in files
    case PutPartOp(_, part) => part.digest in files
    case _ => true
  }

  // Every way the store's rows and files change: what clients and the console
  // ask for, bytes arriving on disk, and the two background jobs.
  datatype Transaction =
    | Client(op: Op)
    | StoreFile(d: Digest)
    | PurgeOne(slot: Slot, versionId: string)
    | PurgeAll(slot: Slot)
    | Reap(stale: seq<string>, failsAt: nat)
    | Sweep(claims: seq<(Digest, Option<ClaimFault>)>)

  function Reaped(t: Tables, stale: seq<string>): Tables {
    t.(uploads := map u | u in t.uploads && u !in stale :: t.uploads[u],
       parts := map k | k in t.parts && k.upload !in stale :: t.parts[k])
  }

  lemma ReapOneMore(t: Tables, stale: seq<string>, i: nat)
    requires i < |stale|
    ensures Reaped(t, stale[..i + 1]) == Abort(Reaped(t, stale[..i]), stale[i])
  {
    assert stale[..i + 1] == stale[..i] + [stale[i]];
  }

  // What a transaction makes of the tables and settings.
  ghost function Performed(w: World, tx: Transaction): World {
    match tx
    case Client(op) => Step(w, op)
    case PurgeOne(slot, versionId) =>
      w.(tables := match Purge(w.tables, slot, versionId) case Ok(t) => t case Err(_) => w.tables)
    case PurgeAll(slot) => w.(tables := PurgeKey(w.tables, slot))
    case Reap(stale, failsAt) => w.(tables := Reaped(w.tables, if failsAt < |stale| then stale[..failsAt] else stale))
    case _ => w
  }

  ghost function PerformedAll(w: World, txs: seq<Transaction>): World {
    if txs == [] then w else Performed(PerformedAll(w, txs[..|txs| - 1]), txs[|txs| - 1])
  }

  // What is certainly on disk afterwards, if that much was before: a sweep may
  // take whatever no row refers to.
  function OnDiskAfter(tx: Transaction, have: set<Digest>): set<Digest> {
    match tx
    case StoreFile(d) => have + {d}
    case Sweep(_) => {}
    case _ => have
  }

  // Every write's bytes are stored after the last sweep before it.
  predicate Fed(txs: seq<Transaction>, have: set<Digest>) {
    txs == [] || ((txs[0].Client? ==> OnDisk(txs[0].op, have)) && Fed(txs[1..], OnDiskAfter(txs[0], have)))
  }

  // The digest a transaction's write refers to.
  function Needed(tx: Transaction): Option<Digest> {
    match tx
    case Client(PutOp(_, data, _, _)) => Some(data.digest)
    case Client(CompleteOp(_, _, data, _, _)) => Some(data.digest)
    case Client(PutPartOp(_, part)) => Some(part.digest)
    case _ => None
  }

  // Its bytes are there when the i-th transaction runs: stored by an earlier one,
  // or on disk from the start, and no sweep since.
  predicate StoredFor(txs: seq<Transaction>, have: set<Digest>, i: nat, d: Digest)
    requires i <= |txs|
  {
    || (exists j :: 0 <= j < i && txs[j] == StoreFile(d) && forall k :: j < k < i ==> !txs[k].Sweep?)
    || (d in have && forall k :: 0 <= k < i ==> !txs[k].Sweep?)
  }

  lemma StoredOneOn(txs: seq<Transaction>, have: set<Digest>, i: nat, d: Digest)
    requires 1 <= i <= |txs|
    ensures StoredFor(txs, have, i, d) <==> StoredFor(txs[1..], OnDiskAfter(txs[0], have), i - 1, d)
  {
    var rest, have' := txs[1..], OnDiskAfter(txs[0], have);
    assert forall k :: 1 <= k < |txs| ==> txs[k] == rest[k - 1];
    if StoredFor(txs, have, i, d) {
      if j :| 0 <= j < i && txs[j] == StoreFile(d) && forall k :: j < k < i ==> !txs[k].Sweep? {
        if j > 0 {
          assert rest[j - 1] == StoreFile(d) && forall k :: j - 1 < k < i - 1 ==> !rest[k].Sweep?;
        }
      }
    }
    if StoredFor(rest, have', i - 1, d) {
      if j :| 0 <= j < i - 1 && rest[j] == StoreFile(d) && forall k :: j < k < i - 1 ==> !rest[k].Sweep? {
        assert txs[j + 1] == StoreFile(d) && forall k :: j + 1 < k < i ==> !txs[k].Sweep?;
      } else {
        assert d in have' && forall k :: 0 <= k < i - 1 ==> !rest[k].Sweep?;
        if d !in have {
          assert txs[0] == StoreFile(d);
        }
      }
    }
  }

  // Fed says no more and no less than that of every write.
  lemma {:induction false} FedIff(txs: seq<Transaction>, have: set<Digest>)
    ensures Fed(txs, have) <==> forall i :: 0 <= i < |txs| && Needed(txs[i]).Some? ==>
      StoredFor(txs, have, i, Needed(txs[i]).value)
    decreases |txs|
  {
    if txs != [] {
      var rest, have' := txs[1..], OnDiskAfter(txs[0], have);
      FedIff(rest, have');
      forall i | 1 <= i < |txs| && Needed(txs[i]).Some?
        ensures StoredFor(txs, have, i, Needed(txs[i]).value)
           <==> StoredFor(rest, have', i - 1, Needed(rest[i - 1]).value)
      {
        StoredOneOn(txs, have, i, Needed(txs[i]).value);
      }
      assert Needed(txs[0]).Some? ==> (StoredFor(txs, have, 0, Needed(txs[0]).value) <==> Needed(txs[0]).value in have);
      assert (txs[0].Client? ==> OnDisk(txs[0].op, have)) <==> (Needed(txs[0]).Some? ==> Needed(txs[0]).value in have);
      hide StoredFor, OnDisk, Needed, OnDiskAfter;
      FedStep(txs, have);
    }
  }

  lemma FedStep(txs: seq<Transaction>, have: set<Digest>)
    requires txs != []
    requires (txs[0].Client? ==> OnDisk(txs[0].op, have))
        <==> (Needed(txs[0]).Some? ==> StoredFor(txs, have, 0, Needed(txs[0]).value))
    requires forall i :: 1 <= i < |txs| && Needed(txs[i]).Some? ==>
      (StoredFor(txs, have, i, Needed(txs[i]).value)
       <==> StoredFor(txs[1..], OnDiskAfter(txs[0], have), i - 1, Needed(txs[1..][i - 1]).value))
    requires Fed(txs[1..], OnDiskAfter(txs[0], have)) <==>
      forall i :: 0 <= i < |txs[1..]| && Needed(txs[1..][i]).Some? ==>
        StoredFor(txs[1..], OnDiskAfter(txs[0], have), i, Needed(txs[1..][i]).value)
    ensures Fed(txs, have) <==> forall i :: 0 <= i < |txs| && Needed(txs[i]).Some? ==>
      StoredFor(txs, have, i, Needed(txs[i]).value)
  {
    hide StoredFor, OnDisk, Needed, OnDiskAfter;
    assert forall i :: 0 <= i < |txs[1..]| ==> txs[1..][i] == txs[i + 1];
  }

  // The row latest in time; of several, the one with the greatest row id.
  method Newest(rows: map<string, VersionRow>) returns (id: Option<string>)
    requires Ranked(rows)
    ensures id.None? <==> rows == map[]
    ensures id.Some? ==> IsNewest(rows, id.value)
  {
    var left := rows.Keys;
    id := None;
    while left != {}
      invariant left <= rows.Keys && (id.None? <==> left == rows.Keys)
      invariant id.Some? ==> id.value in rows && id.value !in left
      invariant forall k :: id.Some? && k in rows && k !in left && k != id.value ==> rows[k].Before(rows[id.value])
      decreases |left|
    {
      var k :| k in left;
      left := left - {k};
      if id.None? || rows[id.value].Before(rows[k]) {
        id := Some(k);
      }
    }
    if id.None? {
      assert rows.Keys == {};
    }
  }

  // The stored versions of a key that are not delete markers.
  ghost function ContentsOf(versions: map<VersionKey, VersionRow>, slot: Slot): set<VersionKey> {
    set k | k in versions && k.slot == slot && versions[k].body.Contents?
  }

  lemma PutObjects(t: Tables, slot: Slot, data: Data, state: VersioningState, ids: NewIds, now: int)
    ensures
      var r := Put(t, slot, data, state, ids, now);
      r.Ok? ==> r.value.objects == t.objects[slot := ObjectRow(data, if state.Enabled? then ids.version else "", now)]
  {
  }

  lemma DeleteRowIds(t: Tables, slot: Slot, state: VersioningState, ids: NewIds, now: int)
    requires RowIdsDistinct(t.versions)
    ensures Delete(t, slot, state, ids, now).Ok? ==> RowIdsDistinct(Delete(t, slot, state, ids, now).value.versions)
  {
    if Delete(t, slot, state, ids, now).Ok? {
      DeleteKeepsRowIds(t, slot, state, ids, now);
    }
  }

  lemma DropPurgedRow(t: Tables, slot: Slot, k: VersionKey)
    requires k in t.versions && k.slot == slot
    ensures
      var t1, body := t.(versions := t.versions - {k}), t.versions[k].body;
      && PurgeKey(t1, slot) == PurgeKey(t, slot)
      && |ContentsOf(t1.versions, slot)| == |ContentsOf(t.versions, slot)| - (if body.Contents? then 1 else 0)
      && forall d :: Refs(t1, d) == Refs(t, d) - One(DigestOf(body), d)
  {
    hide Refs, PurgeKey, ContentsOf;
    var t1 := t.(versions := t.versions - {k});
    PurgeAnyway(t, slot, k);
    DropContents(t.versions, slot, k);
    forall d ensures Refs(t1, d) == Refs(t, d) - One(DigestOf(t.versions[k].body), d) {
      RefsDropVersion(t, k, d);
    }
  }

  lemma PurgeAnyway(t: Tables, slot: Slot, k: VersionKey)
    requires k in t.versions && k.slot == slot
    ensures PurgeKey(t.(versions := t.versions - {k}), slot) == PurgeKey(t, slot)
  {
  }

  lemma DropContents(versions: map<VersionKey, VersionRow>, slot: Slot, k: VersionKey)
    requires k in versions && k.slot == slot
    ensures |ContentsOf(versions - {k}, slot)| == |ContentsOf(versions,
        slot)| - (if versions[k].body.Contents? then 1 else 0)
  {
    assert ContentsOf(versions - {k}, slot) == ContentsOf(versions, slot) - {k};
  }

  lemma ObjectIsHeld(t: Tables, slot: Slot)
    requires slot in t.objects
    ensures Refs(t, t.objects[slot].data.digest) > 0
  {
    RefsDropObject(t, slot, t.objects[slot].data.digest);
  }

  lemma VersionIsHeld(t: Tables, k: VersionKey)
    requires k in t.versions && t.versions[k].body.Contents?
    ensures Refs(t, t.versions[k].body.data.digest) > 0
  {
    RefsDropVersion(t, k, t.versions[k].body.data.digest);
  }
}
