// The relational state of the object store, and what each committed transaction
// does to its rows. Reference counts are deliberately absent: Catalog proves
// that the step-by-step transactions reach these states and keep the counts
// equal to the number of rows.
module StoreTables {
  import opened Outcomes
  import opened VersionHistory

  datatype Slot = Slot(bucket: string, key: string)

  // A row of objects: the current version. versionId "" is the null version.
  datatype ObjectRow = ObjectRow(data: Data, versionId: string, updatedAt: int)

  // A row of object_versions, keyed by its UNIQUE (bucket, key, version_id). Its
  // primary key is a random id, of which only the order is seen.
  type RowId = nat
  datatype VersionKey = VersionKey(slot: Slot, id: string)
  datatype VersionRow = VersionRow(body: Body, createdAt: int, rowId: RowId) {
    // ORDER BY created_at, id.
    predicate Before(later: VersionRow) {
      createdAt < later.createdAt || (createdAt == later.createdAt && rowId < later.rowId)
    }
  }

  // What a transaction draws at random: a version id, and the ids of the row that
  // saves the current version and of the row it adds besides.
  datatype NewIds = NewIds(version: string, saved: RowId, added: RowId)

  datatype UploadRow = UploadRow(slot: Slot, contentType: string, metadata: map<string, string>)
  datatype PartKey = PartKey(upload: string, number: int)
  datatype PartRow = PartRow(digest: Digest, size: nat, etag: string)

  datatype Tables = Tables(
    objects: map<Slot, ObjectRow>,
    versions: map<VersionKey, VersionRow>,
    uploads: map<string, UploadRow>,
    parts: map<PartKey, PartRow>)

  datatype StoreError =
    | UniqueViolation      // a second row for one (bucket, key, version_id), or with one row id
    | ForeignKeyViolation  // a part of an upload that is gone
    | VersionNotFound
    | IsDeleteMarker

  type TablesResult = Result<Tables, StoreError>

  // The null version is "" in objects and "null" everywhere else.
  function ExternalId(stored: string): string {
    if stored == "" then NULL_VERSION_ID else stored
  }

  function InternalId(external: string): string {
    if external == NULL_VERSION_ID then "" else external
  }

  // -------------------------------------------------------- one key's rows

  function StoredRows(t: Tables, slot: Slot): map<string, VersionRow> {
    map k | k in t.versions && k.slot == slot :: k.id := t.versions[k]
  }

  ghost predicate IsNewest(rows: map<string, VersionRow>, id: string) {
    id in rows && forall other :: other in rows && other != id ==> rows[other].Before(rows[id])
  }

  // ------------------------------------------------------------ transactions

  // No row has that id.
  predicate Unused(versions: map<VersionKey, VersionRow>, id: RowId) {
    forall k :: k in versions ==> versions[k].rowId != id
  }

  // A primary key tells rows apart.
  ghost predicate RowIdsDistinct(versions: map<VersionKey, VersionRow>) {
    forall j, k :: j in versions && k in versions && j != k ==> versions[j].rowId != versions[k].rowId
  }

  predicate Insertable(versions: map<VersionKey, VersionRow>, k: VersionKey, id: RowId) {
    k !in versions && Unused(versions, id)
  }

  function InsertVersion(t: Tables, slot: Slot, id: string, row: VersionRow): TablesResult {
    if !Insertable(t.versions, VersionKey(slot, id), row.rowId) then Err(UniqueViolation)
    else Ok(t.(versions := t.versions[VersionKey(slot, id) := row]))
  }

  predicate Preserves(state: VersioningState, live: ObjectRow) {
    state.Enabled? || (state.Suspended? && live.versionId != "")
  }

  function Supersede(t: Tables, slot: Slot, state: VersioningState, ids: NewIds): TablesResult {
    if slot in t.objects && Preserves(state, t.objects[slot]) then
      var live := t.objects[slot];
      InsertVersion(t, slot, ExternalId(live.versionId), VersionRow(Contents(live.data), live.updatedAt, ids.saved))
    else
      Ok(t)
  }

  function IncomingId(state: VersioningState, ids: NewIds): string {
    if state.Enabled? then ids.version else ""
  }

  function Put(t: Tables, slot: Slot, data: Data, state: VersioningState, ids: NewIds, now: int): TablesResult {
    match Supersede(t, slot, state, ids)
    case Err(e) => Err(e)
    case Ok(t1) => Ok(t1.(objects := t1.objects[slot := ObjectRow(data, IncomingId(state, ids), now)]))
  }

  function MarkerId(state: VersioningState, ids: NewIds): string {
    if state.Enabled? then ids.version else NULL_VERSION_ID
  }

  // Preserves what was current and records a delete marker over it. Under
  // Suspended the marker takes the id null from whatever version held it.
  function Mark(t: Tables, slot: Slot, state: VersioningState, ids: NewIds, now: int): TablesResult {
    match Supersede(t, slot, state, ids)
    case Err(e) => Err(e)
    case Ok(t1) =>
      var t2 := if state.Suspended? then t1.(versions := t1.versions - {VersionKey(slot, NULL_VERSION_ID)}) else t1;
      InsertVersion(t2, slot, MarkerId(state, ids), VersionRow(DeleteMarker, now, ids.added))
  }

  function Delete(t: Tables, slot: Slot, state: VersioningState, ids: NewIds, now: int): TablesResult {
    match if state.Configured() then Mark(t, slot, state, ids, now) else Ok(t)
    case Err(e) => Err(e)
    case Ok(t1) => Ok(t1.(objects := t1.objects - {slot}))
  }

  // Moves the newest stored version of a key without a live row into objects,
  // unless it is a delete marker.
  ghost function Promote(t: Tables, slot: Slot, now: int): Tables {
    var rows := StoredRows(t, slot);
    if exists id :: IsNewest(rows, id) then
      var id :| IsNewest(rows, id);
      match rows[id].body
      case DeleteMarker => t
      case Contents(data) =>
        t.(objects := t.objects[slot := ObjectRow(data, InternalId(id), now)],
           versions := t.versions - {VersionKey(slot, id)})
    else t
  }

  ghost function DeleteVersion(t: Tables, slot: Slot, versionId: string, now: int): TablesResult {
    var stored := InternalId(versionId);
    if slot in t.objects && t.objects[slot].versionId == stored then
      Ok(Promote(t.(objects := t.objects - {slot}), slot, now))
    else
      var k := VersionKey(slot, ExternalId(stored));
      if k !in t.versions then Err(VersionNotFound)
      else
        var t1 := t.(versions := t.versions - {k});
        Ok(if slot in t.objects then t1 else Promote(t1, slot, now))
  }

  function GetVersion(t: Tables, slot: Slot, versionId: string): Result<Data, StoreError> {
    var stored := InternalId(versionId);
    if slot in t.objects && t.objects[slot].versionId == stored then Ok(t.objects[slot].data)
    else
      var k := VersionKey(slot, ExternalId(stored));
      if k !in t.versions then Err(VersionNotFound)
      else match t.versions[k].body
        case DeleteMarker => Err(IsDeleteMarker)
        case Contents(data) => Ok(data)
  }

  // ------------------------------------------------------ console operations

  // Copies a stored version over the live row, which keeps the id it had.
  function Restore(t: Tables, slot: Slot, versionId: string, ids: NewIds, now: int): TablesResult {
    var k := VersionKey(slot, versionId);
    if k !in t.versions || t.versions[k].body.DeleteMarker? then Err(VersionNotFound)
    else
      var data := t.versions[k].body.data;
      var liveId := if slot in t.objects then t.objects[slot].versionId else "";
      InsertVersion(t.(objects := t.objects[slot := ObjectRow(data, liveId, now)]),
                    slot, ids.version, VersionRow(Contents(data), now, ids.added))
  }

  function Purge(t: Tables, slot: Slot, versionId: string): TablesResult {
    var k := VersionKey(slot, versionId);
    if k !in t.versions then Err(VersionNotFound) else Ok(t.(versions := t.versions - {k}))
  }

  function PurgeKey(t: Tables, slot: Slot): Tables {
    t.(versions := map k | k in t.versions && k.slot != slot :: t.versions[k])
  }

  // --------------------------------------------------------------- multipart

  function PutPart(t: Tables, k: PartKey, part: PartRow): TablesResult {
    if k.upload !in t.uploads then Err(ForeignKeyViolation)
    else Ok(t.(parts := t.parts[k := part]))
  }

  // Deleting an upload row deletes its parts with it.
  function Abort(t: Tables, upload: string): Tables {
    t.(uploads := t.uploads - {upload},
       parts := map k | k in t.parts && k.upload != upload :: t.parts[k])
  }

  function Complete(t: Tables, upload: string, slot: Slot, data: Data, state: VersioningState, ids: NewIds, now: int)
    : TablesResult
  {
    match Put(t, slot, data, state, ids, now)
    case Err(e) => Err(e)
    case Ok(t1) => Ok(Abort(t1, upload))
  }

  // ---------------------------------------------------------------- counting

  function DigestOf(body: Body): Option<Digest> {
    match body
    case DeleteMarker => None
    case Contents(data) => Some(data.digest)
  }

  function ObjectDigest(row: ObjectRow): Option<Digest> { Some(row.data.digest) }

  function VersionDigest(row: VersionRow): Option<Digest> { DigestOf(row.body) }

  function PartDigest(row: PartRow): Option<Digest> { Some(row.digest) }

  // How many rows of one table hold d, for the given digest column.
  ghost function Holders<K, R(!new)>(rows: map<K, R>, digest: R -> Option<Digest>, d: Digest): set<K> {
    set k | k in rows && digest(rows[k]) == Some(d)
  }

  ghost function Holding<K, R(!new)>(rows: map<K, R>, digest: R -> Option<Digest>, d: Digest): nat {
    |Holders(rows, digest, d)|
  }

  // The number of rows that hold digest d: what blobs.refcount must equal.
  ghost function Refs(t: Tables, d: Digest): nat {
    Holding(t.objects, ObjectDigest, d) + Holding(t.versions, VersionDigest, d) + Holding(t.parts, PartDigest, d)
  }

  // ----------------------------------------------------- row ids stay distinct

  lemma InsertKeepsRowIds(t: Tables, slot: Slot, id: string, row: VersionRow)
    requires RowIdsDistinct(t.versions) && InsertVersion(t, slot, id, row).Ok?
    ensures RowIdsDistinct(InsertVersion(t, slot, id, row).value.versions)
  {
  }

  lemma FewerKeepRowIds(versions: map<VersionKey, VersionRow>, fewer: map<VersionKey, VersionRow>)
    requires RowIdsDistinct(versions) && fewer.Keys <= versions.Keys
    requires forall k :: k in fewer ==> fewer[k] == versions[k]
    ensures RowIdsDistinct(fewer)
  {
  }

  lemma PutKeepsRowIds(t: Tables, slot: Slot, data: Data, state: VersioningState, ids: NewIds, now: int)
    requires RowIdsDistinct(t.versions) && Put(t, slot, data, state, ids, now).Ok?
    ensures RowIdsDistinct(Put(t, slot, data, state, ids, now).value.versions)
  {
  }

  lemma DeleteKeepsRowIds(t: Tables, slot: Slot, state: VersioningState, ids: NewIds, now: int)
    requires RowIdsDistinct(t.versions) && Delete(t, slot, state, ids, now).Ok?
    ensures RowIdsDistinct(Delete(t, slot, state, ids, now).value.versions)
  {
    if state.Configured() {
      var t1 := Supersede(t, slot, state, ids).value;
      var t2 := if state.Suspended? then t1.(versions := t1.versions - {VersionKey(slot, NULL_VERSION_ID)}) else t1;
      InsertKeepsRowIds(t2, slot, MarkerId(state, ids), VersionRow(DeleteMarker, now, ids.added));
    }
  }

  lemma RestoreKeepsRowIds(t: Tables, slot: Slot, versionId: string, ids: NewIds, now: int)
    requires RowIdsDistinct(t.versions) && Restore(t, slot, versionId, ids, now).Ok?
    ensures RowIdsDistinct(Restore(t, slot, versionId, ids, now).value.versions)
  {
  }

  // A key's rows have distinct row ids, so one of them is the newest.
  ghost predicate Ranked(rows: map<string, VersionRow>) {
    forall a, b :: a in rows && b in rows && a != b ==> rows[a].rowId != rows[b].rowId
  }

  lemma KeyIsRanked(t: Tables, slot: Slot)
    requires RowIdsDistinct(t.versions)
    ensures Ranked(StoredRows(t, slot))
  {
  }
}
