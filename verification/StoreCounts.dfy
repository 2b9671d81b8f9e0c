// How each single-row change moves the number of rows that hold a digest.
module StoreCounts {
  import opened Outcomes
  import opened VersionHistory
  import opened StoreTables
  import opened Undelete

  function One(held: Option<Digest>, d: Digest): int {
    if held == Some(d) then 1 else 0
  }

  lemma HoldingUpdate<K, R(!new)>(rows: map<K, R>, k: K, row: R, digest: R -> Option<Digest>, d: Digest)
    ensures Holding(rows[k := row], digest, d) ==
      Holding(rows, digest, d) + One(digest(row), d) - (if k in rows then One(digest(rows[k]), d) else 0)
  {
    var before, more := Holders(rows, digest, d), rows[k := row];
    if digest(row) == Some(d) {
      assert Holders(more, digest, d) == before + {k};
    } else {
      assert Holders(more, digest, d) == before - {k};
    }
  }

  lemma HoldingRemove<K, R(!new)>(rows: map<K, R>, k: K, digest: R -> Option<Digest>, d: Digest)
    ensures Holding(rows - {k}, digest, d) ==
      Holding(rows, digest, d) - (if k in rows then One(digest(rows[k]), d) else 0)
  {
    assert Holders(rows - {k}, digest, d) == Holders(rows, digest, d) - {k};
  }

  lemma RefsPutObject(t: Tables, slot: Slot, row: ObjectRow, d: Digest)
    ensures Refs(t.(objects := t.objects[slot := row]), d) ==
      Refs(t, d) + One(ObjectDigest(row), d) - (if slot in t.objects then One(ObjectDigest(t.objects[slot]), d) else 0)
  {
    HoldingUpdate(t.objects, slot, row, ObjectDigest, d);
  }

  lemma RefsDropObject(t: Tables, slot: Slot, d: Digest)
    ensures Refs(t.(objects := t.objects - {slot}), d) ==
      Refs(t, d) - (if slot in t.objects then One(ObjectDigest(t.objects[slot]), d) else 0)
  {
    HoldingRemove(t.objects, slot, ObjectDigest, d);
  }

  lemma RefsPutVersion(t: Tables, k: VersionKey, row: VersionRow, d: Digest)
    requires k !in t.versions
    ensures Refs(t.(versions := t.versions[k := row]), d) == Refs(t, d) + One(VersionDigest(row), d)
  {
    HoldingUpdate(t.versions, k, row, VersionDigest, d);
  }

  lemma RefsDropVersion(t: Tables, k: VersionKey, d: Digest)
    ensures Refs(t.(versions := t.versions - {k}), d) ==
      Refs(t, d) - (if k in t.versions then One(VersionDigest(t.versions[k]), d) else 0)
  {
    HoldingRemove(t.versions, k, VersionDigest, d);
  }

  lemma RefsPutPart(t: Tables, k: PartKey, row: PartRow, d: Digest)
    ensures Refs(t.(parts := t.parts[k := row]), d) ==
      Refs(t, d) + One(PartDigest(row), d) - (if k in t.parts then One(PartDigest(t.parts[k]), d) else 0)
  {
    HoldingUpdate(t.parts, k, row, PartDigest, d);
  }

  lemma RefsDropPart(t: Tables, k: PartKey, d: Digest)
    ensures Refs(t.(parts := t.parts - {k}), d) ==
      Refs(t, d) - (if k in t.parts then One(PartDigest(t.parts[k]), d) else 0)
  {
    HoldingRemove(t.parts, k, PartDigest, d);
  }

  // Undoing a delete leaves every digest held by as many rows as before it.
  lemma UndeleteRestoresCounts(t: Tables, slot: Slot, undeletedAt: int, d: Digest)
    ensures Refs(Touched(t, slot, undeletedAt), d) == Refs(t, d)
  {
    if slot in t.objects {
      RefsPutObject(t, slot, t.objects[slot].(updatedAt := undeletedAt), d);
    }
  }

  // ------------------------------------------------------- an upload's parts

  ghost predicate Lists(t: Tables, upload: string, keys: seq<PartKey>) {
    && (forall i, j :: 0 <= i < j < |keys| ==> keys[i] != keys[j])
    && (forall k :: k in keys <==> k in t.parts && k.upload == upload)
  }

  function DigestsOf(parts: map<PartKey, PartRow>, keys: seq<PartKey>): seq<Digest>
    requires forall k :: k in keys ==> k in parts
  {
    if keys == [] then [] else [parts[keys[0]].digest] + DigestsOf(parts, keys[1..])
  }

  lemma {:induction false} DigestsIgnoreOthers(parts: map<PartKey, PartRow>, keys: seq<PartKey>, k: PartKey)
    requires forall j :: j in keys ==> j in parts
    requires k !in keys
    ensures DigestsOf(parts - {k}, keys) == DigestsOf(parts, keys)
  {
    if keys != [] {
      DigestsIgnoreOthers(parts, keys[1..], k);
    }
  }

  lemma ListsRest(t: Tables, upload: string, keys: seq<PartKey>)
    requires Lists(t, upload, keys) && keys != []
    ensures keys[0] in t.parts && keys[0] !in keys[1..]
    ensures Lists(t.(parts := t.parts - {keys[0]}), upload, keys[1..])
    ensures Abort(t.(parts := t.parts - {keys[0]}), upload) == Abort(t, upload)
  {
    var k, rest := keys[0], keys[1..];
    assert keys == [k] + rest;
    assert k in keys;
  }

  // Releasing each listed part once is what deleting the upload calls for.
  lemma {:induction false} RefsAbort(t: Tables, upload: string, keys: seq<PartKey>, d: Digest)
    requires Lists(t, upload, keys)
    ensures Refs(Abort(t, upload), d) + multiset(DigestsOf(t.parts, keys))[d] == Refs(t, d)
    decreases |keys|
  {
    if keys == [] {
      assert Abort(t, upload).parts == t.parts;
    } else {
      var k, rest := keys[0], keys[1..];
      ListsRest(t, upload, keys);
      hide Abort;
      var t1 := t.(parts := t.parts - {k});
      RefsAbort(t1, upload, rest, d);
      RefsDropPart(t, k, d);
      DigestsIgnoreOthers(t.parts, rest, k);
      hide Refs, Lists;
    }
  }
}
