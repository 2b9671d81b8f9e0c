// The history of one key as S3 describes it: a list of versions, newest first.
// Nothing here knows about tables; StoreRefinement proves that the two-table
// encoding behaves like these lists.
module VersionHistory {
  import opened Outcomes

  type Digest = string

  datatype VersioningState = Unversioned | Enabled | Suspended {
    predicate Configured() { this != Unversioned }

    // Enabled and Suspended are always reachable; Unversioned only from itself.
    function TransitionTo(next: VersioningState): (r: Result<VersioningState, string>)
      ensures r.Ok? ==> r.value == next
      ensures r.Err? <==> next == Unversioned && Configured()
    {
      if next == Unversioned && Configured() then
        Err("versioning cannot be turned off once it has been enabled")
      else
        Ok(next)
    }
  }

  const NULL_VERSION_ID := "null"

  datatype Data = Data(
    digest: Digest, size: nat, etag: string, contentType: string, metadata: map<string, string>)

  datatype Body = Contents(data: Data) | DeleteMarker

  datatype Version = Version(id: string, body: Body)

  type History = seq<Version>

  ghost predicate DistinctIds(h: History) {
    forall i, j :: 0 <= i < j < |h| ==> h[i].id != h[j].id
  }

  function Find(h: History, id: string): Option<Body> {
    if h == [] then None
    else if h[0].id == id then Some(h[0].body)
    else Find(h[1..], id)
  }

  predicate HasId(h: History, id: string) {
    Find(h, id).Some?
  }

  function Without(h: History, id: string): History {
    if h == [] then []
    else if h[0].id == id then Without(h[1..], id)
    else [h[0]] + Without(h[1..], id)
  }

  // What each S3 write means. Outside an enabled bucket there is one null
  // version per key, and a write replaces it.
  function Written(h: History, state: VersioningState, newId: string, data: Data): History {
    if state.Enabled? then [Version(newId, Contents(data))] + h
    else [Version(NULL_VERSION_ID, Contents(data))] + Without(h, NULL_VERSION_ID)
  }

  function Deleted(h: History, state: VersioningState, newId: string): History {
    match state
    case Enabled => [Version(newId, DeleteMarker)] + h
    case Suspended => [Version(NULL_VERSION_ID, DeleteMarker)] + Without(h, NULL_VERSION_ID)
    case Unversioned => Without(h, NULL_VERSION_ID)
  }

  // The versions that are not current. A delete marker on top is one of them.
  function Stored(h: History): History {
    if h != [] && h[0].body.Contents? then h[1..] else h
  }

  // What the console's restore does: the current version takes on the contents of
  // a stored one, which is recorded once more beneath it.
  function Restored(h: History, id: string, newId: string): History {
    match Find(Stored(h), id)
    case Some(Contents(data)) =>
      [Version(if Stored(h) == h then NULL_VERSION_ID else h[0].id, Contents(data)), Version(newId, Contents(data))]
        + Stored(h)
    case _ => h
  }

  lemma {:induction false} HasIdMeansSomewhere(h: History, id: string)
    ensures HasId(h, id) <==> exists i :: 0 <= i < |h| && h[i].id == id
  {
    if h != [] {
      HasIdMeansSomewhere(h[1..], id);
      assert forall i :: 0 < i < |h| ==> h[i] == h[1..][i - 1];
    }
  }

  lemma {:induction false} FindConcat(a: History, b: History, id: string)
    ensures Find(a + b, id) == if HasId(a, id) then Find(a, id) else Find(b, id)
  {
    if a == [] {
      assert a + b == b;
    } else {
      assert (a + b)[1..] == a[1..] + b;
      FindConcat(a[1..], b, id);
    }
  }

  // Removing one id leaves every other id's body where it was.
  lemma {:induction false} FindWithout(h: History, id: string, other: string)
    ensures Find(Without(h, id), other) == if other == id then None else Find(h, other)
  {
    if h != [] {
      FindWithout(h[1..], id, other);
    }
  }

  lemma {:induction false} WithoutAbsent(h: History, id: string)
    requires !HasId(h, id)
    ensures Without(h, id) == h
  {
    if h != [] {
      WithoutAbsent(h[1..], id);
    }
  }

  lemma {:induction false} WithoutConcat(a: History, b: History, id: string)
    ensures Without(a + b, id) == Without(a, id) + Without(b, id)
  {
    if a == [] {
      assert a + b == b;
    } else {
      assert (a + b)[1..] == a[1..] + b;
      WithoutConcat(a[1..], b, id);
    }
  }

  // A restore touches only the current version and the new one.
  lemma FindRestored(h: History, id: string, newId: string, other: string)
    requires other != newId && other != NULL_VERSION_ID
    requires Stored(h) != h ==> h[0].id != other
    ensures Find(Restored(h, id, newId), other) == Find(h, other)
  {
    if Find(Stored(h), id).Some? && Find(Stored(h), id).value.Contents? {
      var current := if Stored(h) == h then NULL_VERSION_ID else h[0].id;
      var body := Find(Stored(h), id).value;
      FindConcat([Version(current, body), Version(newId, body)], Stored(h), other);
    }
  }
}
