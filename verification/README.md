# Verified model of a small S3 server

A Dafny model of the parts of the server where a mistake loses data or trust: the
versioned object store over reference-counted, content-addressed blobs, and the
algorithms around it. Run `dafny verify dfyconfig.toml` to check it.

**The store.** An object key has a current row in `objects` and the rest of its
versions in `object_versions`; multipart parts, versions and objects all hold
references on rows of `blobs`, and each of those stands for a file on disk.
`StoreTables` specifies every transaction on these tables as a function.
`VersionHistory` is what a client believes: one list of versions per key, newest
first. `StoreRefinement` and `StoreRuns` prove that the tables are that list in
every run, `Undelete` and `StoreFaults` say exactly when a delete can be undone, a
write is refused and a restore rebinds an id, and `StoreCounts` and the class
`Catalog.Database`, whose methods edit the tables step by step as the source does,
that counts equal references throughout. `MultipartRuns` follows parts and uploads
through such runs. `Collector` takes the garbage collector apart into lock, claim, unlink
and commit, interleaved with uploads and crashes.

**Listing.** `Listing` states what a delimiter listing is, `ListScan` is the scan that
skips whole folders, `ListingPages` puts its pages back together, and
`ScopedListing` compares what a narrowed and filtered listing shows with what the
caller's grant allows. `ListingApi` is the request and response around it, with
`ContinuationTokens`, and what a client that follows them collects.

**Bodies and blobs.** `Streams` is a connection that returns bytes in pieces of any
size. `ChunkFraming` is what aws-chunked input decodes to and its signature chain,
`ChunkGrammar` which input is well formed, `AwsChunked` the stateful reader, `Payloads` the choice of reader by payload hash.
`BlobStore` streams a body into the store with a fault possible at each operating
system step, `BlobRuns` interleaves such uploads with each other and with power
loss, and `MultipartAssembly` selects and joins parts.

**Signatures.** `Encoding` is percent-encoding (the unreserved set of section 2.3 of
RFC 3986) and the canonical query, `QueryOrder` the two ways its parameters get
sorted, `Queries` how a query is read, `SigV4` the canonical request, `Authorization` the header a signed request
carries, `Presign` presigned links and their checking.

**Operations.** `AlertProtocol` and `AlertEngine` are alerts announced under a
try-lock, `AlertRepeats` says when one can be announced again too soon, `Quantiles` is
the weighted percentile walk, `LiveWindow` the sixty-second ring.

`Bytes`, `Text`, `Sorting` and `Outcomes` serve the rest.

## Assumptions

- A database transaction is one atomic step, and a failed one is rolled back.
- Along a key, the clock moves strictly forward, and minted version ids and row ids are
  new. The database's `now()` is the time a transaction began, which is before it has
  the key's advisory lock (`internal/db/objects.go:74-86`): a transaction that began
  earlier and waited can write an earlier time, so the lock alone does not give this.
- Hash functions, HMAC, and the formatting and parsing of times are parameters.
  SHA-256 and HMAC are taken to be free of collisions only where a statement says
  so (`CollisionFree`, `HashesApart`), derived keys to sign apart and digests and times
  to be one line only where `Unambiguous` says so. `HashesCanBeApart` and
  `HashesCanBeTold` show that such functions exist.
- Keys are compared byte by byte, as the C collation and Go do.
- Integers are unbounded, except where a width matters: parsed sizes and counts are
  checked against int64, and the product of a presigned expiry and a second wraps.
- Weights are real numbers.
- A connection returns at least one byte per read until it ends.

## Where the code departs from what is promised of it

- A PUT or multipart completion under Suspended does not replace a stored null
  version, so a key can come to have two; once the bucket is enabled, writes and
  deletes of that key then fail (`PutRefines`, `PutDoublesNull`, `NullCollision`,
  `CollisionIsReachable`; exactly when is `EnabledWriteFailsIff`).
- A restore stamps the current row and the copy with one time. A later DELETE saves the
  current version under that time, and which of the two rows comes back when its marker
  is deleted is left to their random ids (`RestoredKeyComesBackAs`, `UndeleteIff`).
- A restore writes the restored contents under the current row's existing id, which
  then names other bytes than before (`RestoreRebinds`); `RestoreKeepsIds` says
  exactly when it does not.
- `internal/db/blobs.go:92-96` says the per-blob lock makes collection safe. An upload
  that deduplicates onto a file holds no lock until it retains it, and the file can
  be unlinked in between (`DanglingReference`). `RaceIsReachable` is such a run from an
  empty store, and `UnlinkSafeIffWindowClear` gives the exact condition.
- `internal/db/blobs.go:46-47` says a row of `blobs` asserts that the file exists. A claim
  whose commit fails after the unlink leaves a row at zero without one
  (`ClaimAndUnlink`); a row with a count always has its file (`LiveBytesOnDisk`).
- A key that sorts above its group followed by U+10FFFF makes that group appear again
  on later pages, and a page size of one never gets past it (`PagesCompleteIffTidy`,
  `EndlessPages`).
- `max-keys=0` lists up to 1000 entries (`NoKeysAskedForOneSent`); max-keys is a
  maximum exactly when it is at least one (`MaxKeysIsAMaximumIff`).
- Presign sorts `name=value` strings where the verifier sorts by name and then value:
  extra parameters such as `a` and `a-b` give a link that is never accepted
  (`DashedLinkNeverWorks`). It signs an extra parameter such as `x-amz-signature`,
  which the verifier leaves out of what it canonicalises (`LowerCaseLinkNeverWorks`).
  `LinkWorksIff` and `ShareLinkWorksIff` give the exact conditions. These are inputs of
  the exported function: its one caller outside tests, `internal/console/storage.go:442`,
  passes no extra parameters, and its links work (`PlainLinkWorksInItsWindow`).
- The check that `X-Amz-Expires` is at most seven days is made on its product with a
  second, which wraps: a stated 18446744074 seconds pass (`OverlongPassesIff`,
  `OverlongClaimPasses`). No request is accepted more than seven days after its date all
  the same (`VerifyPresigned`).
- Presign accepts an expiry under a second, although its error message speaks of one
  second as the least; such a link is accepted at no time (`SubSecondLinkNeverWorks`).
- The comment on `maxChunkHeaderSize` says the limit stops an unbounded header being
  read; `readLine` reads the whole line before it checks (`FloodIsReadWhole`). What it
  reads stays within the limit exactly when the next line feed, or the end of the
  stream, comes within it (`LineFitsIff`), and a call of `Read` holds no more than a
  chunk and a header line exactly when no line it has to read is longer than those.
- After a hash mismatch, a caller that reads the body again is told of a plain end
  (`Payloads.VerifyingReader.Read`). Put stops at the first error.
- An announcement whose recording fails is sent again on the next cycle
  (`UnmarkedSendsRepeat`); `RepeatsIff` says exactly when one can be repeated within
  the six hours.

## Model

| member | source | states |
|---|---|---|
| `VersionHistory.FindWithout` | internal/db/version_access.go:76-147 | removing one id from a history leaves every other id naming what it named |
| `StoreRefinement.NewestFirstIdsDistinct` | internal/db/current.go:59-101 | the stored rows of a key, newest first, hold each id once |
| `StoreRefinement.NewestFirstPush` | internal/db/current.go:83-100 | a row newer than all stored ones becomes the head of the history and moves nothing else |
| `StoreRefinement.NewestFirstRemove` | internal/db/version_access.go:110-139 | deleting a stored row takes exactly its id out of the history |
| `StoreRefinement.HistoryShape` | internal/db/current.go:18-24 | a key's history has distinct ids, each version in exactly one of the two tables, and no current row exactly when the newest entry is a delete marker or there is none |
| `StoreRefinement.FindInHistory` | internal/db/current.go:18-24 | looking an id up in the history agrees with looking it up in objects and then object_versions |
| `StoreRefinement.GetVersionAgrees` | internal/db/version_access.go:31-59 | GetObjectVersion answers from the two tables what the one history says, markers and missing ids included |
| `StoreRefinement.SupersedeLayout` | internal/db/current.go:59-101 | the current version is added to the stored rows of its key exactly where the state preserves it; objects stay as they are |
| `StoreRefinement.SupersededOrder` | internal/db/current.go:59-101 | with it saved there the stored rows, newest first, are the history that was exactly when its row outranks those it ties with on time |
| `StoreRefinement.PutRefines` | internal/db/objects.go:68-137 | a PUT acts on the history as S3 promises in each of the three states exactly when the version it saves outranks the rows it ties with and the bucket is enabled or the key stores no null version |
| `StoreRefinement.PutDoublesNull` | internal/db/objects.go:68-137 | the second excluded case: the PUT leaves two versions of the key both called null |
| `StoreRefinement.DeleteRefines` | internal/db/objects.go:189-265 | a DELETE adds the right marker, replaces the null version under Suspended, or removes the object, and keeps the rest of the history exactly when the version it saves outranks the rows it ties with |
| `StoreRefinement.PromoteKeepsHistory` | internal/db/version_access.go:159-206 | promotion moves the newest stored version into objects without changing the history |
| `StoreRefinement.DeleteCurrentRefines` | internal/db/version_access.go:96-108 | deleting the current version leaves the history without it, the next newest now current |
| `StoreRefinement.DeleteStoredRefines` | internal/db/version_access.go:110-139 | deleting a stored version leaves the history without it, and promotes only where no version is current |
| `StoreRefinement.DeleteVersionRefines` | internal/db/version_access.go:76-147 | DeleteObjectVersion removes exactly the named version, or reports that there is none |
| `StoreRefinement.RestoreRefines` | internal/db/versions.go:170-246 | a restore gives the current version the contents of the stored one and records them once more beneath it; it keeps the invariants exactly when the key has a current version or no stored null one |
| `StoreRuns.OtherKeysUntouched` | internal/db/objects.go:68-137 | a transaction on one key changes no row of another |
| `StoreRuns.StepRefines` | internal/db/objects.go:68-265 | each admissible transaction acts on every key as the abstract history does, and keeps the invariants |
| `StoreRuns.RunRefines` | internal/db/current.go:18-24 | in every admissible run of put, complete, delete, version delete, restore, multipart and versioning steps the two tables of each key are the abstract history |
| `StoreRuns.SomeDrawIsAdmissible` | internal/db/objects.go:68-137 | in every state a write to an enabled bucket and any delete have new ids and a time that make them admissible |
| `StoreRuns.NoTiesWithoutRestores` | internal/db/current.go:72-84 | a run without restores never leaves a tie, so that new ids and a forward clock make it admissible |
| `StoreRuns.VersionsAreImmutable` | internal/db/current.go:59-101 | a version id keeps its digest, size, ETag, type and metadata through every run until that id is deleted or another version is restored over it |
| `StoreRuns.ReadsAreStable` | internal/db/version_access.go:31-59 | GetObjectVersion of an id gives one answer in every later state until the id is deleted or restored over |
| `Undelete.UndeleteIff` | internal/db/version_access.go:76-206 | on any tables where it succeeds, DELETE on an enabled bucket and then deletion of the marker restores every table but for the current row's updated_at, or equally gives back the same version id, exactly when the saved row comes after every stored row by time and then row id |
| `Undelete.UndeleteIsIdentity` | internal/db/objects.go:209-264 | in the states of the run theorems that is a question of ties alone, and without ties the pair is the identity |
| `Undelete.UndeleteRestoresHistory` | internal/db/version_access.go:110-139 | after such a pair the history is what it was |
| `StoreCounts.UndeleteRestoresCounts` | internal/db/blobs.go:51-83 | after that pair every digest is held by as many rows as before |
| `StoreFaults.EnabledWriteFailsIff` | internal/db/current.go:83-100 | with new row ids, a write on an enabled bucket fails exactly when the current version's id is stored already or, for a DELETE, the marker's is or becomes so |
| `StoreFaults.NullCollision` | internal/db/current.go:83-100 | two null versions make every later write to the key under Enabled fail on the unique constraint |
| `StoreFaults.RestoredKeyComesBackAs` | internal/db/version_access.go:163-169 | two PUTs, a restore, a DELETE and the deletion of its marker, from an empty database: the version that was current comes back only if its saved row drew the greater id; otherwise the copy does |
| `StoreFaults.CollisionIsReachable` | internal/db/objects.go:68-137 | PUT, DELETE, PUT under Suspended followed by enabling reaches that state from an empty database |
| `StoreFaults.RestoreKeepsIds` | internal/db/versions.go:170-246 | a restore leaves every id naming what it named exactly when the current row already held the restored data, or there was none and no other null version is hidden, restored before or not |
| `StoreFaults.RestoreRebinds` | internal/db/versions.go:170-246 | two PUTs under Enabled and a restore of the first, from an empty database: the id of the second now names the contents of the first |
| `StoreCounts.HoldingUpdate` | internal/db/blobs.go:51-63 | writing one row moves the number of rows holding a digest by that row alone |
| `StoreCounts.RefsAbort` | internal/db/multipart.go:293-307 | releasing each part of an upload once accounts for all the references the upload held |
| `Catalog.Database.LiveBytesOnDisk` | internal/db/blobs.go:97-155 | in a valid state every digest some row refers to has its file |
| `Catalog.Database.RetainBlob` | internal/db/blobs.go:51-63 | the row is created with one reference or gains one, keeping its size |
| `Catalog.Database.ReleaseBlob` | internal/db/blobs.go:69-83 | one reference is given up; a count at zero or a missing row is counted as a clamp |
| `Catalog.Database.ClaimAndUnlink` | internal/db/blobs.go:125-155 | only a blob whose count is zero loses its row and its file; a failed unlink changes nothing, and every row keeps its file exactly unless it is the commit after the unlink that fails |
| `Catalog.Database.SweepUnreferenced` | internal/db/blobs.go:97-123 | a sweep takes listed blobs that no row refers to and nothing else, every one of them whose claim does not fail, and keeps counts equal to references |
| `Catalog.Database.PutObject` | internal/db/objects.go:68-137 | the object becomes the one sent, the tables what the PUT transaction specifies, counts equal references, no clamp is taken, and a failure changes nothing |
| `Catalog.Database.DeleteObject` | internal/db/objects.go:189-265 | likewise for DELETE in the three versioning states, with the marker id it reports |
| `Catalog.Database.DeleteObjectVersion` | internal/db/version_access.go:76-147 | likewise for deleting a version, promotion included |
| `Catalog.Newest` | internal/db/version_access.go:163-177 | the row of the latest time and then the greatest row id, whenever there is a row |
| `Catalog.Database.PromoteNewestVersion` | internal/db/version_access.go:159-206 | the newest stored version moves into objects with its reference, unless it is a marker |
| `Catalog.Database.SupersedeCurrent` | internal/db/current.go:59-101 | the current version is recorded as history exactly where the state preserves it |
| `Catalog.Database.ReplaceNullVersion` | internal/db/current.go:109-127 | the stored null version and its reference go, and nothing else |
| `Catalog.Database.GetObjectVersion` | internal/db/version_access.go:31-59 | reads the two tables as the specification of a version lookup does |
| `Catalog.Database.RestoreVersion` | internal/db/versions.go:170-246 | a restore keeps counts equal to references and rolls back whole on a conflict |
| `Catalog.Database.PurgeVersion` | internal/db/versions.go:249-274 | exactly the named stored row goes, if there is one, with its reference |
| `Catalog.Database.PurgeKeyVersions` | internal/db/versions.go:278-318 | every stored version of the key goes with its reference, and the number purged is returned |
| `Catalog.Database.PutMultipartPart` | internal/db/multipart.go:111-156 | where the upload exists the row of that number becomes exactly the part sent, size and ETag with the digest, and both references are balanced; otherwise it is refused and nothing changes |
| `Catalog.Database.CompleteMultipartUpload` | internal/db/multipart.go:211-275 | completion makes the assembled blob the current version and takes the upload and exactly its parts away, releasing each reference, in one transaction |
| `Catalog.Database.AbortMultipartUpload` | internal/db/multipart.go:278-289 | an abort removes the upload and exactly its parts and releases each reference |
| `Catalog.Database.ReapAbandonedUploads` | internal/db/multipart.go:314-345 | reaping aborts the listed uploads one by one up to the first abort that fails, and reports how many went |
| `Catalog.Database.SetVersioning` | internal/db/versioning_state.go:50-63 | Enabled and Suspended can always be set; once set, a bucket never goes back to unversioned |
| `Catalog.Database.Execute` | internal/db/objects.go:68-265 | each put, completion, delete, version delete, restore, versioning change, part and abort is one step of the run model |
| `Catalog.Database.Replay` | internal/db/blobs.go:51-83 | any sequence of those ends where the run model says, with counts equal to references and no clamp taken |
| `Catalog.Database.Perform` | internal/db/versions.go:249-318 | each of those, a purge of one or all versions, a reap, a sweep with any faults and the arrival of a blob does to tables and settings what is specified, keeps counts equal to references and every referenced file, and takes no clamp |
| `Catalog.Database.ReplayAll` | internal/db/blobs.go:51-155 | any sequence of all of them, with no condition on it, until a write whose bytes are not on disk: counts equal references, no clamp is taken, every referenced byte is on disk, and the tables are the fold of the transactions; a run that stores the bytes of each write after the last sweep before it gets to its end |
| `Catalog.FedIff` | internal/db/blobs.go:97-155 | the condition for a run to get to its end, said of every write: its bytes were stored before it, or were there, with no sweep since |
| `MultipartRuns.LastPartPutIsStored` | internal/db/multipart.go:138-147 | wherever in a run a part is put, it stands as sent until its number is put again or its upload completed, aborted or reaped |
| `MultipartRuns.NoPartOutlivesItsUpload` | internal/db/multipart.go:293-307 | in every run every part belongs to an upload, so none is left once its upload is gone |
| `Collector.GuardedStepKeepsInv` | internal/db/blobs.go:125-155 | locking, claiming, unlinking, retaining, committing and crashing all keep the collector's invariant, given the guard |
| `Collector.GuardedRunsAreSafe` | internal/db/blobs.go:92-155 | in every interleaving of uploaders, copiers, releasers and sweepers, each committed reference has its file, provided no unlink happens between another process obtaining the digest and locking it |
| `Collector.CountsAreConserved` | internal/db/blobs.go:51-155 | along every guarded run a count changes by the references committed less those given up, whatever sweeps and crashes come between |
| `Collector.CrashOnlyFrees` | internal/db/blobs.go:125-155 | a crash leaves files and committed rows as they are and frees the lock it held |
| `Collector.UnlinkSafeIffWindowClear` | internal/db/blobs.go:92-96 | that guard is exact: an unlink can only be followed by safe states if and only if no process sits in the window |
| `Collector.DanglingReference` | internal/storage/blobstore.go:171-195 | the race the locks allow: a deduplicated upload retains a blob whose file has just been unlinked |
| `Collector.RaceIsReachable` | internal/db/blobs.go:97-155 | guarded steps from an empty store reach a state where the next unlink is followed by a committed reference without its file |
| `Listing.PrefixUpperBound` | internal/db/listing.go:208-219 | the loop computes the bound that increments the last byte below 0xFF |
| `Listing.RangeIsPrefix` | internal/db/listing.go:172-219 | the half-open range holds exactly the keys with the prefix; for a prefix of 0xFF bytes only, exactly those below prefix + U+10FFFF |
| `Listing.GroupIff` | internal/db/listing.go:150-166 | a key's group is exactly what it starts with through the first delimiter past the prefix |
| `Listing.GroupIsPrefix` | internal/db/listing.go:155-165 | a group is a prefix of its key and starts with the listing prefix |
| `Listing.GroupOfExtends` | internal/db/listing.go:155-165 | every key that starts with a group belongs to that group and no other |
| `Listing.EntriesOrdered` | internal/db/listing.go:136-148 | keys in order have entries, and resume cursors, in order |
| `Listing.WalkMembers` | internal/db/listing.go:54-125 | the grouped listing holds exactly the entries of the keys |
| `Listing.WalkAscending` | internal/db/listing.go:54-125 | it is strictly ascending by name, so each entry appears once |
| `Listing.SkipGroup` | internal/db/listing.go:40-46 | jumping the cursor past a listed group, forwards or back, changes nothing that is still to be listed |
| `Listing.SelectedIsAfter` | internal/db/listing.go:172-203 | the filtered range query is the keys of the prefix after the cursor |
| `Listing.WalkResumes` | internal/db/listing.go:136-148 | what follows the m-th entry is the listing from its cursor that passes over the groups already listed |
| `ListScan.PreviousCursorIsLast` | internal/db/listing.go:136-148 | previousCursor finds the cursor of the entry emitted last from the two result lists alone |
| `ListScan.NoneToSkip` | internal/db/listing.go:80-84 | no key of a listed group ever follows an object emitted after it |
| `ListScan.ListObjects` | internal/db/listing.go:54-125 | on any keys, prefix, delimiter, cursor and max-keys the scan returns exactly the first entries of the sorted, grouped listing, marked truncated exactly when keys remain, terminates, and on tidy keys makes at most one query per common prefix and two more |
| `ListScan.NoKeysAskedForOneSent` | internal/db/listing.go:55-58 | a request for no keys is given the limit of 1000, and on a bucket of one key gets that key |
| `ListScan.MaxKeysIsAMaximumIff` | internal/db/listing.go:55-58 | every page of every listing holds at most max-keys entries exactly when max-keys is at least one |
| `ListingPages.EntriesAreTheListing` | internal/db/listing.go:48-53 | the specification: the keys past the start outside any group and the groups of the others, once each, ascending |
| `ListingPages.TruncatedMeansMore` | internal/db/listing.go:100-113 | a truncated page is followed by a page that is not empty; on tidy keys it is truncated exactly when more entries exist than it holds |
| `ListingPages.PagesAreTheListing` | internal/db/listing.go:54-125 | following cursors with any page size gives the whole listing, each entry once and in order, and stops |
| `ListingPages.UntidyNeverFinishes` | internal/db/listing.go:40-46 | a key above its group + U+10FFFF makes a page size of one loop for ever |
| `ListingPages.PagesCompleteIffTidy` | internal/db/listing.go:40-125 | pagination is complete for every page size from 1 to 1000 exactly when no key sorts above its group + U+10FFFF |
| `ListingPages.EndlessPages` | internal/db/listing.go:40-46 | one bucket with one such key on which the pages never end |
| `ScopedListing.WholeBucketMeansEveryKey` | internal/db/grants.go:107-136 | AllowsWholeBucket is permission on every possible key, AllowsAnywhereIn on some key |
| `ScopedListing.ReadablePrefixes` | internal/db/grants.go:162-181 | nil exactly when the whole bucket is readable, otherwise each readable prefix once |
| `ScopedListing.ListingLimitFor` | internal/s3api/authorize.go:149-160 | the limit is everything for an anonymous caller and the readable prefixes otherwise |
| `ScopedListing.LimitIsGrant` | internal/s3api/authorize.go:168-178 | the filter on a listed key is the grant's own decision on reading it |
| `ScopedListing.NarrowLosesNothing` | internal/s3api/authorize.go:209-218 | the narrowed scan contains every key with the requested prefix that the caller may see |
| `ScopedListing.NarrowedPagesAreWhole` | internal/s3api/authorize.go:199-218 | the one prefix a caller may read is scanned alone, and nothing is taken out of any page |
| `ScopedListing.FolderIsShownIff` | internal/s3api/authorize.go:180-197 | a folder is shown exactly when the caller could read some key in it |
| `ScopedListing.PageHolds` | internal/db/listing.go:54-125 | a page holds keys of the bucket past the start with the prefix, and folders of such keys |
| `ListingApi.HandleListObjects` | internal/s3api/listing.go:46-162 | a V1 response lists only keys past the marker, a V2 one past the cursor of its token whatever start-after says, or past start-after without one; all of them in the bucket, with the prefix asked for and readable by the caller; the response echoes the request, counts itself and carries a next token or marker exactly when truncated; a bad max-keys or token is refused |
| `ScopedListing.FilterCommutes` | internal/s3api/listing.go:97-138 | filtering each page is filtering the merged pages, and finishes when they do |
| `ScopedListing.ScopedListingIsTheGrant` | internal/s3api/listing.go:59-138 | without a delimiter, all pages show in order exactly the keys with the requested prefix that the grant allows the caller to read, for any page size and with or without narrowing |
| `ContinuationTokens.TokenRoundTrip` | internal/s3api/listing.go:16-40 | a token decodes to the cursor it was made from, and only the empty cursor has the empty token |
| `ContinuationTokens.DecodesIff` | internal/s3api/listing.go:31-40 | a token is accepted exactly when its characters are of the alphabet and of a possible number, line breaks aside, which change nothing |
| `ListingApi.TokenNeedsNoEscape` | internal/s3api/listing.go:14-24 | a token stands in a query as it is |
| `ListingApi.NextRequestResumes` | internal/s3api/listing.go:68-86 | the request built from a truncated response starts exactly where its page ended, by token or marker, url-encoded or not |
| `ListingApi.BrowsingFollowsThePages` | internal/s3api/listing.go:46-162 | from wherever its marker, token or start-after says, what a client collects, decoding what it is sent, is the merged pages |
| `ListingApi.ClientsSeeTheirGrant` | internal/s3api/listing.go:46-162 | so every client, of either version, with any start, page size and spelling, ends up with exactly the keys past its start with its prefix that its grant allows it to read, in order |
| `ChunkFraming.SignedDataIsVerified` | internal/s3api/chunked.go:167-234 | on any input at all, everything a signed stream delivers is chunk data verified along the chain from the request signature |
| `ChunkFraming.SixLines` | internal/s3api/chunked.go:217-227 | the text a chunk signature is over splits into the scheme's six lines, in its order |
| `ChunkFraming.SignaturesApart` | internal/s3api/chunked.go:217-234 | if HMAC and digest repeat no value and digests are one line, a signature determines both the data and the signature before it |
| `ChunkFraming.HashesCanBeApart` | internal/s3api/chunked.go:217-234 | there are functions that meet those hypotheses |
| `ChunkFraming.OnlyAPrefix` | internal/s3api/chunked.go:217-234 | if HMAC and digest repeat no value and digests are one line, and every accepted signature is one the sender made, the accepted chunks are the sender's, in order, from the first |
| `ChunkFraming.TamperingOnlyTruncates` | internal/s3api/chunked.go:214-234 | so, under those hypotheses, whatever is done to the stream, what is delivered is the sender's payload up to some chunk |
| `ChunkFraming.RoundTrip` | internal/s3api/chunked.go:103-290 | every split of a payload into chunks of 1 byte to 16 MiB with in-limit trailers decodes to that payload and then EOF, signed or unsigned |
| `ChunkFraming.SizeParses` | internal/s3api/chunked.go:173-181 | a written chunk size parses back |
| `ChunkFraming.HeaderSays` | internal/s3api/chunked.go:167-194 | a size in range is a header by itself or before a semicolon; a signed stream needs its signature after it, an unsigned one ignores what follows |
| `ChunkFraming.SignatureFromIff` | internal/s3api/chunked.go:236-245 | a signature is read from exactly its name, an equals sign and something after it, white space around aside |
| `ChunkFraming.TrailersIff` | internal/s3api/chunked.go:252-270 | trailer lines are accepted exactly when they keep within the limit together |
| `ChunkGrammar.ReadToTheEndIff` | internal/s3api/chunked.go:103-290 | a stream comes to an ordinary end having delivered some data exactly when it is laid out as chunks of that data, each announced, terminated and, where signed, signed over the one before, up to a boundary or a proper last chunk |
| `Text.LineEndTrimmed` | internal/s3api/chunked.go:289 | what is trimmed from a line is every line feed and carriage return at its end, and no more |
| `Text.HexNumbers` | internal/s3api/chunked.go:174 | a size is its hexadecimal digits after a sign or none, if an int64 holds it |
| `Text.OnlyHexNumbers` | internal/s3api/chunked.go:174 | and nothing else is a size |
| `AwsChunked.Copy` | internal/s3api/chunked.go:112-114 | a copy into a buffer moves as much as fits and touches no other byte |
| `AwsChunked.ChunkedReader.constructor` | internal/s3api/chunked.go:86-101 | a new reader will deliver what the whole stream decodes to |
| `ChunkFraming.LineFitsIff` | internal/s3api/chunked.go:273-290 | the line that is read whole is within a limit exactly when its line feed or the end of the stream comes within that limit |
| `ChunkFraming.FloodIsReadWhole` | internal/s3api/chunked.go:273-290 | for every n above the header limit there is a stream whose first line is read to its n-th byte and only then refused |
| `AwsChunked.ChunkedReader.ReadLine` | internal/s3api/chunked.go:273-290 | a line is read as the grammar says, with its four ways of failing, and all of it is held before its length is looked at |
| `AwsChunked.ChunkedReader.ReadHeader` | internal/s3api/chunked.go:167-187 | the next line as a header, or why it is none |
| `AwsChunked.ChunkedReader.BufferChunk` | internal/s3api/chunked.go:188-196 | a signed chunk is kept exactly when all of it came and its signature chains |
| `AwsChunked.ChunkedReader.MakeReady` | internal/s3api/chunked.go:183-212 | the chunk a header announces is readied as its framing and size say, or the stream ends |
| `AwsChunked.ChunkedReader.NextChunk` | internal/s3api/chunked.go:167-212 | a header is consumed and its chunk readied without changing what will be delivered; a signed chunk only after verification |
| `AwsChunked.ChunkedReader.VerifyChunk` | internal/s3api/chunked.go:217-234 | accepts exactly the signature of the six lines prefix, timestamp, scope, previous signature, digest of nothing, digest of the data, and only then advances the chain |
| `AwsChunked.ChunkedReader.ConsumeTrailers` | internal/s3api/chunked.go:252-270 | the trailer section ends as its grammar says |
| `AwsChunked.ChunkedReader.Deliver` | internal/s3api/chunked.go:111-120 | a verified chunk is delivered in pieces without loss |
| `AwsChunked.ChunkedReader.Pass` | internal/s3api/chunked.go:122-138 | an unsigned chunk is passed through a connection that may return any number of bytes |
| `AwsChunked.ChunkedReader.Read` | internal/s3api/chunked.go:103-151 | for every buffer size and every short read the bytes returned followed by what remains are what remained before; after an error or EOF nothing remains and the same answer comes back; a call holds at most a chunk and a header line at once exactly when no line it has to read is longer than those together |
| `AwsChunked.ChunkedReader.ReadPieces` | internal/s3api/chunked.go:103-151 | any sequence of calls with any buffers returns the stream from where it stood, in order |
| `AwsChunked.ChunkedReader.DeliveredIsVerified` | internal/s3api/chunked.go:103-234 | all that any sequence of calls has delivered of a signed stream is a prefix of data verified along the chain |
| `AwsChunked.ChunkedReader.ReadAll` | internal/s3api/chunked.go:103-151 | reading to the end yields exactly the decoded stream and its ending |
| `Payloads.VerifyingReader.Read` | internal/s3api/verify.go:242-254 | the end of the body is reported as EOF only if the hash of everything read is the declared one; a failure is told again to a caller that reads on exactly when it is not a mismatch |
| `Payloads.ReadBody` | internal/s3api/verify.go:160-174 | whichever of the three bodies it is, bytes are delivered in order and the ending is theirs |
| `Payloads.OpenBody` | internal/s3api/verify.go:160-174 | each of the named payload hashes selects its reader, and a 64-digit hash, in either case, is checked at the end of the body |
| `Payloads.TrustIsEarned` | internal/s3api/verify.go:176-193 | a body read to its end without error has the digest TrustedContentSHA256 reports |
| `Payloads.CapitalsAreAccepted` | internal/s3api/verify.go:186-193 | a digest declared in capitals is accepted, and trusted in small letters |
| `BlobStore.Store.CopyWithContext` | internal/storage/blobstore.go:287-315 | on success the file and the hashes hold exactly the body, which ended without error |
| `BlobStore.Store.Fill` | internal/storage/blobstore.go:130-195 | between creating the upload file and cleaning up, a fault at any step leaves the blobs as they were or with the one complete new blob |
| `BlobStore.Store.Commit` | internal/storage/blobstore.go:166-195 | the upload file goes to its digest's path unless something is there; a rename that fails because a rival's upload of the same bytes landed first is a success |
| `BlobStore.Store.Put` | internal/storage/blobstore.go:111-195 | success means digest, ETag and size are those of exactly the bytes read, stored complete under that digest, and that no step before the rename failed; a body that does not end cleanly changes no blob, nothing unsynced reaches a digest's path, and no fault leaves anything else behind |
| `BlobStore.Store.Receive` | internal/s3api/multipart.go:156-167 | an upload is stored under its own digest whether it was hashed here or checked by the body's reader |
| `BlobStore.Store.Open` | internal/storage/blobstore.go:200-212 | a malformed digest, an absent blob and any other failure to open are told apart |
| `BlobStore.DigestIff` | internal/storage/blobstore.go:333-345 | a well-formed digest is the small-letter hexadecimal text of 32 bytes |
| `BlobStore.Store.Concat` | internal/storage/blobstore.go:352-377 | the new blob is the named blobs joined in order, and no existing blob changes |
| `BlobRuns.StepKeepsInv` | internal/storage/blobstore.go:111-195 | each step of an upload, a torn write, a failed cleanup, a removal and a power loss keep every blob intact |
| `BlobRuns.BlobsAreAlwaysIntact` | internal/storage/blobstore.go:135-195 | at every point of every interleaving, crashes included, a file at a digest's path is synced, complete and has that digest |
| `BlobRuns.UploadsAreDurable` | internal/storage/blobstore.go:111-195 | from any such state an upload that runs through leaves its bytes under their digest, and a power loss right after takes neither them nor any other blob away |
| `MultipartAssembly.FaultlessIff` | internal/s3api/multipart.go:341-373 | the part-by-part checks pass exactly on strictly ascending, uploaded, ETag-matching lists whose parts before the last reach 5 MiB |
| `MultipartAssembly.SelectParts` | internal/s3api/multipart.go:341-373 | accepts exactly strictly ascending lists of uploaded parts with matching ETags, all but the last of five megabytes, and returns their parts in order; otherwise reports the first fault |
| `MultipartAssembly.QuotesAreOptional` | internal/s3api/multipart.go:422-427 | an ETag is compared without its quotes, sent or not |
| `MultipartAssembly.ByNumberIs` | internal/s3api/multipart.go:207-210 | every uploaded part is found under its number, and nothing else is |
| `MultipartAssembly.CompositeETag` | internal/s3api/multipart.go:381-395 | the MD5 of the parts' hash bytes, a dash and the count |
| `MultipartAssembly.CompositeHashesRawDigests` | internal/s3api/multipart.go:375-395 | hex ETags contribute their raw bytes |
| `Text.HexDecodeIff` | internal/s3api/multipart.go:384 | what decodes is exactly the hexadecimal text of some bytes, its letters in either case |
| `MultipartAssembly.SizesAddUp` | internal/s3api/multipart.go:224-242 | the joined blobs are as long as the recorded sizes together |
| `MultipartAssembly.Assemble` | internal/s3api/multipart.go:185-242 | the object is the selected parts joined in order under the composite ETag; the size check cannot fail on consistent rows; and an acceptable list of present parts succeeds when nothing fails |
| `Encoding.UriEncode` | internal/s3api/encoding.go:15-32 | the loop encodes every byte outside the unreserved set |
| `Encoding.PercentDecode` | internal/s3api/encoding.go:109-132 | the loop decodes each escape or reports a bad one |
| `Encoding.DecodeEncoded` | internal/s3api/encoding.go:15-132 | decoding an encoded string gives it back, for every byte string and both slash settings |
| `Encoding.EncodedByteIs` | internal/s3api/encoding.go:15-43 | a letter, digit, -, _, . or ~ stands for itself, and a slash where asked; any other byte is a percent sign and two digits, the letters capital |
| `Encoding.SettingsAgreeIff` | internal/s3api/encoding.go:15-32 | the two slash settings agree exactly on strings without a slash |
| `Encoding.DecodesIff` | internal/s3api/encoding.go:109-132 | a string decodes exactly when two hexadecimal digits follow every percent sign |
| `Encoding.CanonicalQuery` | internal/s3api/encoding.go:55-104 | the loop computes the canonical query |
| `Encoding.PairSays` | internal/s3api/encoding.go:62-84 | a pair is cut at its first equals sign, a bare name has the empty value, and what does not decode is taken as it is |
| `Encoding.KeptIff` | internal/s3api/encoding.go:62-84 | every pair that is not empty counts, unless its name is excluded |
| `Encoding.CanonicalKeepsParams` | internal/s3api/encoding.go:45-104 | the canonical query carries exactly the decoded parameters that were kept |
| `Encoding.CanonicalIffSameParams` | internal/s3api/encoding.go:45-104 | two queries have the same canonical form exactly when they have the same decoded parameters, in any order and spelling |
| `Encoding.CanonicalIsIdempotent` | internal/s3api/encoding.go:45-104 | canonicalising again changes nothing |
| `Sorting.SortUnique` | internal/s3api/encoding.go:86-91 | sorting is determined by the multiset sorted |
| `QueryOrder.OrdersAgreeIff` | internal/s3api/presign.go:186-192 | sorting name=value strings and sorting by name then value agree exactly when no encoded name extends another with a byte below "=" |
| `QueryOrder.SignedIsCanonicalIff` | internal/s3api/presign.go:186-192 | the query Presign signs is the one the server canonicalises exactly in that case |
| `SigV4.CredentialRoundTrip` | internal/s3api/sigv4.go:172-187 | a credential of slash-free parts parses back |
| `SigV4.CredentialIff` | internal/s3api/sigv4.go:172-187 | a credential is read from exactly one text: an id and, in order, date, region, service and aws4_request, none empty |
| `SigV4.KeyFollowsScope` | internal/s3api/sigv4.go:295-300 | the signing key is the HMACs chained through the parts of the scope as it is written |
| `SigV4.FourLines` | internal/s3api/sigv4.go:281-289 | the string to sign splits into algorithm, time, scope and digest |
| `SigV4.SortedNames` | internal/s3api/sigv4.go:323-330 | the signed header names are the client's in small letters, each as often as sent, in order |
| `SigV4.NameIs` | internal/s3api/sigv4.go:323-330 | a signed header name counts without the white space around it and in small letters |
| `SigV4.Readings` | internal/s3api/encoding.go:164-184 | the path as transmitted is tried first, then this server's own encoding of it, and nothing else |
| `Authorization.ParseAuthorization` | internal/s3api/sigv4.go:112-159 | accepts exactly the headers whose every component is well formed and that carry all three, in any order and spacing, the last of a repeated one counting |
| `Authorization.LastOfIff` | internal/s3api/sigv4.go:124-151 | of several components with one key the last counts |
| `Authorization.UnknownIsIgnored` | internal/s3api/sigv4.go:124-151 | a component with an unknown key makes no difference, wherever it stands |
| `Authorization.HeaderRoundTrip` | internal/s3api/sigv4.go:98-159 | the header a client writes is read back as the credential, header names and signature it was written from |
| `SigV4.TrimHeaderValue` | internal/s3api/sigv4.go:251-277 | the loop collapses runs of spaces outside quotes |
| `SigV4.CollapsedIsIdentity` | internal/s3api/sigv4.go:252-255 | returning early without a double space loses nothing |
| `SigV4.HeaderValueIs` | internal/s3api/sigv4.go:251-277 | a value is signed without the white space around it and without each space that follows a space with an even number of quotes before it, and otherwise as it is |
| `Text.SpaceTrimmed` | internal/s3api/sigv4.go:252 | white space goes from both ends and nothing else goes, and what is left neither starts nor ends with any |
| `Text.SpaceRuneIff` | internal/s3api/sigv4.go:252 | white space is the UTF-8 of the code points with that Unicode property |
| `SigV4.HostHeaderOnly` | internal/s3api/sigv4.go:227-246 | signing only host makes the canonical headers independent of every other header |
| `SigV4.CanonicalRequestIsInjective` | internal/s3api/sigv4.go:199-219 | a canonical request determines verb, path, query and the rest |
| `SigV4.HeadersAreSigned` | internal/s3api/sigv4.go:199-246 | equal blocks of canonical headers hold the same names in order, each over the same value: the host, or all the values of that header |
| `Presign.Presign` | internal/s3api/presign.go:156-201 | succeeds exactly for an expiry above zero and at most seven days and a URL with a scheme and a host; the link's path decodes to /bucket/key, and for a bucket without a slash is the one encoding of it the server tries; its parameters and the extra ones are signed |
| `Presign.EndpointIff` | internal/s3api/presign.go:205-215 | scheme and host are what stands before the first :// and between it and the next slash or the end, the port with the host |
| `Presign.PathDecodes` | internal/s3api/presign.go:173 | whatever bucket and key are, the path of the link decodes to that object's |
| `Presign.PathIsEncoded` | internal/s3api/presign.go:173 | it is the plain encoding of that path exactly when the bucket has no slash |
| `Presign.LinkStates` | internal/s3api/presign.go:172-181 | a link states the algorithm, the signer in the scope of its day, region and s3, the time, its whole seconds and that host is signed |
| `Presign.PresignedIsLinked` | internal/s3api/presign.go:156-201 | what Presign returns, requested with its path decoded, is a link as the theorems below take it |
| `Presign.EncodeAll` | internal/s3api/presign.go:183-190 | each parameter is encoded once, whatever order the map gives |
| `Presign.VerifyPresigned` | internal/s3api/presign.go:68-149 | accepts exactly when the stated algorithm is the scheme's, credential, date and expiry parse, the expiry is above zero and its product with a second at most seven days, the time is from fifteen minutes before the date to the expiry after it, host is signed, the key is known, and some reading of the path carries the signature; the identity is the one stated |
| `Presign.OverlongPassesIff` | internal/s3api/presign.go:89-94 | a stated expiry of more than seven days passes the ceiling exactly when its product with a second wraps to seven days or less or below zero |
| `Presign.OverlongClaimPasses` | internal/s3api/presign.go:83-94 | so a query that states 18446744074 seconds, and is right otherwise, passes the checks |
| `Queries.EqualFoldIff` | internal/s3api/encoding.go:74-76 | a parameter name is the excluded one exactly when it is after capitals, the Kelvin sign and the long s are folded |
| `Queries.BadPairIsSkipped` | internal/s3api/presign.go:69 | a pair with a semicolon or a bad escape is as if it were not there |
| `Queries.FormPairIsRead` | internal/s3api/presign.go:69 | a pair in the encoding of forms, plus signs for spaces, is read back |
| `Text.DecimalNumbers` | internal/s3api/presign.go:83 | seconds are decimal digits after a sign or none, if an int64 holds them |
| `Text.OnlyDecimalNumbers` | internal/s3api/presign.go:83 | and nothing else is a number of seconds |
| `Presign.UrlReads` | internal/s3api/presign.go:68-111 | whatever the extra parameters, the verifier reads each as it was set, an extra one in place of the scheme's own of that name, and the signature unless an extra parameter has its name; and canonicalises those not named like the signature |
| `Presign.ClaimReads` | internal/s3api/presign.go:68-116 | so the checks before the signature are made on those values, whatever the extra parameters override |
| `Presign.OwnClaim` | internal/s3api/presign.go:68-116 | where none of the scheme's own names is overridden they pass exactly within the window and for an expiry of at least a second |
| `Presign.LinkIsCanonicalIff` | internal/s3api/presign.go:119-122 | the verifier canonicalises the query to what was signed exactly when no encoded names clash and no extra name folds to the signature's |
| `Presign.LinkWorksInItsWindow` | internal/s3api/presign.go:68-201 | a link whose names do not clash is accepted exactly from fifteen minutes before signing to signing plus its whole seconds of expiry |
| `Presign.LinkWorksIff` | internal/s3api/presign.go:68-201 | for every set of extra parameters: a link is accepted exactly when the values it states pass the checks and, unless an extra parameter supplies a right signature under its exact name, the claim is by the signer at the second of signing, only host is signed, no encoded names clash and no extra name folds to the signature's |
| `Presign.ShareLinkWorksIff` | internal/s3api/presign.go:68-201 | where the six names of the scheme are left alone: exactly in its window, if no encoded names clash and no extra name folds to the signature's |
| `Presign.PlainLinksNeverClash` | internal/s3api/presign.go:171-179 | without extra parameters there is no clash |
| `Presign.PlainLinkWorksInItsWindow` | internal/s3api/presign.go:68-201 | so a link without extra parameters is accepted exactly when its expiry is a second or more and the time lies from fifteen minutes before the second of signing to its whole seconds of expiry after it, with nothing assumed of the hashes |
| `Presign.SubSecondLinkNeverWorks` | internal/s3api/presign.go:164-175 | a link with an expiry under a second is never accepted |
| `Presign.DashedLinkNeverWorks` | internal/s3api/presign.go:182-192 | a link with extra parameters a and a-b is never accepted |
| `Presign.LowerCaseLinkNeverWorks` | internal/s3api/presign.go:182-192 | a link with an extra parameter x-amz-signature is never accepted |
| `Presign.LinkNamesItsSigner` | internal/s3api/presign.go:124-149 | a link's signature is good only for a claim by its signer at the second of signing |
| `Presign.LinkCannotBeEdited` | internal/s3api/presign.go:119-122 | for such a claim it is good only for the same verb, the same bucket and key, and the same query parameters |
| `Presign.LinkIsForItsHost` | internal/s3api/sigv4.go:227-246 | and, headers being lines, only at its own host, with host alone signed and no other payload declared |
| `Presign.HashesCanBeTold` | internal/s3api/presign.go:124-149 | there are functions that meet the hypotheses on the hashes |
| `AlertProtocol.RaiseKeepsInv` | internal/db/alerts.go:137-161 | raising updates the one live row of a rule or adds a firing one, and changes no other row |
| `AlertProtocol.CloseKeepsInv` | internal/db/alerts.go:164-172 | resolving leaves the rule without a live row and every other row as it was |
| `AlertProtocol.AcknowledgeKeepsInv` | internal/db/alerts.go:176-187 | an acknowledged row is not selected, then or at any later time |
| `AlertProtocol.PickedAreFit` | internal/db/alerts.go:226-255 | a row is selected exactly when it is firing and was not notified in the last six hours |
| `AlertProtocol.MarkKeepsInv` | internal/db/alerts.go:258-263 | recording an announcement keeps the quiet period for it |
| `AlertProtocol.StepKeepsInv` | internal/alerts/engine.go:114-159 | every statement of every engine, any acknowledgement or resolution from the console, which takes no lock, and any crash keep the protocol's invariant |
| `AlertProtocol.RunsAreQuiet` | internal/alerts/engine.go:114-159 | in every interleaving under the try-lock, a recorded announcement is followed by more than six hours without another of that row, a rule has at most one live row, and a row that is announced had been neither acknowledged nor resolved when it was selected |
| `AlertProtocol.AlertsOnlyAdvance` | internal/db/alerts.go:135-187 | an alert never returns from acknowledged to firing, nor from resolved to anything, and is not selected again |
| `AlertRepeats.RepeatsIff` | internal/alerts/engine.go:326-349 | after an announcement, some continuation announces the same row again within six hours exactly when neither it nor a later one of that row has been recorded and the row is firing or already selected by an engine |
| `AlertRepeats.RecordedIsNotRepeated` | internal/db/alerts.go:226-263 | once recorded, no continuation announces it again within six hours |
| `AlertRepeats.UnmarkedSendsRepeat` | internal/alerts/engine.go:342-349 | if recording fails, the next cycle can send the same alert at once, with no crash and whatever else awaits |
| `AlertEngine.Engine.EvaluateOnce` | internal/alerts/engine.go:126-159 | a cycle runs only if the lock is free, is a run of the protocol, gives the lock back, and when nothing fails leaves each rule with a live alert exactly as its check found, at its severity, and no alert worth a message unannounced |
| `AlertEngine.Engine.Notify` | internal/alerts/engine.go:326-351 | each selected alert is sent and recorded in turn, informational ones passed over |
| `Quantiles.FirstToReach` | internal/db/performance.go:210-227 | the first row whose running weight reaches the target is the least sampled duration whose cumulative weight does |
| `Quantiles.Walk` | internal/db/performance.go:210-227 | the walk finds that duration, and falls back only for a target above the total |
| `Quantiles.Latency` | internal/db/performance.go:152-234 | P50, P90 and P99 are weighted quantiles, the maximum is the slowest row, and P50 <= P90 <= P99 <= Max |
| `Quantiles.RowsStandFor` | internal/db/performance.go:164-199 | a row kept by chance at rate r weighs 1/r, any other row one, and a rate of zero or less counts as one |
| `Quantiles.OperationP95` | internal/db/performance.go:305-322 | the per-operation walk finds the weighted 95th percentile and never falls back |
| `Quantiles.QuantilesAscend` | internal/db/performance.go:228-230 | a larger share is reached no sooner |
| `Quantiles.RateOneIsNearestRank` | internal/db/performance.go:206-227 | unsampled rows give the ordinary nearest-rank percentile: the row at the rank nearest above q times their number |
| `LiveWindow.RecordInSlot` | internal/metrics/live.go:51-66 | recording leaves the slot counting its second in full, whether it was fresh or stale |
| `LiveWindow.SlotAnswers` | internal/metrics/live.go:91-97 | a slot answers for a second in the window exactly, and zero where the second saw nothing |
| `LiveWindow.LiveWindow.Record` | internal/metrics/live.go:51-66 | each request is added to the history the slots represent |
| `LiveWindow.LiveWindow.Snapshot` | internal/metrics/live.go:79-100 | the sixty points are the exact per-second sums over everything ever recorded |

## Left out

- Catalog.Database.PurgeVersion: outside the history refinement, because a purge does not promote.
- Collector.GuardedRunsAreSafe: assumes that no file is unlinked while another process is between obtaining its digest and locking it; without that it is false, as UnlinkSafeIffWindowClear shows.
- Presign.LinkCannotBeEdited: for a claim by the signer at the second of signing; LinkNamesItsSigner refuses every other claim under the assumption Unambiguous.
- ScopedListing.ScopedListingIsTheGrant: for prefixes with some byte below 0xFF, which any UTF-8 prefix has, and for no delimiter: narrowing changes the prefix that grouping works from.
- ListingApi.ClientsSeeTheirGrant: for the same prefixes, and for no delimiter.
- StoreRuns.RunRefines: assumes no stored null version where a PUT or completion runs outside Enabled or a restore finds no current version, and that a saved version outranks the copy that restored it; PutRefines, DeleteRefines and RestoreRefines show that this is exactly what is needed, and NoTiesWithoutRestores that the last is free without a restore.
- AlertProtocol.RunsAreQuiet: for recorded announcements, and for a lock held as long as the cycle lasts; a connection that drops while its engine carries on is not modelled.
- Row ids of objects, created_by and actor columns, and the order in which a key's versions of one time are listed.
- The several advisory locks one transaction takes, their order, and reads made before a transaction such as the bucket's versioning state.
- Catalog.Database.ReplayAll: stops at a write whose bytes a sweep has taken since they were stored; what follows when the source goes on from there is Collector's subject.
- Durability of a deduplicated blob's directory entry after a power loss.
- Paths: a file is identified by its digest.
- ListObjectVersions and its pagination, and DeleteBucket.
- The checks Verify makes on a header-signed request: the presigned path covers the canonical form, the clock and the signature.
- Presign.LinkIsForItsHost: for header names and values without line feeds, as HTTP has them.
- Case mapping beyond ASCII in signed header names and declared hashes.
- url.URL parsing: a request's path as transmitted and its decoded path are given.
- The rules' own thresholds and queries; a check's outcome is an input.
- Ranking and estimates in SlowestOperations: only its percentile walk.
- Overflow of the live window's int64 counters.
- An end of stream at a chunk boundary without a terminating chunk is an ordinary end, as in the source.
- HTTP, XML and JSON, SQL text, sessions, mail, configuration, the console.
