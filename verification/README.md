# VaultDrift: a verified model

Models of the storage, synchronisation and scheduling logic of VaultDrift, with
proofs of what each part guarantees over all inputs, runs and reachable states.
`dafny verify dfyconfig.toml` checks the whole project.

| files | what they model |
|---|---|
| `Gf2`, `Rabin`, `Greedy`, `Chunker` | polynomial arithmetic over GF(2) on 64-bit words, the fingerprint tables, and the three reading loops of the content-defined chunker against one greedy partition |
| `Encrypted` | chunks sealed under per-file keys but stored under the digest of their plaintext |
| `StoreModel`, `StoreHandlers` | upload sessions, the file, manifest and chunk tables and the blob store: each handler and collector as one atomic step, and as the code that takes it |
| `StoreAccounting`, `StoreLeaks`, `StoreVersions`, `StoreDurability` | what every step and every run keeps: reference counts and exactly when references leak, version history, file contents |
| `StoreAnswers`, `StoreTables` | over whole runs, exactly when each handler gives which answer, where the bytes of a completed file come from, and what the tables hold |
| `Download` | the Range header and the streaming loops |
| `MerkleTree`, `MerkleBuilt`, `MerkleDiff`, `MerklePatch`, `MerkleReport`, `MerkleShape` | building and comparing Merkle trees, exactly what a comparison reports, and what it means as a patch |
| `VfsModel`, `VfsWalk`, `VfsPaths`, `VfsCopy`, `VfsCopyEnds` | the file table as a tree: walking it, resolving paths, recursive copy and exactly when it ends |
| `VectorClock` | vector clocks and causality |
| `WorkQueue`, `RateLimiter` | the priority queue with retries; the sliding-window rate limiter |
| `Common`, `Sorting`, `Text` | shared vocabulary: filters, stable sorting, splitting and joining text |

Where the code updates state in place there is a class or a method with loops,
and its contract equates the new state with a function of the old one; the
lemmas are about those functions. The digest, the cipher and the clock are
parameters. Assumptions about them are hypotheses of the lemmas that need them:
an injective digest for durability and encryption, digests of one length that
do not collide on the inputs at hand for the Merkle trees, a cipher whose
opening undoes sealing.

## What the proofs brought to light

- The mod table of the chunker's polynomial is zero throughout, and never used.
- The out table holds b·x^48 but is applied before the shift, so a byte never
  leaves the fingerprint completely: `Rabin.WindowLocality` says exactly when it
  has, `Rabin.WindowNotLocal` that up to 45 earlier bytes are forgotten only when
  their polynomial is zero, `Rabin.ByteStays` that a single nonzero one never is.
- `ChunkStream` reports offset 0 for every chunk.
- Chunk rows are removed the moment their count reaches zero, so the orphan
  collector never finds one (`StoreLeaks.NoOrphans`).
- References leak when a folder, a file with several manifests or an old version
  is deleted, on the permanent deletion handler, which releases none, and when a
  session id is used twice. `StoreLeaks.TightIff` gives the exact condition for
  every step, `StoreLeaks.CountsExactIff` for whole runs, and
  `StoreLeaks.ModifiedFileLeaks` a run that leaks: upload, modify, delete. Leaks
  only ever make counts too large.
- Two files under different keys that share a chunk overwrite each other's blob;
  `Encrypted.ReadableIff` says exactly which files survive.
- Directory hashes do not cover names (`MerklePatch.RenameUnseen`); without
  collisions names are all they miss (`MerkleShape.HashesMeanTrees`).
- Building a tree ends exactly on lists without a path that starts with `/`
  (`MerkleBuilt.BuildEndsIff`), and every path the server lists does
  (`VfsPaths.WalkIsAbsolute`). The server also lists folders beside their
  contents (`VfsPaths.ListingHasAncestors`), which would put two nodes at one path
  (`MerkleBuilt.BuildFaithful`).
- The branch of `buildNode` for a single file cannot be reached: no group holds
  its own path.
- A Range header may carry a plus sign, which RFC 9110 does not allow
  (`Download.PlusAccepted`); every other accepted header holds plain digits
  (`Download.AcceptedShape`). Numbers beyond 64 bits are refused rather than cut
  to the file size (`Download.RangeAgreesWithRfc`).
- Climbing to a folder's path ends exactly when the folder has a chain of parents
  from the root (`VfsPaths.ClimbEndsIff`); nothing stops a move from breaking it.
- Copying a folder ends exactly when its subtree is finite and the new parent is
  no folder of it (`VfsCopyEnds.CopyEndsIff`); nothing checks for that either.
- A comparison reports a difference exactly when no directory above it was skipped
  for equal hashes or replaced by a file, and then once (`MerkleReport.ReportIff`,
  `MerkleReport.ReportOnce`): below a path that changed its kind nothing is listed.
- A sync addition whose manifest clashes leaves the file row without content
  (`StoreTables.SyncAddAnswers`); sync changes record chunk rows of size 0, every
  other row has the size of its blob (`StoreTables.RunSized`).
- Copying into a folder whose trash holds a row of the same name fails in the
  database, after the check for an existing name has passed
  (`VfsCopy.CopyOutcomes`).
- The limit of the rate limiter holds in every run exactly on times less than a
  window apart (`RateLimiter.BoundIff`), so not on closed intervals of one window
  (`RateLimiter.ClosedInterval`).

## Model

| member | source | states |
|---|---|---|
| `Rabin.CreateRabinTable` | internal/chunk/chunker.go:44-95 | for every polynomial of degree at least 1 the loops find the degree; the out table holds the reductions of b·x^window unless both degree and window are too large for the word, and every mod table entry is 0 up to degree 56 |
| `Rabin.OutTableUnique` | internal/chunk/chunker.go:62-77 | an out table entry is the only polynomial of lower degree congruent to b·x^48, so any correct table is this one |
| `Rabin.PushByteMeaning` | internal/chunk/chunker.go:226-232 | while the window fills, F' is below 2^degree and congruent to F·x + b |
| `Rabin.SlideMeaning` | internal/chunk/chunker.go:235-242 | once full, F' is below 2^degree and congruent to (F + out·x^48)·x + in |
| `Rabin.FingerprintClosedForm` | internal/chunk/chunker.go:174-188 | for every stream the fingerprint is the reduced residue of one closed form in the bytes read |
| `Rabin.WindowLocality` | internal/chunk/chunker.go:235-242 | the fingerprint depends on the window alone exactly when the earlier bytes leave a zero residue |
| `Rabin.WindowNotLocal` | internal/chunk/chunker.go:235-242 | for an odd polynomial, with at most degree - 8 bytes ahead of a full window the fingerprint is that of the window alone exactly when the polynomial of those bytes is zero |
| `Rabin.ByteStays` | internal/chunk/chunker.go:235-242 | a nonzero byte ahead of any full window always changes the fingerprint |
| `Greedy.PiecesGreedy` | internal/chunk/chunker.go:167-211 | the chunks of any stream are its greedy partition: each ends at the first cut after its start, the last holds none before its end |
| `Greedy.GreedyUnique` | internal/chunk/chunker.go:167-211 | the greedy partition is unique |
| `Greedy.PiecesBounded` | internal/chunk/chunker.go:189-190 | for any cut test that waits for a least and always fires at a greatest length, the pieces obey both limits and make up the stream |
| `Greedy.AppendStable` | internal/chunk/chunker.go:167-211 | whatever is cut before the end of a stream is cut at the same place in every continuation of it |
| `Chunker.NewChunker` | internal/chunk/chunker.go:122-148 | for all parameters the mask has as many bits as the average size says, at least 8, and the table is the correct one for the fixed polynomial of degree 53; the chunker can be used exactly when the maximum is not negative |
| `Chunker.ChunkSizes` | internal/chunk/chunker.go:189-220 | non-final chunks lie between the limits, the final one is nonempty and at most the upper limit, together they are the input |
| `Chunker.CutByContent` | internal/chunk/chunker.go:189-220 | the chunks of a stream are the one way to divide it so that each ends at the first place where it has the least length and either the residue of the bytes read so far is 0 modulo 2^mask bits or it has the greatest length; stated on the closed form, without the rolling window |
| `Chunker.InfosTile` | internal/chunk/chunker.go:191-199 | each info gives place, length and digest of one stretch of the stream, and the stretches follow each other from its start to its end |
| `Chunker.RollingWindow.Roll` | internal/chunk/chunker.go:175-187 | the window array holds the last bytes read and the fingerprint is that of the whole stream, byte by byte |
| `Chunker.RollingWindow.Slide` | internal/chunk/chunker.go:175-179 | the full window: the oldest byte leaves the array and the fingerprint |
| `Chunker.Splitter.Feed` | internal/chunk/chunker.go:170-202 | one byte either extends the open chunk or finishes it, as the greedy scan says |
| `Chunker.ChunkWithData` | internal/chunk/chunker.go:245-326 | for any split of the input into reads: infos and data are those of the greedy partition; a failing reader gives an error |
| `Chunker.Chunk` | internal/chunk/chunker.go:151-223 | the same infos without data |
| `Chunker.ChunkStream` | internal/chunk/chunker.go:330-402 | the callback sees the pieces of the same partition in order up to the first rejection, always with offset 0 |
| `Chunker.StreamByte` | internal/chunk/chunker.go:352-383 | one byte of the stream loop, including the offset that is advanced by an already emptied buffer |
| `Encrypted.ChunkEncrypted` | internal/chunk/encrypted.go:43-61 | every chunk sealed in order, or an error when the reader fails or a chunk meets a key of the wrong size |
| `Encrypted.EncryptAndStore` | internal/chunk/encrypted.go:141-167 | nothing is stored when reading or sealing fails; otherwise the sealed chunks up to the first refused one are, and a manifest of all of them is returned when none was refused and an id was drawn |
| `Encrypted.ReassembleDecrypt` | internal/chunk/encrypted.go:106-137 | writes the texts of the chunks up to the first that cannot be fetched, opened, matched in size or written, and succeeds when that is all of them; then every chunk of a named, nonempty manifest opened to its recorded size and the output has their total |
| `Encrypted.ReadableIff` | internal/chunk/encrypted.go:106-167 | after any run of uploads under any keys a file reads back in full exactly when each of its chunks was last written under its own key, and then to its bytes |
| `Encrypted.RoundTrip` | internal/chunk/encrypted.go:106-167 | under one key every nonempty named file of a run reads back to its bytes, whatever chunks it shares, and its manifest records its size |
| `Encrypted.ManifestAccepted` | internal/chunk/manifest.go:78-103 | the manifest of an upload is valid exactly when the file is not empty and both names are given |
| `Encrypted.PutAllHolds` | internal/chunk/encrypted.go:150-155 | a stored piece holds its text under the new key; every other blob is as it was |
| `Download.ParseRange` | internal/server/handlers_download.go:167-231 | every accepted header gives 0 <= start <= end < size |
| `Download.RangeAgreesWithRfc` | internal/server/handlers_download.go:174-231 | every int-range, open range and suffix of section 14.1.2 of RFC 9110 is served as that section says, and refused when a number exceeds 64 bits |
| `Download.AcceptedShape` | internal/server/handlers_download.go:169-221 | only a single pair of numbers, one of which may be missing, is accepted; the numbers are plain digits exactly when the header holds no plus sign |
| `Download.PlusAccepted` | internal/server/handlers_download.go:169-221 | a plus sign is accepted and changes nothing |
| `Download.WriteRange` | internal/server/handlers_download.go:294-340 | what is written are the slices of the readable chunks up to the first failing write; it succeeds exactly when all were written and every chunk needed could be read |
| `Download.SliceChunk` | internal/server/handlers_download.go:303-325 | the part of one chunk inside the range is exactly what extends the output |
| `Download.WholeRange` | internal/server/handlers_download.go:294-402 | when all chunks can be read, all writes succeed and the range ends inside the data, exactly the slice is written, as many bytes as announced |
| `Download.StreamedPrefix` | internal/server/handlers_download.go:294-340 | what is written is always a beginning of the range, and all of what can be read of it on success |
| `Download.StreamRange` | internal/server/handlers_download.go:294-340 | what is written are the slices of the readable chunks up to the first failing write; it succeeds exactly when all were written and every chunk needed could be read |
| `Download.StreamDecryptedRange` | internal/server/handlers_download.go:343-402 | the same on decrypted chunks; without a file key nothing is written |
| `Download.StreamContent` | internal/server/handlers_download.go:261-273 | writes the readable chunks up to the first failing write, and succeeds exactly when that is all of them |
| `Download.RangeIsSlice` | internal/server/handlers_download.go:261-340 | a range of a stored file is the slice of its download, and neither can fail |
| `StoreHandlers.ContentStore.CreateUpload` | internal/server/handlers_upload.go:131-199 | the session handler changes the state as the step says |
| `StoreHandlers.ContentStore.UploadChunk` | internal/server/handlers_upload.go:202-374 | refusals, deduplication against the chunk table and the new session, in any order of indexes |
| `StoreHandlers.ContentStore.StorePieces` | internal/server/handlers_upload.go:304-357 | the storing loop: rows gain one reference per occurrence, blobs only for new rows |
| `StoreHandlers.ContentStore.CompleteUpload` | internal/server/handlers_upload.go:377-494 | gathers the hashes in index order, writes file and manifest and drops the session, or reports what is missing |
| `StoreHandlers.ContentStore.GetMissingChunks` | internal/server/handlers_upload.go:638-646 | lists exactly the absent indexes, in order |
| `StoreHandlers.ContentStore.CancelUpload` | internal/server/handlers_upload.go:556-628 | the owner's session is released hash by hash and dropped; anyone else's request changes nothing |
| `StoreHandlers.ContentStore.ReleaseSession` | internal/server/handlers_upload.go:594-624 | the loops over a session's hashes release each occurrence once; rows that reach zero go with their blobs |
| `StoreHandlers.ContentStore.CleanupExpiredSessions` | internal/server/handlers_upload.go:649-680 | whatever order the map is walked in, exactly the expired sessions are released and dropped |
| `StoreHandlers.ContentStore.CreateChunk` | internal/db/chunks.go:11-24 | inserts a row unless the hash has one |
| `StoreHandlers.ContentStore.IncrementRefCount` | internal/db/chunks.go:63-78 | one reference more, or an error for an unknown hash |
| `StoreHandlers.ContentStore.DecrementRefCount` | internal/db/chunks.go:81-96 | one reference less if the count is positive |
| `StoreHandlers.ContentStore.DeleteChunk` | internal/db/chunks.go:138-150 | removes the row |
| `StoreHandlers.ContentStore.DeleteFile` | internal/worker/gc.go:197-219 | releases the newest manifest's hashes and deletes the file with everything below it |
| `StoreHandlers.ContentStore.CollectTrash` | internal/worker/gc.go:159-194 | over the rows trashed before the cutoff, in any order: a run of deletions, after which exactly the old trash and everything below it is gone |
| `StoreHandlers.ContentStore.CollectOrphanedChunks` | internal/worker/gc.go:69-109 | removes exactly the rows at zero that are old enough, with their blobs, and counts them and the bytes their rows record |
| `StoreHandlers.ContentStore.CollectOldVersions` | internal/worker/gc.go:112-156 | the per-file counters remove exactly the listed manifests beyond the fifth, and count them |
| `StoreHandlers.ContentStore.PermanentDelete` | internal/server/handlers_trash.go:124-160 | deletes the owner's row with everything below it and the manifests of all of them |
| `StoreHandlers.ContentStore.Push` | internal/server/handlers_sync.go:181-229 | stores the bytes under their own digest only |
| `StoreHandlers.ContentStore.EnsureChunkRefs` | internal/sync/engine.go:533-560 | one reference more per hash of a synced list, new rows where needed |
| `StoreHandlers.ContentStore.ApplyAdd` | internal/sync/engine.go:409-470 | a new file with version 1 and its manifest, or a row without one |
| `StoreHandlers.ContentStore.ApplyModify` | internal/sync/engine.go:473-516 | a manifest one version up, linked from the file |
| `StoreModel.LatestExists` | internal/db/manifests.go:65-93 | a file with manifests has a newest one |
| `StoreAccounting.StepAccounted` | internal/server/handlers_upload.go:202-680 | every step keeps the invariants, and counts drift from the references held by exactly what the step leaks |
| `StoreAccounting.RunAccounted` | internal/server/handlers_upload.go:202-680 | in every reachable state each ref_count is the number of references from open sessions and live manifests, with multiplicity, plus what was leaked; it is never less |
| `StoreLeaks.NoOrphans` | internal/db/chunks.go:99-135 | in no reachable state does the orphan collector find anything |
| `StoreLeaks.DeletionExact` | internal/worker/gc.go:197-219 | a deletion leaks nothing exactly when, of all manifests it removes, only the file's newest lists chunks |
| `StoreLeaks.TightIff` | internal/server/handlers_upload.go:202-680 | a step leaks nothing exactly when it is tight, a condition on the tables before it: deletions, permanent deletions, collected versions and reused session ids take away only references they release |
| `StoreLeaks.RunTightIff` | internal/server/handlers_upload.go:202-680 | a run has leaked nothing exactly when each of its steps was tight |
| `StoreLeaks.CountsExactIff` | internal/server/handlers_upload.go:202-680 | after a run the counts are exactly the references held if and only if every step was tight |
| `StoreLeaks.PlainRunTight` | internal/worker/gc.go:82-219 | runs of uploads with new session ids, completion, cancelling, expiry, collection, sync additions and trash collection of rows with nothing below them are tight |
| `StoreLeaks.ModifiedFileLeaks` | internal/worker/gc.go:197-219 | upload, modify, delete: no session and no file is left, and chunks of the first version are |
| `StoreLeaks.CleanShutdown` | internal/worker/gc.go:197-219 | when the last session and file are gone, no chunk row is left exactly when every step was tight; nor any blob, unless one was pushed |
| `StoreAccounting.RunPaired` | internal/server/handlers_upload.go:304-357 | without pushes, blobs and chunk rows always have the same keys |
| `StoreAccounting.MissingLaw` | internal/server/handlers_upload.go:638-646 | missing and present indexes make up the whole range |
| `StoreAccounting.CompletionTest` | internal/server/handlers_upload.go:411-420 | counting the chunks of a session decides whether none is missing |
| `StoreAccounting.CascadeLeast` | internal/db/schema.go:125-144 | the cascade of a deletion is the least set of rows closed under children |
| `StoreDurability.StepAgrees` | internal/server/handlers_upload.go:202-680 | every step keeps every promise made so far and the one it makes |
| `StoreDurability.RunAgrees` | internal/server/handlers_upload.go:202-680 | in every run the store agrees with an ideal store that only remembers who opened which upload when, the parts it accepted, and the bytes of files |
| `StoreDurability.Durability` | internal/server/handlers_upload.go:377-494 | a completed file downloads as its chunks in index order until it is deleted, whatever others upload, cancel, let expire or have collected |
| `StoreDurability.BackedIffPushed` | internal/sync/engine.go:533-560 | an accepted sync addition or modification keeps every row backed by a blob exactly when its hashes were pushed |
| `StoreDurability.UnbackedStaysLost` | internal/server/handlers_upload.go:304-357 | a row without a blob makes every later upload of that chunk unreadable |
| `StoreAnswers.CreateAnswers` | internal/server/handlers_upload.go:144-196 | an upload is opened exactly for a named file of 1 byte to 10 GiB, with just as many 4 MiB parts as hold it |
| `StoreAnswers.UploadAnswers` | internal/server/handlers_upload.go:215-302 | in every run, each answer to a part exactly by what was announced and accepted before: accepted when the upload is the caller's, at most a day old, needs the index, has not got it, and the length and body are in bounds |
| `StoreAnswers.CompleteAnswers` | internal/server/handlers_upload.go:389-437 | in every run, Missing exactly when some part of the caller's upload is absent, listing exactly the absent indexes in order; completed exactly when all are there and the name is valid, free and admissible |
| `StoreAnswers.CompletedRows` | internal/server/handlers_upload.go:423-485 | completion adds one file row and one linked manifest with the announced owner, folder, name and size, drops the session and touches nothing else |
| `StoreAnswers.CancelAnswers` | internal/server/handlers_upload.go:569-592 | an upload is cancelled by its own user only, expired or not |
| `StoreAnswers.UploadEnds` | internal/server/handlers_upload.go:377-680 | an upload ends exactly when its user completes or cancels it or a cleanup finds it a day old |
| `StoreAnswers.UploadTraced` | internal/server/handlers_upload.go:131-374 | in every run each open upload was opened by its user with its name and size, and each part it holds was sent by that user afterwards and in time |
| `StoreAnswers.CompletedFile` | internal/server/handlers_upload.go:377-494 | a completed file downloads as the parts its own user sent after opening the upload and within a day, one for each index the announced size needs, none missing |
| `StoreTables.SyncAddAnswers` | internal/sync/engine.go:409-470 | an addition is refused exactly when id, name in the folder or folder forbid it; a clash of manifests leaves the row without content |
| `StoreTables.SyncModifyAnswers` | internal/sync/engine.go:473-516 | in every run a modification succeeds exactly on an untrashed file with a new manifest id; the version grows by one and no other field changes |
| `StoreTables.PushAnswers` | internal/server/handlers_sync.go:181-229 | bytes are stored exactly under their own nonempty digest, and no other blob changes |
| `StoreTables.TreeAnswers` | internal/vfs/vfs.go:27-190 | creating folders, moving, trashing and restoring touch one row, and of it only what they are for |
| `StoreTables.RunKeys` | internal/db/schema.go:125-144 | in every run the rows of one folder have different names, trashed or not |
| `StoreTables.FileEnds` | internal/db/schema.go:125-144 | a file row goes exactly when the collector or its owner deletes it or a folder above it |
| `StoreTables.ManifestEnds` | internal/worker/gc.go:112-156 | a manifest goes exactly with its file, or when it is older than the cutoff and so are five newer ones of its file |
| `StoreTables.StatusTells` | internal/server/handlers_upload.go:359-372 | in every run a session records the sizes of exactly the parts accepted, and its status tells whether some or all are there |
| `StoreTables.RowBorn` | internal/server/handlers_upload.go:333-350 | chunk rows come only with an accepted part, with the size of the piece and the time of the step, or with a sync change, without size; size and time never change |
| `StoreTables.OrphansGo` | internal/worker/gc.go:69-109 | the orphan collector takes exactly the rows at zero, no younger than the given time, whose blob is there |
| `StoreTables.RunSized` | internal/server/handlers_upload.go:333-356 | without sync changes every chunk row records the size of its blob |
| `StoreVersions.RunVersioned` | internal/sync/engine.go:437-515 | in every run no manifest is newer than its file's version and the linked manifest is the newest |
| `StoreVersions.NewManifestsAreNewer` | internal/sync/engine.go:483-515 | a manifest created later has a greater version than all its file had before, collected or not |
| `StoreVersions.LatestNotOld` | internal/worker/gc.go:117-153 | the newest manifest is never collected as an old version |
| `StoreVersions.FiveSurvive` | internal/worker/gc.go:117-153 | any collected manifest leaves five newer ones of its file behind |
| `StoreVersions.StepGrows` | internal/vfs/versioning.go:77-91 | no step lowers a file's version, and a new manifest is above the version before |
| `MerkleTree.Build` | internal/sync/merkle.go:43-55 | sorts the caller's array and returns the tree of the list; nothing for an empty list |
| `MerkleTree.BuildNode` | internal/sync/merkle.go:58-171 | the loops over groups, children and totals build the tree of the specification, whatever order the map of groups is walked in |
| `MerkleTree.SplitFiles` | internal/sync/merkle.go:78-103 | direct children in order, and every nonempty group under its name |
| `MerkleTree.NamesCanonical` | internal/sync/merkle.go:132-136 | sorted map keys are the sorted names, however the map is walked |
| `MerkleTree.Totals` | internal/sync/merkle.go:158-167 | sizes added in 64-bit wrap-around, the latest time |
| `MerkleTree.ComputeNodeHash` | internal/sync/merkle.go:174-180 | the digest of the child hashes in order |
| `MerkleTree.HashesJoined` | internal/sync/merkle.go:174-180 | what is hashed is the concatenation of the child hashes |
| `MerkleTree.GroupSmaller` | internal/sync/merkle.go:90-99 | each group is strictly less deep, so the recursion ends |
| `MerkleTree.DirOf` | internal/sync/merkle.go:84-99 | the child directory of a path is longer than its parent, shorter than the path, and holds the path |
| `MerkleBuilt.BuildFaithful` | internal/sync/merkle.go:43-171 | for relative paths the leaves are exactly the entries and every directory carries the total size and latest time of its leaves; for different paths there is one node per path exactly when no path is empty or a directory of another |
| `MerkleBuilt.EntriesKept` | internal/sync/merkle.go:103-167 | the file leaves are the file entries with path, hash, size and time, folder entries appear under the digest of their path without size, the root has the wrapped sum of the file sizes and the latest time |
| `MerkleBuilt.OrderIrrelevant` | internal/sync/merkle.go:48-52 | any order of the same entries with different paths builds the same tree |
| `MerkleBuilt.TreeWellFormed` | internal/sync/merkle.go:106-146 | children lie directly below their parent, in strict order of distinct paths |
| `MerkleBuilt.BuiltSummed` | internal/sync/merkle.go:158-167 | size and time of every node are those of the leaves below it |
| `MerkleBuilt.AbsolutePathsRecurse` | internal/sync/merkle.go:90-99 | paths that start with a separator form a root group that is regrouped into itself: the recursion repeats its arguments exactly when there are such paths |
| `MerkleBuilt.SourceDirIs` | internal/sync/merkle.go:84-99 | on the paths a directory holds, the grouping by first separator is the one the builder is proved with |
| `MerkleBuilt.BuildEndsIff` | internal/sync/merkle.go:57-146 | the recursion ends exactly on lists without a path that starts with a separator |
| `MerkleDiff.CollectPaths` | internal/sync/merkle.go:290-298 | the paths of a subtree, parents first |
| `MerkleDiff.ListedIffFound` | internal/sync/merkle.go:290-319 | a subtree lists exactly the paths that can be found in it |
| `MerkleDiff.DiffNodes` | internal/sync/merkle.go:239-287 | whatever order the maps are walked in, the result gains exactly the items of the specification, with multiplicity |
| `MerkleDiff.Diff` | internal/sync/merkle.go:205-236 | the same for two trees either of which may be missing |
| `MerkleDiff.SumNext` | internal/sync/merkle.go:254-286 | one more map key adds exactly the part of the child kept for it |
| `MerklePatch.PatchIsExact` | internal/sync/merkle.go:239-287 | grafting the added and modified subtrees and dropping the deleted ones turns local into remote when all skipped subtrees agree, type changes included |
| `MerklePatch.PatchNeedsSame` | internal/sync/merkle.go:240-243 | and only then: an exact patch skips only subtrees that agree |
| `MerklePatch.FaithfulSkips` | internal/sync/merkle.go:240-243 | if equal hashes at a shared path mean equal subtrees, all skipped subtrees agree |
| `MerklePatch.DiffYieldsRemote` | internal/sync/merkle.go:205-236 | the same for the entry point, with either tree missing |
| `MerklePatch.ReportsGenuine` | internal/sync/merkle.go:239-298 | every reported path is a genuine difference of the kind reported |
| `MerkleReport.ReportIff` | internal/sync/merkle.go:239-298 | for trees with one node per path an item is reported exactly when it is a genuine difference and no place above it is equal in hash on both sides or different in kind |
| `MerkleReport.ReportOnce` | internal/sync/merkle.go:239-298 | and no item is reported twice |
| `MerkleReport.MissingTree` | internal/sync/merkle.go:205-224 | with one tree missing exactly the paths of the other are reported, as added or as deleted |
| `MerklePatch.ItemsByChild` | internal/sync/merkle.go:254-286 | a pair of directories reports exactly what its children report |
| `MerklePatch.RenameUnseen` | internal/sync/merkle.go:174-180 | renaming a file leaves all hashes as they were, so the comparison reports nothing |
| `MerkleShape.RootHashIff` | internal/sync/merkle.go:148-180 | over one shape, with digests of one length and no collision, root hashes agree exactly when all leaf hashes do |
| `MerkleShape.ReportsExactly` | internal/sync/merkle.go:226-287 | over one shape the comparison reports exactly the differing leaves, as modified |
| `MerkleShape.BuiltSameShape` | internal/sync/merkle.go:43-171 | lists over the same paths build trees of one shape |
| `MerkleShape.SkippingLosesNothing` | internal/sync/merkle.go:148-287 | two lists over the same paths: equal roots mean equal files, and the report is exactly the files whose hashes differ, with nothing added or deleted |
| `MerkleShape.HashesMeanTrees` | internal/sync/merkle.go:174-180 | without collisions two trees have equal root hashes exactly when they are equal up to names |
| `Sorting.SortInPlace` | internal/sync/merkle.go:49-51 | sorting the array in place yields the stable sort of its contents |
| `Sorting.SortCanonical` | internal/sync/merkle.go:48-51 | lists with the same elements and different keys sort alike |
| `VfsWalk.ListAllFiles` | internal/vfs/vfs.go:224-230 | the walk from the root returns the reports of the specification |
| `VfsWalk.WalkDir` | internal/vfs/vfs.go:234-270 | the recursion ends from the root even if other rows form cycles, and appends one report per entry, folders before their contents |
| `VfsWalk.WalkReports` | internal/vfs/vfs.go:234-270 | the reports are those of the chains visited, in order |
| `VfsWalk.VisitsContinue` | internal/vfs/vfs.go:234-270 | only untrashed rows reachable through untrashed folders are visited |
| `VfsWalk.ContinuesVisited` | internal/vfs/vfs.go:234-270 | every such row is visited while directories fit the listing limit |
| `VfsWalk.VisitsDistinct` | internal/vfs/vfs.go:234-270 | nothing is visited twice |
| `VfsModel.ListingMembers` | internal/db/files.go:146-228 | a listing holds only untrashed rows of its directory, and all of them while they fit |
| `VfsModel.ListingOrder` | internal/db/files.go:146-228 | kinds descend and names ascend in a listing, what the limit leaves out comes later, and the limit cuts only what exceeds it |
| `VfsModel.ChainUnique` | internal/db/files.go:37-62 | a row has one chain of parents |
| `VfsPaths.ResolveParentID` | internal/sync/engine.go:564-586 | the loop over path segments finds the directory of the specification |
| `VfsPaths.ResolveFileByPath` | internal/sync/engine.go:589-603 | directory part and base name are looked up in turn |
| `VfsPaths.DirectoryIff` | internal/sync/engine.go:564-586 | a path of valid names leads to a directory exactly when a chain of the user's untrashed rows from the root has these names; a missing directory is an error |
| `VfsPaths.LookupIff` | internal/sync/engine.go:589-603 | a path of valid names finds a row exactly when a chain of the user's untrashed rows has these names and ends in it |
| `VfsPaths.CleanRewrites` | internal/sync/engine.go:590-591 | empty and dot segments, a name followed by a step up, and a step up from the root vanish from a path |
| `VfsPaths.CleanCanonical` | internal/sync/engine.go:590-591 | what is left are proper names only, after the steps up of a relative path; with the rewriting this determines the cleaned path |
| `VfsPaths.GetFolderPath` | internal/vfs/vfs.go:292-320 | climbing from a folder yields the names found on the way up, whenever the climb ends; other ids give the two errors |
| `VfsPaths.FolderPathIs` | internal/vfs/vfs.go:292-320 | for a folder with a chain from the root that path is the one the walk reports |
| `VfsPaths.ClimbEndsIff` | internal/vfs/vfs.go:310-317 | the climb ends exactly when the folder has a chain of parents from the root |
| `VfsPaths.PathFindsRow` | internal/sync/engine.go:564-603 | looking up the path of any reachable row finds that row |
| `VfsPaths.PathsDiffer` | internal/vfs/vfs.go:242-243 | different rows have different paths |
| `VfsPaths.WalkRoundTrip` | internal/vfs/vfs.go:224-270 | the walk reports each reachable untrashed row exactly once, under distinct paths each of which resolves to its row, with the row's kind, time, size and checksum |
| `VfsPaths.WalkIsAbsolute` | internal/vfs/vfs.go:224-228 | every path of a nonempty walk starts with a separator |
| `VfsPaths.ListingHasAncestors` | internal/vfs/vfs.go:230-270 | as soon as a folder holds anything, the listing is not free of ancestors |
| `VfsCopy.Vfs.Copy` | internal/vfs/vfs.go:349-413 | the errors are each without effect; otherwise old rows stay as they were and the new row shows the source's tree under its new name with version 1 |
| `VfsCopy.CopyOutcomes` | internal/vfs/vfs.go:355-403 | each error exactly by what the table holds, a name taken by a trashed row included |
| `VfsCopy.CopyUnknown` | internal/vfs/vfs.go:350-354 | not found exactly when no row has the id |
| `VfsCopy.Vfs.CopyFolderContents` | internal/vfs/vfs.go:416-457 | for a finite source outside the destination it ends, never fails, and leaves the destination showing exactly what the source showed, through fresh rows hung below it only |
| `VfsCopyEnds.CopyEndsIff` | internal/vfs/vfs.go:349-457 | below the listing limit, copying a folder ends exactly when its subtree is finite and the new parent is no folder of it |
| `VfsCopyEnds.InsideNeverEnds` | internal/vfs/vfs.go:416-457 | each nested call on a destination inside its source makes another one, so no number of nested calls is enough |
| `VfsCopyEnds.EndlessNeverEnds` | internal/vfs/vfs.go:416-457 | nor is it when the source lists an endless descent |
| `VfsCopyEnds.EndsFilled` | internal/vfs/vfs.go:416-457 | a copy into an empty folder that ends has not failed, and all its rows hang below that folder |
| `VfsCopy.Vfs.CreateFile` | internal/db/files.go:12-34 | a row is inserted unless its id, its name in its folder or its parent forbids it |
| `VfsCopy.CopyStep` | internal/vfs/vfs.go:424-454 | one more entry copied keeps all trees shown so far and the order of the listing |
| `VfsCopy.ShowsOne` | internal/vfs/vfs.go:416-457 | a row shows at most one tree, so the copy is determined up to ids |
| `VfsCopy.ShowsFrame` | internal/vfs/vfs.go:416-457 | appending rows elsewhere changes neither a tree nor the ids in it |
| `VfsCopy.NothingLeftOut` | internal/vfs/vfs.go:418 | while directories stay below the listing limit the copied tree is the whole tree |
| `VectorClock.Clock.Increment` | internal/sync/vector.go:33-35 | one more for the device, wrapping at 2^64 |
| `VectorClock.Clock.Merge` | internal/sync/vector.go:44-50 | takes the larger counter of each device, also when merged with itself |
| `VectorClock.Clock.Compare` | internal/sync/vector.go:53-84 | the two loops decide the pointwise order, missing devices counting zero |
| `VectorClock.Clock.Copy` | internal/sync/vector.go:97-103 | an independent clock with the same counters |
| `VectorClock.MergedIsLub` | internal/sync/vector.go:44-50 | merging is the least upper bound |
| `VectorClock.IncrementAdvances` | internal/sync/vector.go:33-35 | a clock comes before its increment exactly while the counter does not wrap |
| `VectorClock.CounterIff` | internal/sync/vector.go:33-84 | the n-th event of a device precedes another exactly when the other's counter for the device has reached n |
| `VectorClock.OrderIsCausality` | internal/sync/vector.go:33-84 | in any run, comparing two events' clocks tells exactly which causally precedes the other |
| `VectorClock.NegotiateClock` | internal/sync/engine.go:158-168 | the answer covers the client's clock and the stored one and leaves the client's alone |
| `VectorClock.CommitClock` | internal/sync/engine.go:204-219 | the clock is stored as sent and the answer comes after it |
| `WorkQueue.MemoryQueue.Push` | internal/worker/pool.go:57-76 | the job goes before the first of lower priority, all else in place |
| `WorkQueue.MemoryQueue.Pop` | internal/worker/pool.go:79-94 | removes and returns the first job |
| `WorkQueue.PushOrdered` | internal/worker/pool.go:57-76 | a push keeps the queue sorted by priority and first-in-first-out within one |
| `WorkQueue.WorkerPool.SubmitJob` | internal/worker/pool.go:142-147 | a retry limit of 0 becomes 3 |
| `WorkQueue.WorkerPool.ProcessJob` | internal/worker/pool.go:213-248 | a missing handler or a last attempt is reported, an earlier failure goes back to the queue |
| `WorkQueue.PoolConserves` | internal/worker/pool.go:57-248 | in every run the queue is in order, each submitted job is in exactly one of queue, workers and results, and runs at most once more than it may be retried; a reported failure of the handler is the last run allowed |
| `WorkQueue.LastTryDecides` | internal/worker/pool.go:213-248 | in every run a job is reported as its last try ended, as a success exactly when a handler ran and did not fail; every earlier try failed, each attempt is one try, and jobs not reported have only failed |
| `WorkQueue.TakesTheFirst` | internal/worker/pool.go:79-94 | whatever a worker takes is ahead of all that waits |
| `WorkQueue.DrainEnds` | internal/worker/pool.go:213-248 | without submissions only a bounded number of steps is possible |
| `WorkQueue.DrainedReported` | internal/worker/pool.go:213-248 | when no step is left each submission has its one result |
| `RateLimiter.RateLimitMiddleware.Limit` | internal/server/middleware.go:161-195 | with a clock that never runs back, a request is admitted exactly as the full history decides, cleanup or not |
| `RateLimiter.RateLimitMiddleware.CleanupOldClients` | internal/server/middleware.go:198-212 | forgets exactly the clients without a recent request |
| `RateLimiter.CleanedRemembers` | internal/server/middleware.go:171-175 | a cleanup forgets nothing that still counts |
| `RateLimiter.RefusedWhenFull` | internal/server/middleware.go:177-192 | a request is refused exactly when its client had the whole limit admitted within one window up to now |
| `RateLimiter.ClientsApart` | internal/server/middleware.go:161-195 | what one client gets admitted does not depend on the others |
| `RateLimiter.RateBound` | internal/server/middleware.go:177-192 | of requests less than a window apart no client has more than the limit admitted |
| `RateLimiter.BoundIff` | internal/server/middleware.go:177-192 | a set of times obeys the limit in every run with a clock that never runs back exactly when its times are less than a window apart (or the limit is below one) |
| `RateLimiter.IntervalBound` | internal/server/middleware.go:177-192 | so no half-open interval of one window holds more than the limit |
| `RateLimiter.ClosedInterval` | internal/server/middleware.go:179-183 | so no closed interval of one window obeys the limit in every run, while one a tick shorter does |

## Left out

- HTTP, JSON, SQL, WebSocket, FUSE, WebDAV, S3, IPFS, media conversion, tracing and the user interfaces: input, output and foreign calls.
- Digest, cipher and key derivation internals: parameters with the hypotheses named above.
- Failures of the database or the blob store in the middle of a handler, and interleavings finer than one handler.
- Sync changes whose bytes were never pushed: `Pushed` requires them, and `StoreDurability.BackedIffPushed` shows why.
- Users and their foreign keys; the device and lock tables.
- Path resolution inside sync add and modify: the store steps take the file and its parent, the walk and the lookups are modelled apart from them.
- Durability of copied files: a copy shares its source's manifest without a reference of its own.
- The FUSE write-back rollback and the WebDAV overwrite, which keep neither the counts nor the versions.
- Resetting a version to 1, which no handler calls.
- `detectConflict`, which never reports a conflict.
- Checks that a move does not create a cycle: the source has none, and cycles are where copy and folder paths do not end.
- The column for encrypted names, which copy does not carry over.
- `sort.Slice` leaves the order of equal paths open and SQL that of equal names; the model keeps their order, which only matters for lists with repeated paths.
- Stopping the pool, its timeouts and delays, and the capacity of the results channel.
- Sharing, roles, tokens, federation and the scheduler, which would only add easy members.
- Encrypted.EncryptAndStore: does not model a failing source of nonces; nonces are an argument.
- Encrypted.ReadableIff: speaks of runs of uploads that are stored in full or not at all.
- The bytes of a write that fails: they count as not written.
- Rabin.CreateRabinTable: says nothing about the polynomials 0 and 1, of degree 0, where the unsigned index of the reduction loop never falls below the degree.
- VfsCopy.Vfs.Copy: says nothing where the recursion of the code does not end; `VfsCopyEnds.CopyEndsIff` says exactly where that is.
- VfsPaths.GetFolderPath: says nothing where the loop of the code does not end; `VfsPaths.ClimbEndsIff` says exactly where that is.
- MerkleTree.Build: says nothing where the recursion of the code does not end; `MerkleBuilt.BuildEndsIff` says exactly where that is.
- Directories with 1000 entries or more, of which a copy sees only the first 1000: `VfsCopyEnds.CopyEndsIff` leaves room below that limit.
