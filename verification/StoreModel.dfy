/** The content store, step by step. */
module StoreModel {
  // Upload sessions, the file, manifest and chunk tables, and the blob store, with
  // every handler and collector as one atomic step
  // (internal/server/handlers_upload.go, internal/worker/gc.go,
  // internal/sync/engine.go, internal/db).

  import opened Common
  import opened Greedy

  type Hash = string
  type SessionId = string
  type FileId = string
  type ManifestId = string
  type Time = int

  datatype Status = Pending | InProgress | AllUploaded

  datatype Session = Session(
    user: string, parent: Option<FileId>, name: string, size: int, expiresAt: Time,
    total: nat, chunks: map<nat, nat>, chunkHashes: map<nat, seq<Hash>>, status: Status)

  datatype Kind = FileKind | FolderKind

  datatype FileRow = FileRow(
    user: string, parent: Option<FileId>, name: string, kind: Kind, size: int,
    manifest: Option<ManifestId>, trashedAt: Option<Time>, version: int)

  datatype Manifest = Manifest(file: FileId, version: int, size: int, chunks: seq<Hash>, createdAt: Time)

  datatype ChunkRow = ChunkRow(size: nat, refs: int, createdAt: Time)

  datatype Store = Store(
    sessions: map<SessionId, Session>,
    files: map<FileId, FileRow>,
    manifests: map<ManifestId, Manifest>,
    chunks: map<Hash, ChunkRow>,
    blobs: map<Hash, Bytes>)

  const EMPTY: Store := Store(map[], map[], map[], map[], map[])

  /** The digest and the cut test of the chunker. */
  datatype Config = Config(sha: Bytes -> Hash, cut: Cut)

  const CHUNK_SIZE: nat := 4 * 1024 * 1024
  const MAX_CHUNK_SIZE: nat := CHUNK_SIZE + 1024
  const MAX_UPLOAD_SIZE: nat := 10 * 1024 * 1024 * 1024
  const SESSION_TTL: nat := 24 * 60 * 60
  const KEPT_VERSIONS: nat := 5

  datatype Response =
    | NotFound | Forbidden | Gone | BadRequest | Conflict | ServerError
    | Created(total: nat)
    | AlreadyUploaded
    | Uploaded(hashes: seq<Hash>)
    | Missing(indexes: seq<nat>)
    | Completed(file: FileId)
    | Done

  // --- Reference counts --------------------------------------------------------

  /** A hash gains one reference; an unknown hash gets a row with one. */
  function AddRef(chunks: map<Hash, ChunkRow>, h: Hash, size: nat, now: Time): map<Hash, ChunkRow> {
    if h in chunks then chunks[h := chunks[h].(refs := chunks[h].refs + 1)]
    else chunks[h := ChunkRow(size, 1, now)]
  }

  /** The pieces of one uploaded chunk, deduplicated against the chunk table. */
  function Retain(sha: Bytes -> Hash, s: Store, pieces: seq<Bytes>, now: Time): Store {
    if pieces == [] then s else
      var n := |pieces| - 1;
      var t := Retain(sha, s, pieces[..n], now);
      var h := sha(pieces[n]);
      t.(chunks := AddRef(t.chunks, h, |pieces[n]|, now),
         blobs := if h in t.chunks then t.blobs else t.blobs[h := pieces[n]])
  }

  /** The references of a synced manifest; sizes are unknown. */
  function EnsureRefs(chunks: map<Hash, ChunkRow>, hashes: seq<Hash>, now: Time): map<Hash, ChunkRow> {
    if hashes == [] then chunks
    else AddRef(EnsureRefs(chunks, hashes[..|hashes| - 1], now), hashes[|hashes| - 1], 0, now)
  }

  /** How many references to release, hash by hash. */
  type Bag = Hash -> nat

  /** Whether releasing k(h) references drops h to zero. */
  predicate Dropped(chunks: map<Hash, ChunkRow>, k: Bag, h: Hash) {
    h in chunks && 1 <= chunks[h].refs <= k(h)
  }

  /** Releases a bag of references, in no particular order: rows that reach zero
      go, with their blobs. */
  function Release(s: Store, k: Bag): Store {
    s.(chunks := map h | h in s.chunks && !Dropped(s.chunks, k, h) ::
                   if s.chunks[h].refs >= 1 then s.chunks[h].(refs := s.chunks[h].refs - k(h)) else s.chunks[h],
       blobs := map h | h in s.blobs && !Dropped(s.chunks, k, h) :: s.blobs[h])
  }

  // --- Upload handlers -----------------------------------------------------------

  function CreateUpload(s: Store, user: string, sid: SessionId, parent: Option<FileId>, name: string,
                        size: int, now: Time): (Store, Response)
  {
    if name == "" || size <= 0 || size > MAX_UPLOAD_SIZE then (s, BadRequest) else
      var total := (size + CHUNK_SIZE - 1) / CHUNK_SIZE;
      var session := Session(user, parent, name, size, now + SESSION_TTL, total, map[], map[], Pending);
      (s.(sessions := s.sessions[sid := session]), Created(total))
  }

  /** The data the handler reads from the request body. */
  function Limited(body: Bytes): Bytes {
    if |body| > MAX_CHUNK_SIZE then body[..MAX_CHUNK_SIZE] else body
  }

  function RecordChunk(session: Session, index: nat, size: nat, hashes: seq<Hash>): Session {
    var chunks := session.chunks[index := size];
    session.(chunks := chunks,
             chunkHashes := session.chunkHashes[index := hashes],
             status := if |chunks| == session.total then AllUploaded else InProgress)
  }

  /** The answer when an upload is refused before any data is read. */
  function UploadRefusal(s: Store, user: string, sid: SessionId, index: int, length: int, body: Bytes,
                         now: Time): Option<Response>
  {
    if index < 0 then Some(BadRequest)
    else if sid !in s.sessions then Some(NotFound)
    else
      var session := s.sessions[sid];
      if session.user != user then Some(Forbidden)
      else if now > session.expiresAt then Some(Gone)
      else if index >= session.total then Some(BadRequest)
      else if index in session.chunks then Some(AlreadyUploaded)
      else if length > MAX_CHUNK_SIZE || length <= 0 || body == [] then Some(BadRequest)
      else None
  }

  ghost function UploadChunk(cfg: Config, s: Store, user: string, sid: SessionId, index: int, length: int,
                             body: Bytes, now: Time): (Store, Response)
  {
    var refusal := UploadRefusal(s, user, sid, index, length, body, now);
    if refusal.Some? then (s, refusal.value) else
      var data := Limited(body);
      var pieces := Pieces(cfg.cut, data);
      var hashes := Map(cfg.sha, pieces);
      var t := Retain(cfg.sha, s, pieces, now);
      (t.(sessions := s.sessions[sid := RecordChunk(s.sessions[sid], index, |data|, hashes)]), Uploaded(hashes))
  }

  /** The indexes below n that have no chunk, in order. */
  function MissingBelow(chunks: map<nat, nat>, n: nat): seq<nat> {
    if n == 0 then [] else MissingBelow(chunks, n - 1) + if n - 1 in chunks then [] else [n - 1]
  }

  /** The hashes of chunks 0..n in index order. */
  function Gather(chunkHashes: map<nat, seq<Hash>>, n: nat): seq<Hash> {
    if n == 0 then [] else
      Gather(chunkHashes, n - 1) + if n - 1 in chunkHashes then chunkHashes[n - 1] else []
  }

  predicate ValidName(name: string) {
    && name != "" && name != "." && name != ".."
    && forall i :: 0 <= i < |name| ==> name[i] != '/' && name[i] >= ' '
  }

  /** An untrashed sibling with this name. */
  predicate NameTaken(s: Store, user: string, parent: Option<FileId>, name: string) {
    exists f :: f in s.files && s.files[f].user == user && s.files[f].parent == parent
                && s.files[f].name == name && s.files[f].trashedAt.None?
  }

  /** The table constraints on a new file row: primary key, parent reference, and
      the unique key, which does not bind rows without a parent. */
  predicate FileAdmissible(s: Store, f: FileId, row: FileRow) {
    && f !in s.files
    && (row.parent.Some? ==> row.parent.value in s.files)
    && KeyFree(s, f, row)
  }

  predicate KeyFree(s: Store, f: FileId, row: FileRow) {
    row.parent.Some? ==>
      !exists g :: g in s.files && g != f && s.files[g].user == row.user
                   && s.files[g].parent == row.parent && s.files[g].name == row.name
  }

  /** The table constraints on a new manifest row. */
  predicate ManifestAdmissible(s: Store, m: ManifestId, row: Manifest) {
    && m !in s.manifests
    && row.file in s.files
    && !exists n :: n in s.manifests && s.manifests[n].file == row.file && s.manifests[n].version == row.version
  }

  function CompleteUpload(s: Store, user: string, sid: SessionId, f: FileId, m: ManifestId, now: Time)
    : (Store, Response)
  {
    if sid !in s.sessions then (s, NotFound) else
      var session := s.sessions[sid];
      if session.user != user then (s, Forbidden)
      else if |session.chunks| < session.total then (s, Missing(MissingBelow(session.chunks, session.total)))
      else if !ValidName(session.name) then (s, BadRequest)
      else if NameTaken(s, user, session.parent, session.name) then (s, Conflict)
      else
        var row := FileRow(user, session.parent, session.name, FileKind, session.size, None, None, 1);
        if !FileAdmissible(s, f, row) then (s, ServerError) else
          var t := s.(files := s.files[f := row]);
          var manifest := Manifest(f, 1, session.size, Gather(session.chunkHashes, session.total), now);
          if !ManifestAdmissible(t, m, manifest)
          then (t.(files := t.files[f := row.(trashedAt := Some(now))]), ServerError)
          else (t.(files := t.files[f := row.(manifest := Some(m))],
                   manifests := t.manifests[m := manifest],
                   sessions := t.sessions - {sid}), Completed(f))
  }

  /** The references a list of hashes holds. */
  function ListBag(hashes: seq<Hash>): Bag {
    (h: Hash) => multiset(hashes)[h]
  }

  /** The references a session holds. */
  ghost function SessionTally(session: Session, h: Hash): nat {
    Total(session.chunkHashes, Occurs(h))
  }

  ghost function SessionBag(session: Session): Bag {
    (h: Hash) => SessionTally(session, h)
  }

  /** The references a table of sessions holds. */
  ghost function SessionsTally(sessions: map<SessionId, Session>, h: Hash): nat {
    Total(sessions, SessionWeight(h))
  }

  ghost function SessionsBag(sessions: map<SessionId, Session>): Bag {
    (h: Hash) => SessionsTally(sessions, h)
  }

  ghost function CancelUpload(s: Store, user: string, sid: SessionId): (Store, Response)
  {
    if sid !in s.sessions then (s, NotFound)
    else if s.sessions[sid].user != user then (s, Forbidden)
    else (Release(s.(sessions := s.sessions - {sid}), SessionBag(s.sessions[sid])), Done)
  }

  function ExpiredSessions(s: Store, now: Time): map<SessionId, Session> {
    map sid | sid in s.sessions && now > s.sessions[sid].expiresAt :: s.sessions[sid]
  }

  ghost function CleanupExpired(s: Store, now: Time): Store {
    var expired := ExpiredSessions(s, now);
    Release(s.(sessions := s.sessions - expired.Keys), SessionsBag(expired))
  }

  // --- Deletion and collection -----------------------------------------------------

  /** Deleting rows deletes the rows below them: the least set of rows that
      contains `doomed` and the children of its members. */
  function Cascade(files: map<FileId, FileRow>, doomed: set<FileId>): set<FileId>
    decreases files.Keys - doomed
  {
    var below := set f | f in files && f !in doomed && files[f].parent.Some? && files[f].parent.value in doomed;
    if below == {} then doomed else
      assert below <= files.Keys - doomed;
      Cascade(files, doomed + below)
  }

  function DeleteRows(s: Store, doomed: set<FileId>): Store {
    s.(files := s.files - doomed,
       manifests := map m | m in s.manifests && s.manifests[m].file !in doomed :: s.manifests[m])
  }

  predicate IsLatest(s: Store, f: FileId, m: ManifestId) {
    && m in s.manifests && s.manifests[m].file == f
    && forall n :: n in s.manifests && s.manifests[n].file == f ==> s.manifests[n].version <= s.manifests[m].version
  }

  predicate HasManifest(s: Store, f: FileId) {
    exists m :: m in s.manifests && s.manifests[m].file == f
  }

  ghost function Latest(s: Store, f: FileId): ManifestId
    requires HasManifest(s, f)
    ensures IsLatest(s, f, Latest(s, f))
  {
    LatestExists(s, f);
    var m :| IsLatest(s, f, m);
    m
  }

  /** The collector's permanent deletion of one file; the answer is the lookup of
      its newest manifest. */
  ghost function DeleteFile(s: Store, f: FileId): (Store, Response) {
    var t := if HasManifest(s, f) then Release(s, ListBag(s.manifests[Latest(s, f)].chunks)) else s;
    (if f in s.files then DeleteRows(t, Cascade(s.files, {f})) else t,
     if HasManifest(s, f) then Done else NotFound)
  }

  function PermanentDelete(s: Store, user: string, f: FileId): (Store, Response) {
    if f !in s.files then (s, NotFound)
    else if s.files[f].user != user then (s, Forbidden)
    else (DeleteRows(s, Cascade(s.files, {f})), Done)
  }

  /** What the orphan collector removes. */
  function Orphans(s: Store, olderThan: Option<Time>): set<Hash> {
    set h | h in s.chunks && s.chunks[h].refs == 0 && olderThan.Some?
            && s.chunks[h].createdAt <= olderThan.value && h in s.blobs
  }

  function CollectOrphans(s: Store, olderThan: Option<Time>): Store {
    s.(chunks := s.chunks - Orphans(s, olderThan), blobs := s.blobs - Orphans(s, olderThan))
  }

  /** The manifests of the same file, old enough to be listed, and newer than m. */
  function NewerListed(s: Store, cutoff: Time, m: ManifestId): set<ManifestId>
    requires m in s.manifests
  {
    set n | n in s.manifests && s.manifests[n].file == s.manifests[m].file
            && s.manifests[n].createdAt < cutoff && s.manifests[n].version > s.manifests[m].version
  }

  predicate IsOldVersion(s: Store, cutoff: Time, m: ManifestId) {
    m in s.manifests && s.manifests[m].createdAt < cutoff && |NewerListed(s, cutoff, m)| >= KEPT_VERSIONS
  }

  function CollectOldVersions(s: Store, cutoff: Time): Store {
    s.(manifests := map m | m in s.manifests && !IsOldVersion(s, cutoff, m) :: s.manifests[m])
  }

  // --- Sync and tree operations -------------------------------------------------------

  function PushChunk(sha: Bytes -> Hash, s: Store, h: Hash, data: Bytes): (Store, Response) {
    if h == "" || sha(data) != h then (s, BadRequest)
    else (s.(blobs := s.blobs[h := data]), Done)
  }

  function SyncAdd(s: Store, user: string, f: FileId, parent: Option<FileId>, name: string, size: int,
                   hashes: seq<Hash>, m: ManifestId, now: Time): (Store, Response)
  {
    var row := FileRow(user, parent, name, FileKind, size, None, None, 1);
    if !FileAdmissible(s, f, row) then (s, ServerError) else
      var t := s.(files := s.files[f := row]);
      if hashes == [] then (t, Done) else
        var manifest := Manifest(f, 1, size, hashes, now);
        if !ManifestAdmissible(t, m, manifest) then (t, ServerError)
        else (t.(files := t.files[f := row.(manifest := Some(m))],
                 manifests := t.manifests[m := manifest],
                 chunks := EnsureRefs(t.chunks, hashes, now)), Done)
  }

  function SyncModify(s: Store, f: FileId, size: int, hashes: seq<Hash>, m: ManifestId, now: Time): (Store, Response) {
    if f !in s.files || s.files[f].trashedAt.Some? then (s, NotFound) else
      var version := s.files[f].version + 1;
      var manifest := Manifest(f, version, size, hashes, now);
      if !ManifestAdmissible(s, m, manifest) then (s, ServerError)
      else (s.(files := s.files[f := s.files[f].(manifest := Some(m), size := size, version := version)],
               manifests := s.manifests[m := manifest],
               chunks := EnsureRefs(s.chunks, hashes, now)), Done)
  }

  /** Creating a folder, moving, trashing, restoring, bumping the version. */
  datatype TreeOp =
    | CreateFolder(parent: Option<FileId>, name: string)
    | Move(newParent: Option<FileId>, newName: string)
    | Trash(now: Time)
    | Restore
    | BumpVersion

  function ChangeTree(s: Store, user: string, f: FileId, op: TreeOp): (Store, Response) {
    match op
    case CreateFolder(parent, name) =>
      var row := FileRow(user, parent, name, FolderKind, 0, None, None, 1);
      if !ValidName(name) then (s, BadRequest)
      else if NameTaken(s, user, parent, name) then (s, Conflict)
      else if !FileAdmissible(s, f, row) then (s, ServerError)
      else (s.(files := s.files[f := row]), Done)
    case Move(parent, name) =>
      if name != "" && !ValidName(name) then (s, BadRequest)
      else if f !in s.files then (s, NotFound)
      else
        var row := s.files[f].(parent := parent, name := if name == "" then s.files[f].name else name);
        if (parent.Some? && parent.value !in s.files) || !KeyFree(s, f, row) then (s, ServerError)
        else (s.(files := s.files[f := row]), Done)
    case Trash(now) =>
      if f !in s.files then (s, NotFound)
      else (s.(files := s.files[f := s.files[f].(trashedAt := Some(now))]), Done)
    case Restore =>
      if f !in s.files then (s, NotFound)
      else (s.(files := s.files[f := s.files[f].(trashedAt := None)]), Done)
    case BumpVersion =>
      if f !in s.files then (s, NotFound)
      else (s.(files := s.files[f := s.files[f].(version := s.files[f].version + 1)]), Done)
  }

  // --- Runs -----------------------------------------------------------------------------

  datatype Op =
    | OpCreateUpload(user: string, sid: SessionId, parent: Option<FileId>, name: string, size: int, now: Time)
    | OpUploadChunk(user: string, sid: SessionId, index: int, length: int, body: Bytes, now: Time)
    | OpCompleteUpload(user: string, sid: SessionId, f: FileId, m: ManifestId, now: Time)
    | OpCancelUpload(user: string, sid: SessionId)
    | OpCleanupExpired(now: Time)
    | OpDeleteFile(f: FileId)
    | OpPermanentDelete(user: string, f: FileId)
    | OpCollectOrphans(olderThan: Option<Time>)
    | OpCollectOldVersions(cutoff: Time)
    | OpPushChunk(h: Hash, data: Bytes)
    | OpSyncAdd(user: string, f: FileId, parent: Option<FileId>, name: string, size: int, hashes: seq<Hash>,
                m: ManifestId, now: Time)
    | OpSyncModify(f: FileId, size: int, hashes: seq<Hash>, m: ManifestId, now: Time)
    | OpTree(user: string, f: FileId, change: TreeOp)

  ghost function Step(cfg: Config, s: Store, op: Op): (Store, Response) {
    match op
    case OpCreateUpload(user, sid, parent, name, size, now) => CreateUpload(s, user, sid, parent, name, size, now)
    case OpUploadChunk(user, sid, index, length, body, now) => UploadChunk(cfg, s, user, sid, index, length, body, now)
    case OpCompleteUpload(user, sid, f, m, now) => CompleteUpload(s, user, sid, f, m, now)
    case OpCancelUpload(user, sid) => CancelUpload(s, user, sid)
    case OpCleanupExpired(now) => (CleanupExpired(s, now), Done)
    case OpDeleteFile(f) => DeleteFile(s, f)
    case OpPermanentDelete(user, f) => PermanentDelete(s, user, f)
    case OpCollectOrphans(olderThan) => (CollectOrphans(s, olderThan), Done)
    case OpCollectOldVersions(cutoff) => (CollectOldVersions(s, cutoff), Done)
    case OpPushChunk(h, data) => PushChunk(cfg.sha, s, h, data)
    case OpSyncAdd(user, f, parent, name, size, hashes, m, now) =>
      SyncAdd(s, user, f, parent, name, size, hashes, m, now)
    case OpSyncModify(f, size, hashes, m, now) => SyncModify(s, f, size, hashes, m, now)
    case OpTree(user, f, change) => ChangeTree(s, user, f, change)
  }

  ghost function Run(cfg: Config, ops: seq<Op>): Store {
    if ops == [] then EMPTY else Step(cfg, Run(cfg, ops[..|ops| - 1]), ops[|ops| - 1]).0
  }

  /** Sync changes name only chunks whose bytes have been pushed. */
  ghost predicate Pushed(s: Store, op: Op) {
    (op.OpSyncAdd? || op.OpSyncModify?) ==> forall h :: h in op.hashes ==> h in s.blobs
  }

  ghost predicate PushedRun(cfg: Config, ops: seq<Op>) {
    ops == [] || (PushedRun(cfg, ops[..|ops| - 1]) && Pushed(Run(cfg, ops[..|ops| - 1]), ops[|ops| - 1]))
  }

  // --- Totals over tables ---------------------------------------------------------------------

  /** The sum of the weights of a table's values. */
  ghost function Total<K, V>(m: map<K, V>, w: V -> nat): nat
    decreases |m|
  {
    if |m| == 0 then 0 else
      var k :| k in m;
      w(m[k]) + Total(m - {k}, w)
  }

  lemma RemoveCommutes<K, V>(m: map<K, V>, j: K, k: K)
    ensures m - {j} - {k} == m - {k} - {j}
  {}

  lemma RemoveAbsent<K, V>(m: map<K, V>, k: K)
    requires k !in m
    ensures m - {k} == m
  {}

  lemma RemoveSmaller<K, V>(m: map<K, V>, k: K)
    requires k in m
    ensures |m - {k}| < |m|
  {
    assert (m - {k}).Keys == m.Keys - {k};
    assert |(m - {k}).Keys| == |m - {k}| && |m.Keys| == |m|;
  }

  /** The key the sum starts with. */
  lemma TotalPick<K, V>(m: map<K, V>, w: V -> nat) returns (k: K)
    requires |m| > 0
    ensures k in m && Total(m, w) == w(m[k]) + Total(m - {k}, w)
  {
    k :| k in m && Total(m, w) == w(m[k]) + Total(m - {k}, w);
  }

  lemma {:induction false} TotalRemove<K, V>(m: map<K, V>, w: V -> nat, k: K)
    requires k in m
    ensures Total(m, w) == w(m[k]) + Total(m - {k}, w)
    decreases |m|
  {
    var j := TotalPick(m, w);
    if j != k {
      RemoveSmaller(m, j);
      RemoveSmaller(m, k);
      TotalRemove(m - {j}, w, k);
      TotalRemove(m - {k}, w, j);
      RemoveCommutes(m, j, k);
    }
  }

  lemma TotalSet<K, V>(m: map<K, V>, w: V -> nat, k: K, v: V)
    ensures Total(m[k := v], w) == w(v) + Total(m - {k}, w)
    ensures Total(m, w) == (if k in m then w(m[k]) else 0) + Total(m - {k}, w)
  {
    TotalRemove(m[k := v], w, k);
    SetRemove(m, k, v);
    if k in m { TotalRemove(m, w, k); } else { RemoveAbsent(m, k); }
  }

  lemma SetRemove<K, V>(m: map<K, V>, k: K, v: V)
    ensures m[k := v] - {k} == m - {k}
  {}

  lemma UnionRemove<K, V>(a: map<K, V>, b: map<K, V>, k: K)
    requires a.Keys !! b.Keys && k in b
    ensures (a + b) - {k} == a + (b - {k}) && k in a + b && (a + b)[k] == b[k]
  {}

  lemma UnionEmpty<K, V>(a: map<K, V>, b: map<K, V>)
    requires |b| == 0
    ensures a + b == a
  {}

  /** Disjoint tables add up. */
  lemma {:induction false} TotalUnion<K, V>(a: map<K, V>, b: map<K, V>, w: V -> nat)
    requires a.Keys !! b.Keys
    ensures Total(a + b, w) == Total(a, w) + Total(b, w)
    decreases |b|
  {
    if |b| == 0 {
      UnionEmpty(a, b);
    } else {
      var k :| k in b;
      TotalRemove(b, w, k);
      TotalUnion(a, b - {k}, w);
      UnionRemove(a, b, k);
      TotalRemove(a + b, w, k);
    }
  }

  /** A table split in two. */
  lemma TotalSplit<K, V>(m: map<K, V>, a: map<K, V>, b: map<K, V>, w: V -> nat)
    requires forall k :: k in m <==> k in a || k in b
    requires forall k :: k in a ==> k !in b && k in m && m[k] == a[k]
    requires forall k :: k in b ==> k in m && m[k] == b[k]
    ensures Total(m, w) == Total(a, w) + Total(b, w)
  {
    UnionOf(m, a, b);
    TotalUnion(a, b, w);
  }

  lemma UnionOf<K, V>(m: map<K, V>, a: map<K, V>, b: map<K, V>)
    requires forall k :: k in m <==> k in a || k in b
    requires forall k :: k in a ==> k !in b && k in m && m[k] == a[k]
    requires forall k :: k in b ==> k in m && m[k] == b[k]
    ensures a.Keys !! b.Keys && m == a + b
  {}

  function Occurs(h: Hash): seq<Hash> -> nat {
    (hashes: seq<Hash>) => multiset(hashes)[h]
  }

  ghost function SessionWeight(h: Hash): Session -> nat {
    (session: Session) => SessionTally(session, h)
  }

  function ManifestWeight(h: Hash): Manifest -> nat {
    (manifest: Manifest) => multiset(manifest.chunks)[h]
  }

  /** The references to h held by open sessions and live manifests. */
  ghost function Held(s: Store, h: Hash): nat {
    SessionsTally(s.sessions, h) + ManifestsTally(s.manifests, h)
  }

  ghost function ManifestsTally(manifests: map<ManifestId, Manifest>, h: Hash): nat {
    Total(manifests, ManifestWeight(h))
  }

  /** The reference count of a hash; no row counts as zero. */
  function Count(s: Store, h: Hash): int {
    if h in s.chunks then s.chunks[h].refs else 0
  }

  // --- What filing an upload or a sync addition does -------------------------------------------

  /** File f was created and linked to manifest m, which lists these hashes. */
  ghost predicate Filed(s: Store, t: Store, f: FileId, m: ManifestId, hashes: seq<Hash>) {
    && f !in s.files && f in t.files && t.files == s.files[f := t.files[f]]
    && m !in s.manifests && m in t.manifests && t.manifests == s.manifests[m := t.manifests[m]]
    && t.manifests[m].file == f && t.manifests[m].version == t.files[f].version && t.manifests[m].chunks == hashes
    && t.files[f].manifest == Some(m)
    && (t.files[f].parent.Some? ==> t.files[f].parent.value in s.files)
  }

  /** At most a file without a manifest was created. */
  ghost predicate Unfiled(s: Store, t: Store, f: FileId) {
    && t == s.(files := t.files)
    && (t.files == s.files ||
        (f !in s.files && f in t.files && t.files == s.files[f := t.files[f]] && t.files[f].manifest == None
         && (t.files[f].parent.Some? ==> t.files[f].parent.value in s.files)))
  }

  lemma CompleteCases(s: Store, user: string, sid: SessionId, f: FileId, m: ManifestId, now: Time)
    ensures var (t, r) := CompleteUpload(s, user, sid, f, m, now);
      if r.Completed? then
        && r.file == f && sid in s.sessions
        && t == s.(sessions := s.sessions - {sid}, files := t.files, manifests := t.manifests)
        && Filed(s, t, f, m, Gather(s.sessions[sid].chunkHashes, s.sessions[sid].total))
      else Unfiled(s, t, f)
  {}

  lemma SyncAddCases(s: Store, op: Op)
    requires op.OpSyncAdd?
    ensures var (t, r) := SyncAdd(s, op.user, op.f, op.parent, op.name, op.size, op.hashes, op.m, op.now);
      if r.Done? && op.hashes != [] then
        && t == s.(files := t.files, manifests := t.manifests, chunks := EnsureRefs(s.chunks, op.hashes, op.now))
        && Filed(s, t, op.f, op.m, op.hashes)
      else Unfiled(s, t, op.f)
  {}

  lemma {:induction false} LatestAmong(s: Store, ms: set<ManifestId>) returns (m: ManifestId)
    requires ms != {} && forall n :: n in ms ==> n in s.manifests
    ensures m in ms && forall n :: n in ms ==> s.manifests[n].version <= s.manifests[m].version
    decreases ms
  {
    m :| m in ms;
    var rest := ms - {m};
    if rest == {} {
      assert ms == {m};
    } else {
      var best := LatestAmong(s, rest);
      var first := m;
      if s.manifests[best].version > s.manifests[m].version { m := best; }
      forall n | n in ms ensures s.manifests[n].version <= s.manifests[m].version {
        assert n == first || n in rest;
      }
    }
  }

  lemma LatestExists(s: Store, f: FileId)
    requires HasManifest(s, f)
    ensures exists m :: IsLatest(s, f, m)
  {
    var ms := set m | m in s.manifests && s.manifests[m].file == f;
    var w :| w in s.manifests && s.manifests[w].file == f;
    assert w in ms;
    var m := LatestAmong(s, ms);
    assert IsLatest(s, f, m);
  }
}
