/** What the tables of the store hold over whole runs. */
module StoreTables {
  // Sync changes by their effect on the tables, the keys of the file table, when
  // rows disappear, and what sessions and chunk rows record.

  import opened Common
  import opened Greedy
  import opened StoreModel
  import opened StoreAccounting
  import opened StoreVersions
  import opened StoreDurability
  import opened StoreAnswers

  // --- Sync changes -----------------------------------------------------------------------

  /** An added file is refused when its key or its name in a folder is taken or the
      folder is gone; a clash of manifests leaves the file without content. */
  lemma SyncAddAnswers(cfg: Config, ops: seq<Op>, op: Op)
    requires PushedRun(cfg, ops) && op.OpSyncAdd?
    ensures var s, r := Run(cfg, ops), AnswerTo(cfg, ops, op);
      var t := Step(cfg, s, op).0;
      var refused := op.f in s.files || (op.parent.Some? &&
        (op.parent.value !in s.files || exists g :: g in s.files && s.files[g].user == op.user
                                                     && s.files[g].parent == op.parent && s.files[g].name == op.name));
      && (r.Done? <==> !refused && (op.hashes == [] || op.m !in s.manifests))
      && (!r.Done? ==> r.ServerError?)
      && (refused ==> t == s)
      && (!refused ==> op.f in t.files && t.files[op.f].user == op.user && t.files[op.f].parent == op.parent
                       && t.files[op.f].name == op.name && t.files[op.f].size == op.size && t.files[op.f].version == 1
                       && t.files[op.f].kind.FileKind? && t.files[op.f].trashedAt.None?
                       && (t.files[op.f].manifest == if r.Done? && op.hashes != [] then Some(op.m) else None))
      && (r.Done? && op.hashes != [] ==>
            op.m in t.manifests && t.manifests[op.m] == Manifest(op.f, 1, op.size, op.hashes, op.now))
  {
    RunAccounted(cfg, ops);
  }

  /** A changed file is refused when it is gone or trashed; its version grows by one
      and nothing else about the file changes. */
  lemma SyncModifyAnswers(cfg: Config, ops: seq<Op>, op: Op)
    requires PushedRun(cfg, ops) && op.OpSyncModify?
    ensures var s, r := Run(cfg, ops), AnswerTo(cfg, ops, op);
      var t := Step(cfg, s, op).0;
      && (r.NotFound? <==> !(op.f in s.files && s.files[op.f].trashedAt.None?))
      && (r.ServerError? <==> !r.NotFound? && op.m in s.manifests)
      && (r.Done? <==> !r.NotFound? && op.m !in s.manifests)
      && (!r.Done? ==> t == s)
      && (r.Done? ==> op.f in t.files && op.m in t.manifests && t.files == s.files[op.f := t.files[op.f]]
                      && t.files[op.f].manifest == Some(op.m) && t.files[op.f].size == op.size
                      && t.files[op.f].version == s.files[op.f].version + 1
                      && s.files[op.f] == t.files[op.f].(manifest := s.files[op.f].manifest,
                                                         size := s.files[op.f].size, version := s.files[op.f].version)
                      && t.manifests[op.m].version == t.files[op.f].version && t.manifests[op.m].size == op.size
                      && t.manifests[op.m].file == op.f && t.manifests[op.m].chunks == op.hashes
                      && t.manifests[op.m].createdAt == op.now)
  {
    RunVersioned(cfg, ops);
    var s := Run(cfg, ops);
    if op.f in s.files {
      forall n | n in s.manifests && s.manifests[n].file == op.f
        ensures s.manifests[n].version != s.files[op.f].version + 1
      {
        assert ManifestVersioned(s, n);
      }
    }
  }

  /** Bytes are stored exactly under their own digest. */
  lemma PushAnswers(sha: Bytes -> Hash, s: Store, h: Hash, data: Bytes)
    ensures var (t, r) := PushChunk(sha, s, h, data);
      && (r.Done? <==> h != "" && h == sha(data)) && (!r.Done? ==> r.BadRequest? && t == s)
      && (r.Done? ==> h in t.blobs && t.blobs[h] == data && t == s.(blobs := t.blobs))
      && forall g :: g != h ==> (g in t.blobs <==> g in s.blobs) && (g in s.blobs ==> t.blobs[g] == s.blobs[g])
  {}

  /** Changes of the tree touch one row, and of it only what they are for. */
  lemma TreeAnswers(s: Store, user: string, f: FileId, change: TreeOp)
    ensures var (t, r) := ChangeTree(s, user, f, change);
      && (!r.Done? ==> t == s)
      && (!change.CreateFolder? && !r.BadRequest? ==> (r.NotFound? <==> f !in s.files))
      && (r.BadRequest? <==> (change.CreateFolder? && !Printable(change.name))
                             || (change.Move? && change.newName != "" && !Printable(change.newName)))
      && (r.Done? ==> f in t.files && t == s.(files := s.files[f := t.files[f]]))
      && (r.Done? && !change.CreateFolder? ==> f in s.files && t.files[f].user == s.files[f].user
                                               && t.files[f].kind == s.files[f].kind
                                               && t.files[f].size == s.files[f].size
                                               && t.files[f].manifest == s.files[f].manifest)
      && (r.Done? && change.CreateFolder? ==> f !in s.files && t.files[f].kind.FolderKind? && t.files[f].user == user
                                              && t.files[f].parent == change.parent && t.files[f].name == change.name)
      && (r.Done? && change.Move? ==>
            t.files[f].parent == change.newParent
            && t.files[f].name == if change.newName != "" then change.newName else s.files[f].name)
      && (r.Done? && !change.CreateFolder? && !change.Move? ==> SameKey(s.files[f], t.files[f]))
      && (r.Done? && change.Trash? ==> t.files[f].trashedAt == Some(change.now))
      && (r.Done? && change.Restore? ==> t.files[f].trashedAt == None)
      && (r.Done? && (change.Move? || change.BumpVersion?) ==> t.files[f].trashedAt == s.files[f].trashedAt)
      && (r.Done? && !change.CreateFolder? ==>
            t.files[f].version == s.files[f].version + if change.BumpVersion? then 1 else 0)
  {
    if change.CreateFolder? { NameIs(change.name); }
    if change.Move? { NameIs(change.newName); }
  }

  // --- Keys ---------------------------------------------------------------------------------

  /** Two rows of one folder have different names, trashed or not. */
  ghost predicate KeysUnique(files: map<FileId, FileRow>) {
    forall f, g :: f in files && g in files && f != g ==> KeysDiffer(files[f], files[g])
  }

  ghost predicate KeysDiffer(a: FileRow, b: FileRow) {
    a.parent.Some? ==> a.user != b.user || a.parent != b.parent || a.name != b.name
  }

  predicate SameKey(a: FileRow, b: FileRow) { a.user == b.user && a.parent == b.parent && a.name == b.name }

  /** Rows go or change, but no key does. */
  lemma KeysKept(files: map<FileId, FileRow>, after: map<FileId, FileRow>)
    requires KeysUnique(files) && SameKeys(files, after)
    ensures KeysUnique(after)
  {
    forall f, g | f in after && g in after && f != g ensures KeysDiffer(after[f], after[g]) {
      assert KeysDiffer(files[f], files[g]);
    }
  }

  lemma KeySet(s: Store, f: FileId, row: FileRow)
    requires KeysUnique(s.files) && KeyFree(s, f, row)
    ensures KeysUnique(s.files[f := row])
  {
    var after := s.files[f := row];
    forall g, h | g in after && h in after && g != h ensures KeysDiffer(after[g], after[h]) {
      if g != f && h != f { assert KeysDiffer(s.files[g], s.files[h]); }
    }
  }

  /** At most one row was set, under a free key. */
  ghost predicate SetsKey(s: Store, t: Store, f: FileId) {
    t.files == s.files || (f in t.files && t.files == s.files[f := t.files[f]] && KeyFree(s, f, t.files[f]))
  }

  lemma SetKeys(s: Store, t: Store, f: FileId)
    requires KeysUnique(s.files) && SetsKey(s, t, f)
    ensures KeysUnique(t.files)
  {
    if t.files != s.files { KeySet(s, f, t.files[f]); }
  }

  /** A completion that sets a row found its key free. */
  lemma CompleteAdmits(s: Store, op: Op)
    requires op.OpCompleteUpload? && CompleteUpload(s, op.user, op.sid, op.f, op.m, op.now).0.files != s.files
    ensures op.sid in s.sessions
    ensures var session := s.sessions[op.sid];
      KeyFree(s, op.f, FileRow(op.user, session.parent, session.name, FileKind, session.size, None, None, 1))
  {}

  lemma CompleteRow(s: Store, op: Op)
    requires op.OpCompleteUpload? && CompleteUpload(s, op.user, op.sid, op.f, op.m, op.now).0.files != s.files
    ensures op.sid in s.sessions
    ensures var t, session := CompleteUpload(s, op.user, op.sid, op.f, op.m, op.now).0, s.sessions[op.sid];
      op.f in t.files && t.files[op.f].user == op.user && t.files[op.f].parent == session.parent
      && t.files[op.f].name == session.name
  {}

  lemma CompleteSets(s: Store, op: Op)
    requires op.OpCompleteUpload?
    ensures SetsKey(s, CompleteUpload(s, op.user, op.sid, op.f, op.m, op.now).0, op.f)
  {
    CompleteCases(s, op.user, op.sid, op.f, op.m, op.now);
    if CompleteUpload(s, op.user, op.sid, op.f, op.m, op.now).0.files != s.files {
      CompleteAdmits(s, op);
      CompleteRow(s, op);
    }
  }

  lemma SyncAddSets(s: Store, op: Op)
    requires op.OpSyncAdd?
    ensures SetsKey(s, SyncAdd(s, op.user, op.f, op.parent, op.name, op.size, op.hashes, op.m, op.now).0, op.f)
  {}

  lemma ArrivalSets(s: Store, user: string, f: FileId, change: TreeOp)
    requires change.CreateFolder? || change.Move?
    ensures SetsKey(s, ChangeTree(s, user, f, change).0, f)
  {}

  ghost predicate SameKeys(files: map<FileId, FileRow>, after: map<FileId, FileRow>) {
    forall f :: f in after ==> f in files && SameKey(files[f], after[f])
  }

  lemma OtherChangesKeep(s: Store, user: string, f: FileId, change: TreeOp)
    requires !change.CreateFolder? && !change.Move?
    ensures SameKeys(s.files, ChangeTree(s, user, f, change).0.files)
  {}

  lemma TreeKeys(s: Store, user: string, f: FileId, change: TreeOp)
    requires KeysUnique(s.files)
    ensures KeysUnique(ChangeTree(s, user, f, change).0.files)
  {
    if change.CreateFolder? || change.Move? {
      ArrivalSets(s, user, f, change);
      SetKeys(s, ChangeTree(s, user, f, change).0, f);
    } else {
      OtherChangesKeep(s, user, f, change);
      KeysKept(s.files, ChangeTree(s, user, f, change).0.files);
    }
  }

  lemma OthersKeepKeys(cfg: Config, s: Store, op: Op)
    requires !op.OpUploadChunk? && !op.OpCompleteUpload? && !op.OpSyncAdd? && !op.OpTree?
    ensures SameKeys(s.files, Step(cfg, s, op).0.files)
  {}

  lemma StepKeys(cfg: Config, s: Store, op: Op)
    requires KeysUnique(s.files)
    ensures KeysUnique(Step(cfg, s, op).0.files)
  {
    var t := Step(cfg, s, op).0;
    match op
    case OpUploadChunk(_, _, _, _, body, now) => RetainKeepsFiles(cfg.sha, s, Pieces(cfg.cut, Limited(body)), now);
    case OpCompleteUpload(_, _, f, _, _) => CompleteSets(s, op); SetKeys(s, t, f);
    case OpSyncAdd(_, f, _, _, _, _, _, _) => SyncAddSets(s, op); SetKeys(s, t, f);
    case OpTree(user, f, change) => TreeKeys(s, user, f, change);
    case _ => OthersKeepKeys(cfg, s, op); KeysKept(s.files, t.files);
  }

  /** In every run the rows of one folder have different names. */
  lemma {:induction false} RunKeys(cfg: Config, ops: seq<Op>)
    ensures KeysUnique(Run(cfg, ops).files)
  {
    if ops != [] {
      RunKeys(cfg, ops[..|ops| - 1]);
      StepKeys(cfg, Run(cfg, ops[..|ops| - 1]), ops[|ops| - 1]);
    }
  }

  // --- When rows disappear ---------------------------------------------------------------------

  /** No row disappears. */
  ghost predicate RowsStay(s: Store, t: Store) {
    s.files.Keys <= t.files.Keys && s.manifests.Keys <= t.manifests.Keys
  }

  lemma CompleteStays(s: Store, op: Op)
    requires op.OpCompleteUpload?
    ensures RowsStay(s, CompleteUpload(s, op.user, op.sid, op.f, op.m, op.now).0)
  {}

  lemma SyncAddStays(s: Store, op: Op)
    requires op.OpSyncAdd?
    ensures RowsStay(s, SyncAdd(s, op.user, op.f, op.parent, op.name, op.size, op.hashes, op.m, op.now).0)
  {}

  lemma SyncModifyStays(s: Store, op: Op)
    requires op.OpSyncModify?
    ensures RowsStay(s, SyncModify(s, op.f, op.size, op.hashes, op.m, op.now).0)
  {}

  lemma TreeStays(s: Store, user: string, f: FileId, change: TreeOp)
    ensures RowsStay(s, ChangeTree(s, user, f, change).0)
  {}

  lemma StepStays(cfg: Config, s: Store, op: Op)
    requires !op.OpDeleteFile? && !op.OpPermanentDelete? && !op.OpCollectOldVersions?
    ensures RowsStay(s, Step(cfg, s, op).0)
  {
    match op
    case OpUploadChunk(_, _, _, _, body, now) => RetainKeepsFiles(cfg.sha, s, Pieces(cfg.cut, Limited(body)), now);
    case OpCompleteUpload(_, _, _, _, _) => CompleteStays(s, op);
    case OpSyncAdd(_, _, _, _, _, _, _, _) => SyncAddStays(s, op);
    case OpSyncModify(_, _, _, _, _) => SyncModifyStays(s, op);
    case OpTree(user, f, change) => TreeStays(s, user, f, change);
    case _ =>
  }

  /** The rows a deletion removes: the file, what is below it, and their manifests. */
  ghost predicate RowsGo(s: Store, t: Store, gone: set<FileId>) {
    && t.files.Keys == s.files.Keys - gone
    && forall m :: m in s.manifests ==> (m in t.manifests <==> s.manifests[m].file !in gone)
  }

  lemma DeleteGoes(s: Store, f: FileId)
    requires f in s.files
    ensures RowsGo(s, DeleteFile(s, f).0, Cascade(s.files, {f}))
  {}

  lemma RemoveGoes(s: Store, user: string, f: FileId)
    requires f in s.files && s.files[f].user == user
    ensures RowsGo(s, PermanentDelete(s, user, f).0, Cascade(s.files, {f}))
  {}

  predicate Deletes(files: map<FileId, FileRow>, op: Op) {
    || (op.OpDeleteFile? && op.f in files)
    || (op.OpPermanentDelete? && op.f in files && files[op.f].user == op.user)
  }

  lemma IdleDeletion(cfg: Config, s: Store, op: Op)
    requires (op.OpDeleteFile? || op.OpPermanentDelete?) && !Deletes(s.files, op)
    ensures RowsStay(s, Step(cfg, s, op).0)
  {}

  lemma StepGoes(cfg: Config, s: Store, op: Op)
    requires Deletes(s.files, op)
    ensures RowsGo(s, Step(cfg, s, op).0, Cascade(s.files, {op.f}))
  {
    if op.OpDeleteFile? { DeleteGoes(s, op.f); } else { RemoveGoes(s, op.user, op.f); }
  }

  /** A file goes exactly when the collector or its owner deletes it or a folder above
      it; nothing else removes a row. */
  lemma FileEnds(cfg: Config, ops: seq<Op>, op: Op, f: FileId)
    requires f in Run(cfg, ops).files
    ensures var files := Run(cfg, ops).files;
      f !in Step(cfg, Run(cfg, ops), op).0.files <==> Deletes(files, op) && f in Cascade(files, {op.f})
  {
    var s := Run(cfg, ops);
    if Deletes(s.files, op) {
      StepGoes(cfg, s, op);
    } else if op.OpDeleteFile? || op.OpPermanentDelete? {
      IdleDeletion(cfg, s, op);
    } else if !op.OpCollectOldVersions? {
      StepStays(cfg, s, op);
    }
  }

  /** A manifest goes exactly with its file, or when it is older than the cutoff and
      five newer manifests of its file are as well. */
  lemma ManifestEnds(cfg: Config, ops: seq<Op>, op: Op, m: ManifestId)
    requires PushedRun(cfg, ops) && m in Run(cfg, ops).manifests
    ensures var s := Run(cfg, ops);
      m !in Step(cfg, s, op).0.manifests <==>
        || s.manifests[m].file !in Step(cfg, s, op).0.files
        || (op.OpCollectOldVersions? && s.manifests[m].createdAt < op.cutoff && FiveNewer(s, op.cutoff, m))
  {
    var s := Run(cfg, ops);
    RunAccounted(cfg, ops);
    FileEnds(cfg, ops, op, s.manifests[m].file);
    if Deletes(s.files, op) {
      StepGoes(cfg, s, op);
    } else if op.OpDeleteFile? || op.OpPermanentDelete? {
      IdleDeletion(cfg, s, op);
    } else if op.OpCollectOldVersions? {
      OldIff(s, op.cutoff, m);
    } else {
      StepStays(cfg, s, op);
    }
  }

  ghost predicate FiveNewer(s: Store, cutoff: Time, m: ManifestId)
    requires m in s.manifests
  {
    exists five: set<ManifestId> :: |five| == 5 && forall n :: n in five ==> NewerOld(s, cutoff, m, n)
  }

  /** n is a newer manifest of the same file, and older than the cutoff. */
  predicate NewerOld(s: Store, cutoff: Time, m: ManifestId, n: ManifestId)
    requires m in s.manifests
  {
    && n in s.manifests && s.manifests[n].file == s.manifests[m].file
    && s.manifests[n].version > s.manifests[m].version && s.manifests[n].createdAt < cutoff
  }

  lemma OldIff(s: Store, cutoff: Time, m: ManifestId)
    requires m in s.manifests
    ensures IsOldVersion(s, cutoff, m) <==> s.manifests[m].createdAt < cutoff && FiveNewer(s, cutoff, m)
  {
    var q := NewerListed(s, cutoff, m);
    if |q| >= 5 {
      var five := Newest(s, q, 5);
      assert forall n :: n in five ==> NewerOld(s, cutoff, m, n);
    }
    if five: set<ManifestId> :| |five| == 5 && forall n :: n in five ==> NewerOld(s, cutoff, m, n) {
      assert five <= q;
      if five != q { SubsetSize(five, q); }
    }
  }

  // --- What sessions record -----------------------------------------------------------------------

  /** The recorded sizes are those of the parts, and the status tells whether some
      or all of them are there. */
  ghost predicate Told(session: Session, ideal: IdealSession) {
    && session.chunks.Keys == ideal.parts.Keys
    && (forall i :: i in ideal.parts ==> session.chunks[i] == |ideal.parts[i]|)
    && (session.status.Pending? <==> ideal.parts == map[])
    && (session.status.AllUploaded? <==> Whole(ideal))
  }

  /** One more part recorded. */
  lemma RecordTold(session: Session, ideal: IdealSession, index: nat, data: Bytes, hashes: seq<Hash>)
    requires Told(session, ideal) && SessionOk(session) && SameUpload(session, ideal)
    requires index < session.total && ideal.parts.Keys == session.chunkHashes.Keys
    ensures Told(RecordChunk(session, index, |data|, hashes), ideal.(parts := ideal.parts[index := data]))
  {
    var after, more := RecordChunk(session, index, |data|, hashes), ideal.(parts := ideal.parts[index := data]);
    AllParts(after, more);
    AtMostAll(after);
    assert index in more.parts;
    assert after.status == if |after.chunks| == after.total then AllUploaded else InProgress;
  }

  lemma AtMostAll(session: Session)
    requires SessionOk(session)
    ensures |session.chunks| <= session.total
  {
    MissingLaw(session.chunks, session.total);
    assert Present(session.chunks, session.total) == session.chunks.Keys;
    assert |session.chunks| == |session.chunks.Keys|;
  }

  lemma OpenedTold(session: Session, ideal: IdealSession)
    requires session.chunks == map[] && session.status.Pending? && ideal.parts == map[] && ideal.size > 0
    ensures Told(session, ideal)
  {
    assert InRange(ideal, 0);
  }

  lemma CreatedSession(s: Store, op: Op)
    requires op.OpCreateUpload?
    ensures var (t, r) := CreateUpload(s, op.user, op.sid, op.parent, op.name, op.size, op.now);
      if r.Created? then
        && op.sid in t.sessions && t.sessions == s.sessions[op.sid := t.sessions[op.sid]]
        && t.sessions[op.sid].chunks == map[] && t.sessions[op.sid].status.Pending? && op.size > 0
      else t == s
  {}

  lemma UploadedSession(cfg: Config, s: Store, op: Op)
    requires op.OpUploadChunk?
    ensures var (t, r) := UploadChunk(cfg, s, op.user, op.sid, op.index, op.length, op.body, op.now);
      if r.Uploaded? then
        && op.sid in s.sessions && 0 <= op.index < s.sessions[op.sid].total
        && t.sessions == s.sessions[op.sid := RecordChunk(s.sessions[op.sid], op.index, |Part(op.body)|, r.hashes)]
      else t == s
  {}

  ghost predicate SessionsShrink(s: Store, t: Store) {
    forall sid :: sid in t.sessions ==> sid in s.sessions && t.sessions[sid] == s.sessions[sid]
  }

  lemma CompleteShrinks(s: Store, op: Op)
    requires op.OpCompleteUpload?
    ensures SessionsShrink(s, CompleteUpload(s, op.user, op.sid, op.f, op.m, op.now).0)
  {
    CompleteCases(s, op.user, op.sid, op.f, op.m, op.now);
  }

  lemma OthersShrink(cfg: Config, s: Store, op: Op)
    requires !op.OpCreateUpload? && !op.OpUploadChunk? && !op.OpCompleteUpload?
    ensures SessionsShrink(s, Step(cfg, s, op).0)
  {}

  /** What a step leaves of a session: it is new, has one more part, or is as before. */
  lemma SessionNext(cfg: Config, s: Store, op: Op, sid: SessionId)
    requires sid in Step(cfg, s, op).0.sessions
    ensures var (t, r) := Step(cfg, s, op);
      if op.OpCreateUpload? && op.sid == sid && r.Created? then
        t.sessions[sid].chunks == map[] && t.sessions[sid].status.Pending? && op.size > 0
      else if op.OpUploadChunk? && op.sid == sid && r.Uploaded? then
        sid in s.sessions && 0 <= op.index < s.sessions[sid].total
        && t.sessions[sid] == RecordChunk(s.sessions[sid], op.index, |Part(op.body)|, r.hashes)
      else sid in s.sessions && t.sessions[sid] == s.sessions[sid]
  {
    match op
    case OpCreateUpload(_, _, _, _, _, _) => CreatedSession(s, op);
    case OpUploadChunk(_, _, _, _, _, _) => UploadedSession(cfg, s, op);
    case OpCompleteUpload(_, _, _, _, _) => CompleteShrinks(s, op);
    case _ => OthersShrink(cfg, s, op);
  }

  /** A step that does not open the upload keeps what its session tells. */
  lemma StatusKept(cfg: Config, ops: seq<Op>, op: Op, sid: SessionId)
    requires Injective(cfg.sha) && PushedRun(cfg, ops + [op])
    requires !(op.OpCreateUpload? && op.sid == sid && AnswerTo(cfg, ops, op).Created?)
    requires sid in Run(cfg, ops).sessions && sid in Promises(cfg, ops).sessions
    requires sid in Run(cfg, ops + [op]).sessions && sid in Promises(cfg, ops + [op]).sessions
    requires Told(Run(cfg, ops).sessions[sid], Promises(cfg, ops).sessions[sid])
    ensures Told(Run(cfg, ops + [op]).sessions[sid], Promises(cfg, ops + [op]).sessions[sid])
  {
    RunSnoc(cfg, ops, op);
    Behind(cfg, ops, sid);
    SessionNext(cfg, Run(cfg, ops), op, sid);
    if op.OpUploadChunk? && op.sid == sid && AnswerTo(cfg, ops, op).Uploaded? {
      RecordTold(Run(cfg, ops).sessions[sid], Promises(cfg, ops).sessions[sid], op.index, Part(op.body),
                 AnswerTo(cfg, ops, op).hashes);
    }
  }

  lemma StatusOpened(cfg: Config, ops: seq<Op>, op: Op)
    requires op.OpCreateUpload? && AnswerTo(cfg, ops, op).Created?
    ensures op.sid in Run(cfg, ops + [op]).sessions && op.sid in Promises(cfg, ops + [op]).sessions
    ensures Told(Run(cfg, ops + [op]).sessions[op.sid], Promises(cfg, ops + [op]).sessions[op.sid])
  {
    RunSnoc(cfg, ops, op);
    CreatedSession(Run(cfg, ops), op);
    OpenedTold(Run(cfg, ops + [op]).sessions[op.sid], Promises(cfg, ops + [op]).sessions[op.sid]);
  }

  /** In every run the session of an open upload records exactly its parts. */
  lemma {:induction false} StatusTells(cfg: Config, ops: seq<Op>, sid: SessionId)
    requires Injective(cfg.sha) && PushedRun(cfg, ops) && sid in Promises(cfg, ops).sessions
    ensures sid in Run(cfg, ops).sessions && Told(Run(cfg, ops).sessions[sid], Promises(cfg, ops).sessions[sid])
  {
    var before, op := ops[..|ops| - 1], ops[|ops| - 1];
    assert ops == before + [op];
    Behind(cfg, ops, sid);
    if op.OpCreateUpload? && op.sid == sid && AnswerTo(cfg, before, op).Created? {
      StatusOpened(cfg, before, op);
    } else {
      StillOpen(cfg, before, op, sid);
      StatusTells(cfg, before, sid);
      Behind(cfg, before, sid);
      StatusKept(cfg, before, op, sid);
    }
  }

  /** An upload that was not opened just now was open before. */
  lemma StillOpen(cfg: Config, ops: seq<Op>, op: Op, sid: SessionId)
    requires sid in Promises(cfg, ops + [op]).sessions
    requires !(op.OpCreateUpload? && op.sid == sid && AnswerTo(cfg, ops, op).Created?)
    ensures sid in Promises(cfg, ops).sessions
  {
    RunSnoc(cfg, ops, op);
  }

  // --- When chunk rows come and go -----------------------------------------------------------------

  /** Rows of the old table keep size and time; a new row carries the time of the step
      and such a size. */
  ghost predicate Born(before: map<Hash, ChunkRow>, after: map<Hash, ChunkRow>, now: Time, sizes: (Hash, nat) -> bool) {
    forall h :: h in after ==> RowFrom(before, h, after[h], now, sizes)
  }

  predicate RowFrom(before: map<Hash, ChunkRow>, h: Hash, row: ChunkRow, now: Time, sizes: (Hash, nat) -> bool) {
    if h in before then row.size == before[h].size && row.createdAt == before[h].createdAt
    else row.createdAt == now && sizes(h, row.size)
  }

  ghost function PieceSizes(sha: Bytes -> Hash, pieces: seq<Bytes>): (Hash, nat) -> bool {
    (h, n) => exists p :: p in pieces && sha(p) == h && |p| == n
  }

  function NoSize(): (Hash, nat) -> bool { (h, n) => n == 0 }

  lemma {:induction false} RetainBorn(sha: Bytes -> Hash, s: Store, pieces: seq<Bytes>, now: Time)
    ensures s.chunks.Keys <= Retain(sha, s, pieces, now).chunks.Keys
    ensures Born(s.chunks, Retain(sha, s, pieces, now).chunks, now, PieceSizes(sha, pieces))
  {
    if pieces != [] {
      var n := |pieces| - 1;
      var t := Retain(sha, s, pieces[..n], now);
      RetainBorn(sha, s, pieces[..n], now);
      assert pieces == pieces[..n] + [pieces[n]];
      forall h | h in Retain(sha, s, pieces, now).chunks
        ensures RowFrom(s.chunks, h, Retain(sha, s, pieces, now).chunks[h], now, PieceSizes(sha, pieces))
      {
        if h in t.chunks {
          assert RowFrom(s.chunks, h, t.chunks[h], now, PieceSizes(sha, pieces[..n]));
        } else {
          assert pieces[n] in pieces;
        }
      }
    }
  }

  lemma {:induction false} EnsureBorn(chunks: map<Hash, ChunkRow>, hashes: seq<Hash>, now: Time)
    ensures chunks.Keys <= EnsureRefs(chunks, hashes, now).Keys
    ensures Born(chunks, EnsureRefs(chunks, hashes, now), now, NoSize())
  {
    if hashes != [] {
      var before := EnsureRefs(chunks, hashes[..|hashes| - 1], now);
      EnsureBorn(chunks, hashes[..|hashes| - 1], now);
      forall h | h in EnsureRefs(chunks, hashes, now)
        ensures RowFrom(chunks, h, EnsureRefs(chunks, hashes, now)[h], now, NoSize())
      {
        if h in before { assert RowFrom(chunks, h, before[h], now, NoSize()); }
      }
    }
  }

  /** An accepted part brings rows with the sizes of its pieces. */
  lemma UploadBorn(cfg: Config, s: Store, op: Op)
    requires op.OpUploadChunk?
    ensures var t := UploadChunk(cfg, s, op.user, op.sid, op.index, op.length, op.body, op.now).0;
      Born(s.chunks, t.chunks, op.now, PieceSizes(cfg.sha, Pieces(cfg.cut, Part(op.body))))
  {
    RetainBorn(cfg.sha, s, Pieces(cfg.cut, Limited(op.body)), op.now);
  }

  /** A sync change brings rows without size. */
  lemma SyncBorn(s: Store, op: Op)
    requires op.OpSyncAdd? || op.OpSyncModify?
    ensures var chunks := if op.OpSyncAdd?
        then SyncAdd(s, op.user, op.f, op.parent, op.name, op.size, op.hashes, op.m, op.now).0.chunks
        else SyncModify(s, op.f, op.size, op.hashes, op.m, op.now).0.chunks;
      Born(s.chunks, chunks, op.now, NoSize())
  {
    EnsureBorn(s.chunks, op.hashes, op.now);
    if op.OpSyncAdd? { SyncAddCases(s, op); }
  }

  /** No other step brings rows, and those that stay keep size and time. */
  ghost predicate NoneBorn(before: map<Hash, ChunkRow>, after: map<Hash, ChunkRow>) {
    forall h :: h in after ==>
      h in before && after[h].size == before[h].size && after[h].createdAt == before[h].createdAt
  }

  lemma OthersBearNone(cfg: Config, s: Store, op: Op)
    requires !op.OpUploadChunk? && !op.OpSyncAdd? && !op.OpSyncModify?
    ensures NoneBorn(s.chunks, Step(cfg, s, op).0.chunks)
  {
    match op
    case OpCancelUpload(_, sid) =>
      if sid in s.sessions { ReleaseBears(s.(sessions := s.sessions - {sid}), SessionBag(s.sessions[sid])); }
    case OpCleanupExpired(now) =>
      var expired := ExpiredSessions(s, now);
      ReleaseBears(s.(sessions := s.sessions - expired.Keys), SessionsBag(expired));
    case OpDeleteFile(f) => DeleteBears(s, f);
    case OpPushChunk(_, _) =>
    case OpCollectOrphans(olderThan) => OrphansBear(s, olderThan);
    case _ => ChunksStay(cfg, s, op);
  }

  lemma ReleaseBears(s: Store, k: Bag)
    ensures NoneBorn(s.chunks, Release(s, k).chunks)
  {}

  lemma DeleteBears(s: Store, f: FileId)
    ensures NoneBorn(s.chunks, DeleteFile(s, f).0.chunks)
  {
    if HasManifest(s, f) { ReleaseBears(s, ListBag(s.manifests[Latest(s, f)].chunks)); }
  }

  lemma OrphansBear(s: Store, olderThan: Option<Time>)
    ensures NoneBorn(s.chunks, CollectOrphans(s, olderThan).chunks)
  {}

  /** Chunk rows come with an accepted part, with the size of the piece, or with a sync
      change, without size; size and time never change. */
  lemma RowBorn(cfg: Config, s: Store, op: Op)
    ensures var t := Step(cfg, s, op).0;
      if op.OpUploadChunk? then Born(s.chunks, t.chunks, op.now, PieceSizes(cfg.sha, Pieces(cfg.cut, Part(op.body))))
      else if op.OpSyncAdd? || op.OpSyncModify? then Born(s.chunks, t.chunks, op.now, NoSize())
      else NoneBorn(s.chunks, t.chunks)
  {
    if op.OpUploadChunk? {
      UploadBorn(cfg, s, op);
    } else if op.OpSyncAdd? || op.OpSyncModify? {
      SyncBorn(s, op);
    } else {
      OthersBearNone(cfg, s, op);
    }
  }

  /** The orphan collector takes the rows that nothing refers to, no younger than the
      given time, whose blob is there. */
  lemma OrphansGo(s: Store, olderThan: Option<Time>, h: Hash)
    requires h in s.chunks
    ensures h !in CollectOrphans(s, olderThan).chunks <==>
      s.chunks[h].refs == 0 && h in s.blobs
      && match olderThan case None => false case Some(time) => s.chunks[h].createdAt <= time
    ensures h in s.blobs ==> (h !in CollectOrphans(s, olderThan).blobs <==> h !in CollectOrphans(s, olderThan).chunks)
  {}

  // --- What chunk rows record -----------------------------------------------------------------------

  /** Every chunk row has a blob of the recorded size. */
  ghost predicate Sized(s: Store) {
    forall h :: h in s.chunks ==> h in s.blobs && s.chunks[h].size == |s.blobs[h]|
  }

  ghost predicate Unsynced(ops: seq<Op>) {
    forall i :: 0 <= i < |ops| ==> !ops[i].OpSyncAdd? && !ops[i].OpSyncModify?
  }

  lemma {:induction false} RetainSized(sha: Bytes -> Hash, s: Store, pieces: seq<Bytes>, now: Time)
    requires Sized(s)
    ensures Sized(Retain(sha, s, pieces, now))
  {
    if pieces != [] { RetainSized(sha, s, pieces[..|pieces| - 1], now); }
  }

  lemma PushSized(cfg: Config, s: Store, h: Hash, data: Bytes)
    requires Injective(cfg.sha) && HonestBlobs(cfg.sha, s) && Sized(s)
    ensures Sized(PushChunk(cfg.sha, s, h, data).0)
  {
    if h in s.blobs && cfg.sha(data) == h { assert cfg.sha(s.blobs[h]) == cfg.sha(data); }
  }

  lemma ReleaseSized(s: Store, k: Bag)
    requires Sized(s)
    ensures Sized(Release(s, k))
  {}

  /** These steps touch neither chunk rows nor blobs. */
  lemma ChunksStay(cfg: Config, s: Store, op: Op)
    requires op.OpCreateUpload? || op.OpCompleteUpload? || op.OpPermanentDelete? || op.OpCollectOldVersions?
      || op.OpTree?
    ensures Step(cfg, s, op).0.chunks == s.chunks && Step(cfg, s, op).0.blobs == s.blobs
  {
    match op
    case OpCreateUpload(user, sid, parent, name, size, now) => CreatedSession(s, op);
    case OpCompleteUpload(user, sid, f, m, now) => CompleteCases(s, user, sid, f, m, now);
    case OpTree(user, f, change) => TreeAnswers(s, user, f, change);
    case OpPermanentDelete(_, _) =>
    case OpCollectOldVersions(_) =>
  }

  lemma DeleteSized(s: Store, f: FileId)
    requires Sized(s)
    ensures Sized(DeleteFile(s, f).0)
  {
    if HasManifest(s, f) { ReleaseSized(s, ListBag(s.manifests[Latest(s, f)].chunks)); }
  }

  lemma StepSized(cfg: Config, s: Store, op: Op)
    requires Injective(cfg.sha) && HonestBlobs(cfg.sha, s) && Sized(s) && !op.OpSyncAdd? && !op.OpSyncModify?
    ensures Sized(Step(cfg, s, op).0)
  {
    match op
    case OpUploadChunk(_, _, _, _, body, now) => RetainSized(cfg.sha, s, Pieces(cfg.cut, Limited(body)), now);
    case OpCancelUpload(_, sid) =>
      if sid in s.sessions { ReleaseSized(s.(sessions := s.sessions - {sid}), SessionBag(s.sessions[sid])); }
    case OpCleanupExpired(now) =>
      var expired := ExpiredSessions(s, now);
      ReleaseSized(s.(sessions := s.sessions - expired.Keys), SessionsBag(expired));
    case OpDeleteFile(f) => DeleteSized(s, f);
    case OpPushChunk(h, data) => PushSized(cfg, s, h, data);
    case OpCollectOrphans(olderThan) => OrphansSized(s, olderThan);
    case _ => ChunksStay(cfg, s, op);
  }

  lemma OrphansSized(s: Store, olderThan: Option<Time>)
    requires Sized(s)
    ensures Sized(CollectOrphans(s, olderThan))
  {}

  /** Without sync changes, which record no sizes, every chunk row records the size
      of its blob. */
  lemma {:induction false} RunSized(cfg: Config, ops: seq<Op>)
    requires Injective(cfg.sha) && Unsynced(ops)
    ensures PushedRun(cfg, ops) && Sized(Run(cfg, ops))
  {
    if ops != [] {
      var before := ops[..|ops| - 1];
      RunSized(cfg, before);
      RunAccounted(cfg, before);
      StepSized(cfg, Run(cfg, before), ops[|ops| - 1]);
    }
  }
}
