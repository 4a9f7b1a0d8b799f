/** Version history. */
module StoreVersions {
  // Manifests only get newer, the linked one is the newest, and the version
  // collector always leaves five newer ones.

  import opened Common
  import opened StoreModel
  import opened StoreAccounting

  /** Manifests do not run ahead of their file, versions of a file are distinct,
      and a file links to its newest manifest, or has none. */
  ghost predicate Versioned(s: Store) {
    && (forall m :: m in s.manifests ==> ManifestVersioned(s, m))
    && (forall m, n :: m in s.manifests && n in s.manifests && m != n && s.manifests[m].file == s.manifests[n].file
          ==> s.manifests[m].version != s.manifests[n].version)
    && (forall f :: f in s.files ==> FileVersioned(s, f))
  }

  ghost predicate ManifestVersioned(s: Store, m: ManifestId)
    requires m in s.manifests
  {
    s.manifests[m].file in s.files && s.manifests[m].version <= s.files[s.manifests[m].file].version
  }

  ghost predicate FileVersioned(s: Store, f: FileId)
    requires f in s.files
  {
    match s.files[f].manifest
    case Some(m) => IsLatest(s, f, m)
    case None => !HasManifest(s, f)
  }

  // --- Preservation ------------------------------------------------------------------

  /** File rows change, but neither their links nor their versions go back. */
  lemma FilesEdited(s: Store, t: Store)
    requires Versioned(s) && t.manifests == s.manifests
    requires forall f :: f in s.files ==> f in t.files && t.files[f].manifest == s.files[f].manifest
                                          && t.files[f].version >= s.files[f].version
    requires forall f :: f in t.files && f !in s.files ==> t.files[f].manifest == None
    ensures Versioned(t)
  {
    forall m | m in t.manifests ensures ManifestVersioned(t, m) {
      assert ManifestVersioned(s, m);
    }
    forall f | f in t.files ensures FileVersioned(t, f) {
      if f in s.files { assert FileVersioned(s, f); }
    }
  }

  /** A manifest is added with its file's new version and linked. */
  lemma ManifestLinked(s: Store, t: Store, f: FileId, m: ManifestId, row: Manifest)
    requires Versioned(s) && m !in s.manifests && row.file == f
    requires t.manifests == s.manifests[m := row]
    requires f in t.files && t.files == s.files[f := t.files[f]]
    requires t.files[f].manifest == Some(m) && t.files[f].version == row.version
    requires f in s.files ==> row.version > s.files[f].version
    ensures Versioned(t)
  {
    forall n | n in t.manifests ensures ManifestVersioned(t, n) {
      if n != m { assert ManifestVersioned(s, n); }
    }
    forall g | g in t.files ensures FileVersioned(t, g) {
      if g == f {
        forall n | n in t.manifests && t.manifests[n].file == f
          ensures t.manifests[n].version <= row.version
        {
          if n != m { assert ManifestVersioned(s, n); }
        }
      } else {
        assert FileVersioned(s, g);
        if HasManifest(t, g) {
          var n :| n in t.manifests && t.manifests[n].file == g;
          assert n in s.manifests;
        }
      }
    }
    forall n | n in s.manifests && s.manifests[n].file == f ensures s.manifests[n].version != row.version {
      assert ManifestVersioned(s, n);
    }
  }

  lemma RowsDeletedVersioned(s: Store, doomed: set<FileId>)
    requires Versioned(s)
    ensures Versioned(DeleteRows(s, doomed))
  {
    var t := DeleteRows(s, doomed);
    forall m | m in t.manifests ensures ManifestVersioned(t, m) {
      assert ManifestVersioned(s, m);
    }
    forall f | f in t.files ensures FileVersioned(t, f) {
      assert FileVersioned(s, f);
    }
  }

  /** The newest manifest of a file is never an old version. */
  lemma LatestNotOld(s: Store, cutoff: Time, f: FileId, m: ManifestId)
    requires IsLatest(s, f, m)
    ensures !IsOldVersion(s, cutoff, m)
  {
    assert NewerListed(s, cutoff, m) == {};
  }

  lemma VersionsCollectedVersioned(s: Store, cutoff: Time)
    requires Versioned(s)
    ensures Versioned(CollectOldVersions(s, cutoff))
  {
    var t := CollectOldVersions(s, cutoff);
    forall m | m in t.manifests ensures ManifestVersioned(t, m) {
      assert ManifestVersioned(s, m);
    }
    forall f | f in t.files ensures FileVersioned(t, f) {
      assert FileVersioned(s, f);
      if s.files[f].manifest.Some? { LatestNotOld(s, cutoff, f, s.files[f].manifest.value); }
    }
  }

  lemma FiledVersioned(s: Store, t: Store, f: FileId, m: ManifestId, hashes: seq<Hash>)
    requires Versioned(s) && Filed(s, t, f, m, hashes)
    ensures Versioned(t)
  {
    ManifestLinked(s, t, f, m, t.manifests[m]);
  }

  lemma UnfiledVersioned(s: Store, t: Store, f: FileId)
    requires Versioned(s) && Unfiled(s, t, f)
    ensures Versioned(t)
  {
    FilesEdited(s, t);
  }

  lemma CompleteVersioned(s: Store, user: string, sid: SessionId, f: FileId, m: ManifestId, now: Time)
    requires Versioned(s)
    ensures Versioned(CompleteUpload(s, user, sid, f, m, now).0)
  {
    var (t, r) := CompleteUpload(s, user, sid, f, m, now);
    CompleteCases(s, user, sid, f, m, now);
    if r.Completed? { FiledVersioned(s, t, f, m, t.manifests[m].chunks); } else { UnfiledVersioned(s, t, f); }
  }

  lemma SyncAddVersioned(s: Store, op: Op)
    requires op.OpSyncAdd? && Versioned(s)
    ensures Versioned(SyncAdd(s, op.user, op.f, op.parent, op.name, op.size, op.hashes, op.m, op.now).0)
  {
    var (t, r) := SyncAdd(s, op.user, op.f, op.parent, op.name, op.size, op.hashes, op.m, op.now);
    SyncAddCases(s, op);
    if r.Done? && op.hashes != [] {
      FiledVersioned(s, t, op.f, op.m, op.hashes);
    } else {
      UnfiledVersioned(s, t, op.f);
    }
  }

  /** In a versioned store a sync modification is refused only for a missing or
      trashed file or a reused manifest id, and it links a strictly newer version. */
  lemma SyncModifyVersioned(s: Store, f: FileId, size: int, hashes: seq<Hash>, m: ManifestId, now: Time)
    requires Versioned(s)
    ensures var (t, r) := SyncModify(s, f, size, hashes, m, now);
      && Versioned(t)
      && (r == Done <==> f in s.files && s.files[f].trashedAt.None? && m !in s.manifests)
      && (r == Done ==> t.manifests.Keys == s.manifests.Keys + {m} && IsLatest(t, f, m)
                        && t.manifests[m].version == t.files[f].version > s.files[f].version)
  {
    var (t, r) := SyncModify(s, f, size, hashes, m, now);
    if f in s.files {
      forall n | n in s.manifests && s.manifests[n].file == f
        ensures s.manifests[n].version != s.files[f].version + 1
      {
        assert ManifestVersioned(s, n);
      }
    }
    if r == Done {
      ManifestLinked(s, t, f, m, t.manifests[m]);
      assert FileVersioned(t, f);
    }
  }

  lemma TreeEdits(s: Store, user: string, f: FileId, change: TreeOp)
    ensures var t := ChangeTree(s, user, f, change).0;
      && t.manifests == s.manifests
      && (forall g :: g in s.files ==> g in t.files && t.files[g].manifest == s.files[g].manifest
                                       && t.files[g].version >= s.files[g].version)
      && (forall g :: g in t.files && g !in s.files ==> t.files[g].manifest == None)
  {
    match change
    case CreateFolder(_, _) =>
    case Move(_, _) =>
    case Trash(_) =>
    case Restore =>
    case BumpVersion =>
  }

  lemma TreeVersioned(s: Store, user: string, f: FileId, change: TreeOp)
    requires Versioned(s)
    ensures Versioned(ChangeTree(s, user, f, change).0)
  {
    var t := ChangeTree(s, user, f, change).0;
    TreeEdits(s, user, f, change);
    FilesEdited(s, t);
  }

  lemma DeleteVersioned(s: Store, f: FileId)
    requires Versioned(s)
    ensures Versioned(DeleteFile(s, f).0)
  {
    var t := if HasManifest(s, f) then Release(s, ListBag(s.manifests[Latest(s, f)].chunks)) else s;
    SameFilesVersioned(s, t);
    if f in s.files { RowsDeletedVersioned(t, Cascade(s.files, {f})); }
  }

  lemma SameFilesVersioned(s: Store, t: Store)
    requires Versioned(s) && t.files == s.files && t.manifests == s.manifests
    ensures Versioned(t)
  {
    FilesEdited(s, t);
  }

  /** The steps that touch neither files nor manifests. */
  lemma ChunkStepVersioned(cfg: Config, s: Store, op: Op)
    requires Versioned(s)
    requires op.OpCreateUpload? || op.OpUploadChunk? || op.OpCancelUpload? || op.OpCleanupExpired?
          || op.OpCollectOrphans? || op.OpPushChunk?
    ensures Versioned(Step(cfg, s, op).0)
  {
    ChunkStepKeeps(cfg, s, op);
    SameFilesVersioned(s, Step(cfg, s, op).0);
  }

  lemma ChunkStepKeeps(cfg: Config, s: Store, op: Op)
    requires op.OpCreateUpload? || op.OpUploadChunk? || op.OpCancelUpload? || op.OpCleanupExpired?
          || op.OpCollectOrphans? || op.OpPushChunk?
    ensures Step(cfg, s, op).0.files == s.files && Step(cfg, s, op).0.manifests == s.manifests
  {
    match op
    case OpUploadChunk(_, _, _, _, _, _) => UploadKeepsFiles(cfg, s, op);
    case OpCreateUpload(_, _, _, _, _, _) => CreateKeepsFiles(s, op);
    case OpCancelUpload(user, sid) => CancelKeepsFiles(s, user, sid);
    case _ =>
  }

  lemma UploadKeepsFiles(cfg: Config, s: Store, op: Op)
    requires op.OpUploadChunk?
    ensures var t := UploadChunk(cfg, s, op.user, op.sid, op.index, op.length, op.body, op.now).0;
      t.files == s.files && t.manifests == s.manifests
  {
    RetainKeepsFiles(cfg.sha, s, Greedy.Pieces(cfg.cut, Limited(op.body)), op.now);
  }

  lemma CreateKeepsFiles(s: Store, op: Op)
    requires op.OpCreateUpload?
    ensures var t := CreateUpload(s, op.user, op.sid, op.parent, op.name, op.size, op.now).0;
      t.files == s.files && t.manifests == s.manifests
  {}

  lemma CancelKeepsFiles(s: Store, user: string, sid: SessionId)
    ensures var t := CancelUpload(s, user, sid).0; t.files == s.files && t.manifests == s.manifests
  {}

  lemma StepVersioned(cfg: Config, s: Store, op: Op)
    requires Versioned(s)
    ensures Versioned(Step(cfg, s, op).0)
  {
    match op
    case OpCompleteUpload(user, sid, f, m, now) => CompleteVersioned(s, user, sid, f, m, now);
    case OpDeleteFile(f) => DeleteVersioned(s, f);
    case OpPermanentDelete(user, f) =>
      if f in s.files { RowsDeletedVersioned(s, Cascade(s.files, {f})); }
    case OpCollectOldVersions(cutoff) => VersionsCollectedVersioned(s, cutoff);
    case OpSyncAdd(_, _, _, _, _, _, _, _) => SyncAddVersioned(s, op);
    case OpSyncModify(f, size, hashes, m, now) => SyncModifyVersioned(s, f, size, hashes, m, now);
    case OpTree(user, f, change) => TreeVersioned(s, user, f, change);
    case _ => ChunkStepVersioned(cfg, s, op);
  }

  lemma {:induction false} RetainKeepsFiles(sha: Bytes -> Hash, s: Store, pieces: seq<Bytes>, now: Time)
    ensures var t := Retain(sha, s, pieces, now);
            t.files == s.files && t.manifests == s.manifests
  {
    if pieces != [] { RetainKeepsFiles(sha, s, pieces[..|pieces| - 1], now); }
  }

  lemma {:induction false} RunVersioned(cfg: Config, ops: seq<Op>)
    ensures Versioned(Run(cfg, ops))
  {
    if ops != [] {
      RunVersioned(cfg, ops[..|ops| - 1]);
      StepVersioned(cfg, Run(cfg, ops[..|ops| - 1]), ops[|ops| - 1]);
    }
  }

  // --- Versions only grow --------------------------------------------------------------

  /** What a step does to the versions of a file that lives through it. */
  ghost predicate Grows(s: Store, t: Store, f: FileId) {
    f in s.files && f in t.files ==>
      && t.files[f].version >= s.files[f].version
      && forall m :: m in t.manifests && t.manifests[m].file == f && m !in s.manifests
           ==> t.manifests[m].version > s.files[f].version
  }

  lemma FiledGrows(s: Store, t: Store, f: FileId, m: ManifestId, hashes: seq<Hash>, g: FileId)
    requires Filed(s, t, f, m, hashes) || Unfiled(s, t, f)
    ensures Grows(s, t, g)
  {}

  lemma CompleteGrows(s: Store, user: string, sid: SessionId, f: FileId, m: ManifestId, now: Time, g: FileId)
    ensures Grows(s, CompleteUpload(s, user, sid, f, m, now).0, g)
  {
    var (t, r) := CompleteUpload(s, user, sid, f, m, now);
    CompleteCases(s, user, sid, f, m, now);
    FiledGrows(s, t, f, m, if r.Completed? then t.manifests[m].chunks else [], g);
  }

  lemma SyncAddGrows(s: Store, op: Op, g: FileId)
    requires op.OpSyncAdd?
    ensures Grows(s, SyncAdd(s, op.user, op.f, op.parent, op.name, op.size, op.hashes, op.m, op.now).0, g)
  {
    SyncAddCases(s, op);
    var t := SyncAdd(s, op.user, op.f, op.parent, op.name, op.size, op.hashes, op.m, op.now).0;
    FiledGrows(s, t, op.f, op.m, op.hashes, g);
  }

  lemma TreeGrows(s: Store, user: string, f: FileId, change: TreeOp, g: FileId)
    ensures Grows(s, ChangeTree(s, user, f, change).0, g)
  {}

  lemma StepGrows(cfg: Config, s: Store, op: Op, f: FileId)
    ensures Grows(s, Step(cfg, s, op).0, f)
  {
    match op
    case OpUploadChunk(user, sid, index, length, body, now) =>
      RetainKeepsFiles(cfg.sha, s, Greedy.Pieces(cfg.cut, Limited(body)), now);
    case OpCompleteUpload(user, sid, g, m, now) => CompleteGrows(s, user, sid, g, m, now, f);
    case OpSyncAdd(_, _, _, _, _, _, _, _) => SyncAddGrows(s, op, f);
    case OpTree(user, g, change) => TreeGrows(s, user, g, change, f);
    case OpDeleteFile(g) => DeleteGrows(s, g, f);
    case OpSyncModify(g, size, hashes, m, now) => ModifyGrows(s, g, size, hashes, m, now, f);
    case _ =>
  }

  lemma DeleteGrows(s: Store, g: FileId, f: FileId)
    ensures Grows(s, DeleteFile(s, g).0, f)
  {}

  lemma ModifyGrows(s: Store, g: FileId, size: int, hashes: seq<Hash>, m: ManifestId, now: Time, f: FileId)
    ensures Grows(s, SyncModify(s, g, size, hashes, m, now).0, f)
  {}

  /** The file is present after each of the first i..j steps. */
  ghost predicate Alive(cfg: Config, ops: seq<Op>, f: FileId, i: nat, j: nat)
    requires i <= j <= |ops|
  {
    forall k :: i <= k <= j ==> f in Run(cfg, ops[..k]).files
  }

  lemma RunGrows(cfg: Config, ops: seq<Op>, f: FileId, j: nat)
    requires j < |ops|
    ensures Grows(Run(cfg, ops[..j]), Run(cfg, ops[..j + 1]), f)
  {
    assert ops[..j + 1][..j] == ops[..j];
    StepGrows(cfg, Run(cfg, ops[..j]), ops[j], f);
  }

  lemma {:induction false} VersionGrows(cfg: Config, ops: seq<Op>, f: FileId, i: nat, j: nat)
    requires i <= j <= |ops| && Alive(cfg, ops, f, i, j)
    ensures f in Run(cfg, ops[..i]).files && f in Run(cfg, ops[..j]).files
    ensures Run(cfg, ops[..i]).files[f].version <= Run(cfg, ops[..j]).files[f].version
    decreases j
  {
    if i < j {
      VersionGrows(cfg, ops, f, i, j - 1);
      RunGrows(cfg, ops, f, j - 1);
    }
  }

  /** A manifest created later has a greater version than every manifest its file
      had before, whether or not those are still there. */
  lemma NewManifestsAreNewer(cfg: Config, ops: seq<Op>, f: FileId, i: nat, j: nat, m: ManifestId, n: ManifestId)
    requires i <= j < |ops| && Alive(cfg, ops, f, i, j + 1)
    requires m in Run(cfg, ops[..i]).manifests && Run(cfg, ops[..i]).manifests[m].file == f
    requires n in Run(cfg, ops[..j + 1]).manifests && Run(cfg, ops[..j + 1]).manifests[n].file == f
    requires n !in Run(cfg, ops[..j]).manifests
    ensures Run(cfg, ops[..j + 1]).manifests[n].version > Run(cfg, ops[..i]).manifests[m].version
  {
    VersionGrows(cfg, ops, f, i, j);
    RunVersioned(cfg, ops[..i]);
    RunVersioned(cfg, ops[..j]);
    assert ManifestVersioned(Run(cfg, ops[..i]), m);
    assert f in Run(cfg, ops[..j + 1]).files;
    RunGrows(cfg, ops, f, j);
  }

  // --- The collector keeps five -----------------------------------------------------------

  /** The members of a bag of manifests that are newer than v. */
  ghost function NewerIn(s: Store, q: set<ManifestId>, v: int): set<ManifestId>
    requires forall n :: n in q ==> n in s.manifests
  {
    set n | n in q && s.manifests[n].version > v
  }

  /** Any k of the newest members: everything newer than a chosen one is chosen. */
  lemma {:induction false} Newest(s: Store, q: set<ManifestId>, k: nat) returns (top: set<ManifestId>)
    requires forall n :: n in q ==> n in s.manifests
    requires k <= |q|
    ensures top <= q && |top| == k
    ensures forall n :: n in top ==> NewerIn(s, q, s.manifests[n].version) < top
    decreases k
  {
    if k == 0 {
      top := {};
    } else {
      top := Newest(s, q, k - 1);
      var rest := q - top;
      assert |rest| == |q| - |top|;
      var best := LatestAmong(s, rest);
      var wider := top + {best};
      forall n | n in wider ensures NewerIn(s, q, s.manifests[n].version) < wider {
        var newer := NewerIn(s, q, s.manifests[n].version);
        assert forall x :: x in newer ==> x in top || x in rest;
        if n == best { assert best !in newer; } else { assert newer < top; }
      }
      top := wider;
    }
  }

  lemma SubsetSize<T>(a: set<T>, b: set<T>)
    requires a < b
    ensures |a| < |b|
  {
    var c := b - a;
    assert b == a + c;
    assert c != {};
  }

  /** Every manifest the version collector removes leaves at least five newer
      manifests of the same file behind. */
  lemma FiveSurvive(s: Store, cutoff: Time, m: ManifestId) returns (five: set<ManifestId>)
    requires m in s.manifests && m !in CollectOldVersions(s, cutoff).manifests
    ensures |five| == 5
    ensures forall n :: n in five ==>
      && n in CollectOldVersions(s, cutoff).manifests
      && s.manifests[n].file == s.manifests[m].file && s.manifests[n].version > s.manifests[m].version
  {
    var q := NewerListed(s, cutoff, m);
    five := Newest(s, q, KEPT_VERSIONS);
    forall n | n in five ensures !IsOldVersion(s, cutoff, n) {
      assert NewerListed(s, cutoff, n) == NewerIn(s, q, s.manifests[n].version);
      SubsetSize(NewerIn(s, q, s.manifests[n].version), five);
    }
  }
}
