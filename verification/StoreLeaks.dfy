/** Which steps and runs leak references. */
module StoreLeaks {
  // The leaks of StoreAccounting, as conditions that can be read off the tables
  // before a step: no reference is lost exactly when every step of the run is tight.

  import opened Common
  import opened Greedy
  import opened StoreModel
  import opened StoreAccounting

  /** A bag without a single reference. */
  ghost predicate Empty(bag: Bag) {
    forall h :: bag(h) == 0
  }

  lemma {:induction false} TotalZero<K, V>(m: map<K, V>, w: V -> nat)
    ensures Total(m, w) == 0 <==> forall k :: k in m ==> w(m[k]) == 0
    decreases |m|
  {
    if |m| > 0 {
      var k :| k in m;
      TotalRemove(m, w, k);
      TotalZero(m - {k}, w);
      assert forall j :: j in m ==> j == k || j in m - {k};
    }
  }

  /** A table of manifests holds nothing exactly when every list is empty. */
  lemma HoldsNothing(manifests: map<ManifestId, Manifest>)
    ensures Empty(ManifestsBag(manifests)) <==>
            (forall m :: m in manifests ==> manifests[m].chunks == [])
  {
    if Empty(ManifestsBag(manifests)) {
      forall m | m in manifests ensures manifests[m].chunks == [] {
        if manifests[m].chunks != [] {
          var h := manifests[m].chunks[0];
          assert ManifestsBag(manifests)(h) == 0 && ManifestWeight(h)(manifests[m]) > 0;
          TotalZero(manifests, ManifestWeight(h));
        }
      }
    }
    if forall m :: m in manifests ==> manifests[m].chunks == [] {
      forall h ensures ManifestsBag(manifests)(h) == 0 {
        TotalZero(manifests, ManifestWeight(h));
      }
    }
  }

  /** The manifests a deletion removes without releasing them. */
  ghost function Unreleased(s: Store, f: FileId): map<ManifestId, Manifest> {
    var gone := ManifestsOf(s, Cascade(s.files, {f}));
    if HasManifest(s, f) then gone - {Latest(s, f)} else gone
  }

  /** A deletion leaks nothing exactly when, of all the manifests it removes, only
      the newest one of the named file lists chunks. */
  lemma DeletionExact(s: Store, f: FileId)
    requires f in s.files
    ensures Empty(DeletionLeak(s, f)) <==>
            (forall m :: m in Unreleased(s, f) ==> Unreleased(s, f)[m].chunks == [])
  {
    HoldsNothing(Unreleased(s, f));
    assert DeletionLeak(s, f) == ManifestsBag(Unreleased(s, f));
  }

  // --- Tight steps ---------------------------------------------------------------------------

  /** A session without a single hash. */
  ghost predicate HoldsNone(session: Session) {
    forall i :: i in session.chunkHashes ==> session.chunkHashes[i] == []
  }

  lemma SessionHoldsNone(session: Session)
    ensures Empty(SessionBag(session)) <==> HoldsNone(session)
  {
    if Empty(SessionBag(session)) {
      forall i | i in session.chunkHashes ensures session.chunkHashes[i] == [] {
        if session.chunkHashes[i] != [] {
          var h := session.chunkHashes[i][0];
          assert SessionBag(session)(h) == 0 && Occurs(h)(session.chunkHashes[i]) > 0;
          TotalZero(session.chunkHashes, Occurs(h));
        }
      }
    }
    if HoldsNone(session) {
      forall h ensures SessionBag(session)(h) == 0 {
        TotalZero(session.chunkHashes, Occurs(h));
      }
    }
  }

  /** No manifest of a row at or below f lists a chunk. */
  ghost predicate ListsNone(s: Store, f: FileId) {
    forall m :: m in s.manifests && s.manifests[m].file in Cascade(s.files, {f}) ==> s.manifests[m].chunks == []
  }

  /** Of the manifests at or below f, only the newest of f itself lists chunks. */
  ghost predicate NewestListsAll(s: Store, f: FileId) {
    forall m :: m in s.manifests && s.manifests[m].file in Cascade(s.files, {f}) && s.manifests[m].chunks != [] ==>
      HasManifest(s, f) && m == Latest(s, f)
  }

  /** Whether a step takes away only references that it releases. */
  ghost predicate Tight(s: Store, op: Op) {
    match op
    case OpCreateUpload(_, sid, _, name, size, _) =>
      name != "" && 0 < size <= MAX_UPLOAD_SIZE && sid in s.sessions ==> HoldsNone(s.sessions[sid])
    case OpDeleteFile(f) => f in s.files ==> NewestListsAll(s, f)
    case OpPermanentDelete(user, f) => f in s.files && s.files[f].user == user ==> ListsNone(s, f)
    case OpCollectOldVersions(cutoff) =>
      forall m :: m in s.manifests && IsOldVersion(s, cutoff, m) ==> s.manifests[m].chunks == []
    case _ => true
  }

  lemma DeletionTight(s: Store, f: FileId)
    requires f in s.files
    ensures Empty(DeletionLeak(s, f)) <==> NewestListsAll(s, f)
  {
    DeletionExact(s, f);
    var gone := ManifestsOf(s, Cascade(s.files, {f}));
    var unreleased := Unreleased(s, f);
    forall m ensures m in unreleased <==> m in gone && !(HasManifest(s, f) && m == Latest(s, f)) {}
    if forall m :: m in unreleased ==> unreleased[m].chunks == [] {
      forall m | m in gone && s.manifests[m].chunks != [] ensures HasManifest(s, f) && m == Latest(s, f) {
        if m in unreleased { assert false; }
      }
      assert NewestListsAll(s, f);
    }
    if NewestListsAll(s, f) {
      forall m | m in unreleased ensures unreleased[m].chunks == [] { assert m in gone; }
    }
  }

  lemma RemovalTight(s: Store, f: FileId)
    ensures Empty(ManifestsBag(ManifestsOf(s, Cascade(s.files, {f})))) <==> ListsNone(s, f)
  {
    var gone := ManifestsOf(s, Cascade(s.files, {f}));
    HoldsNothing(gone);
    assert forall m :: m in gone <==> m in s.manifests && s.manifests[m].file in Cascade(s.files, {f});
  }

  /** A step leaks nothing exactly when it is tight. */
  lemma TightIff(s: Store, op: Op)
    ensures Empty(Leak(s, op)) <==> Tight(s, op)
  {
    match op
    case OpCreateUpload(_, sid, _, _, _, _) => if sid in s.sessions { SessionHoldsNone(s.sessions[sid]); }
    case OpDeleteFile(f) => if f in s.files { DeletionTight(s, f); }
    case OpPermanentDelete(_, f) => RemovalTight(s, f);
    case OpCollectOldVersions(cutoff) =>
      HoldsNothing(OldVersions(s, cutoff));
      assert forall m :: m in OldVersions(s, cutoff) <==> m in s.manifests && IsOldVersion(s, cutoff, m);
    case _ =>
  }

  // --- Tight runs -----------------------------------------------------------------------------

  ghost predicate TightRun(cfg: Config, ops: seq<Op>) {
    ops == [] || (TightRun(cfg, ops[..|ops| - 1]) && Tight(Run(cfg, ops[..|ops| - 1]), ops[|ops| - 1]))
  }

  ghost function LeakedBag(cfg: Config, ops: seq<Op>): Bag {
    (h: Hash) => Leaked(cfg, ops, h)
  }

  lemma EmptySum(all: Bag, a: Bag, b: Bag)
    requires forall h :: all(h) == a(h) + b(h)
    ensures Empty(all) <==> Empty(a) && Empty(b)
  {
    if Empty(all) {
      forall h ensures a(h) == 0 && b(h) == 0 { assert all(h) == 0; }
    }
  }

  /** A run has leaked nothing exactly when each of its steps was tight. */
  lemma {:induction false} RunTightIff(cfg: Config, ops: seq<Op>)
    ensures Empty(LeakedBag(cfg, ops)) <==> TightRun(cfg, ops)
  {
    if ops != [] {
      var before, op := ops[..|ops| - 1], ops[|ops| - 1];
      RunTightIff(cfg, before);
      TightIff(Run(cfg, before), op);
      EmptySum(LeakedBag(cfg, ops), LeakedBag(cfg, before), Leak(Run(cfg, before), op));
    }
  }

  /** Every reference counted is held by an open session or a live manifest. */
  ghost predicate CountsExact(s: Store) {
    forall h :: Count(s, h) == Held(s, h)
  }

  lemma ExactIff(s: Store, leaked: Bag)
    requires forall h :: Count(s, h) == Held(s, h) + leaked(h)
    ensures CountsExact(s) <==> Empty(leaked)
  {
    if CountsExact(s) {
      forall h ensures leaked(h) == 0 { assert Count(s, h) == Held(s, h); }
    }
  }

  /** Main result on counting: after a run the reference counts are exactly the
      references held by open sessions and live manifests if and only if every
      step of the run was tight. */
  lemma {:induction false} CountsExactIff(cfg: Config, ops: seq<Op>)
    requires PushedRun(cfg, ops)
    ensures CountsExact(Run(cfg, ops)) <==> TightRun(cfg, ops)
  {
    RunAccounted(cfg, ops);
    RunTightIff(cfg, ops);
    ExactIff(Run(cfg, ops), LeakedBag(cfg, ops));
  }

  /** With nothing left that could hold a reference, exact counts mean no rows. */
  lemma NothingHeld(s: Store)
    requires Backed(s) && Linked(s) && s.sessions == map[] && s.files == map[]
    ensures CountsExact(s) <==> s.chunks == map[]
  {
    assert s.manifests == map[];
    assert forall h :: Held(s, h) == 0;
    if CountsExact(s) {
      forall h ensures h !in s.chunks { assert Count(s, h) == Held(s, h); }
    }
  }

  /** Once the last session and the last file are gone, no chunk row is left if
      and only if every step of the run was tight; nor is any blob, unless one was
      pushed on its own. */
  lemma CleanShutdown(cfg: Config, ops: seq<Op>)
    requires PushedRun(cfg, ops)
    requires Run(cfg, ops).sessions == map[] && Run(cfg, ops).files == map[]
    ensures Run(cfg, ops).chunks == map[] <==> TightRun(cfg, ops)
    ensures (forall i :: 0 <= i < |ops| ==> !ops[i].OpPushChunk?) ==>
              (Run(cfg, ops).blobs == map[] <==> TightRun(cfg, ops))
  {
    var s := Run(cfg, ops);
    RunAccounted(cfg, ops);
    CountsExactIff(cfg, ops);
    NothingHeld(s);
    if forall i :: 0 <= i < |ops| ==> !ops[i].OpPushChunk? {
      RunPaired(cfg, ops);
      assert s.blobs == map[] <==> s.blobs.Keys == {};
      assert s.chunks == map[] <==> s.chunks.Keys == {};
    }
  }

  /** No chunk row ever waits at zero: in no reachable state does the orphan
      collector find anything. */
  lemma {:induction false} NoOrphans(cfg: Config, ops: seq<Op>, olderThan: Option<Time>)
    requires PushedRun(cfg, ops)
    ensures Orphans(Run(cfg, ops), olderThan) == {}
    ensures Run(cfg, ops + [OpCollectOrphans(olderThan)]) == Run(cfg, ops)
  {
    RunAccounted(cfg, ops);
    NothingOrphaned(cfg, Run(cfg, ops), olderThan);
    assert (ops + [OpCollectOrphans(olderThan)])[..|ops|] == ops;
  }

  // --- A class of tight runs ------------------------------------------------------------------

  ghost predicate OneManifest(s: Store) {
    forall m, n :: m in s.manifests && n in s.manifests && s.manifests[m].file == s.manifests[n].file ==> m == n
  }

  /** Uploads with new session ids, completion, cancelling, expiry, every
      collector, tree changes, pushes and sync additions, with the trash collector
      deleting rows that have nothing below them. */
  ghost predicate Plain(s: Store, op: Op) {
    match op
    case OpCreateUpload(_, sid, _, _, _, _) => sid !in s.sessions
    case OpDeleteFile(f) => forall g :: g in s.files ==> s.files[g].parent != Some(f)
    case OpPermanentDelete(_, _) => false
    case OpSyncModify(_, _, _, _, _) => false
    case _ => true
  }

  ghost predicate PlainRun(cfg: Config, ops: seq<Op>) {
    ops == [] || (PlainRun(cfg, ops[..|ops| - 1]) && Plain(Run(cfg, ops[..|ops| - 1]), ops[|ops| - 1]))
  }

  lemma PlainTight(s: Store, op: Op)
    requires OneManifest(s) && Plain(s, op)
    ensures Tight(s, op)
  {
    match op
    case OpDeleteFile(f) =>
      CascadeLeast(s.files, {f}, {f});
    case OpCollectOldVersions(cutoff) =>
      forall m | m in s.manifests ensures !IsOldVersion(s, cutoff, m) {
        assert NewerListed(s, cutoff, m) == {};
      }
    case _ =>
  }

  /** One more manifest, for a file that had none. */
  lemma FiledKeepsOne(s: Store, t: Store, f: FileId, m: ManifestId, hashes: seq<Hash>)
    requires OneManifest(s) && Linked(s) && (Filed(s, t, f, m, hashes) || Unfiled(s, t, f))
    ensures OneManifest(t)
  {}

  lemma {:induction false} RetainRows(sha: Bytes -> Hash, s: Store, pieces: seq<Bytes>, now: Time)
    ensures var t := Retain(sha, s, pieces, now);
            t.sessions == s.sessions && t.files == s.files && t.manifests == s.manifests
  {
    if pieces != [] { RetainRows(sha, s, pieces[..|pieces| - 1], now); }
  }

  lemma FewerManifests(s: Store, t: Store)
    requires OneManifest(s)
    requires forall m :: m in t.manifests ==> m in s.manifests && t.manifests[m] == s.manifests[m]
    ensures OneManifest(t)
  {}

  lemma PlainKeepsOne(cfg: Config, s: Store, op: Op)
    requires OneManifest(s) && Linked(s) && Plain(s, op)
    ensures OneManifest(Step(cfg, s, op).0)
  {
    var t := Step(cfg, s, op).0;
    match op
    case OpUploadChunk(_, _, _, _, body, now) =>
      RetainRows(cfg.sha, s, Pieces(cfg.cut, Limited(body)), now);
      FewerManifests(s, t);
    case OpCompleteUpload(user, sid, f, m, now) =>
      CompleteCases(s, user, sid, f, m, now);
      FiledKeepsOne(s, t, f, m, if t.manifests != s.manifests then t.manifests[m].chunks else []);
    case OpSyncAdd(_, f, _, _, _, hashes, m, _) =>
      SyncAddCases(s, op);
      FiledKeepsOne(s, t, f, m, hashes);
    case OpTree(user, f, change) =>
      TreeKeepsManifests(s, user, f, change);
      FewerManifests(s, t);
    case _ => FewerManifests(s, t);
  }

  lemma TreeKeepsManifests(s: Store, user: string, f: FileId, change: TreeOp)
    ensures ChangeTree(s, user, f, change).0.manifests == s.manifests
  {}

  /** Plain runs are tight: in them the counts are exact, and nothing is left when
      the last session and file go. */
  lemma {:induction false} PlainRunTight(cfg: Config, ops: seq<Op>)
    requires PushedRun(cfg, ops) && PlainRun(cfg, ops)
    ensures TightRun(cfg, ops) && OneManifest(Run(cfg, ops))
  {
    if ops != [] {
      var before, op := ops[..|ops| - 1], ops[|ops| - 1];
      PlainRunTight(cfg, before);
      RunAccounted(cfg, before);
      PlainTight(Run(cfg, before), op);
      PlainKeepsOne(cfg, Run(cfg, before), op);
    }
  }

  // --- A run that leaks -----------------------------------------------------------------------

  const CREATE := OpCreateUpload("u", "s", None, "a", 1, 0)
  const UPLOAD := OpUploadChunk("u", "s", 0, 1, [0], 0)
  const COMPLETE := OpCompleteUpload("u", "s", "f", "m", 0)
  const MODIFY := OpSyncModify("f", 0, [], "n", 0)
  const DELETE := OpDeleteFile("f")

  ghost function Hashes(cfg: Config): seq<Hash> { Map(cfg.sha, Pieces(cfg.cut, [0])) }

  /** The session once its only byte has arrived. */
  ghost function Received(cfg: Config): Session {
    Session("u", None, "a", 1, SESSION_TTL, 1, map[0 := 1], map[0 := Hashes(cfg)], AllUploaded)
  }

  lemma AfterUpload(cfg: Config, s: Store)
    requires s == CreateUpload(EMPTY, "u", "s", None, "a", 1, 0).0
    ensures var t := Step(cfg, s, UPLOAD).0;
            t.sessions == map["s" := Received(cfg)] && t.files == map[] && t.manifests == map[]
  {
    var body: Bytes := [0];
    RetainRows(cfg.sha, s, Pieces(cfg.cut, body), 0);
    assert RecordChunk(s.sessions["s"], 0, 1, Hashes(cfg)) == Received(cfg);
  }

  lemma AfterComplete(cfg: Config, s: Store)
    requires s.sessions == map["s" := Received(cfg)] && s.files == map[] && s.manifests == map[]
    ensures var t := Step(cfg, s, COMPLETE).0;
            && t.sessions == map[]
            && t.files == map["f" := FileRow("u", None, "a", FileKind, 1, Some("m"), None, 1)]
            && t.manifests == map["m" := Manifest("f", 1, 1, Hashes(cfg), 0)]
  {
    var hashes := Received(cfg).chunkHashes;
    assert Gather(hashes, 0) == [];
    assert Gather(hashes, 1) == Gather(hashes, 0) + hashes[0] == Hashes(cfg);
  }

  lemma AfterModify(cfg: Config, s: Store)
    requires s.sessions == map[]
    requires s.files == map["f" := FileRow("u", None, "a", FileKind, 1, Some("m"), None, 1)]
    requires s.manifests == map["m" := Manifest("f", 1, 1, Hashes(cfg), 0)]
    ensures var t := Step(cfg, s, MODIFY).0;
            && t.sessions == map[] && t.files.Keys == {"f"} && t.files["f"].parent == None
            && t.manifests == map["m" := Manifest("f", 1, 1, Hashes(cfg), 0), "n" := Manifest("f", 2, 0, [], 0)]
  {}

  /** The deletion releases version 2 and forgets version 1. */
  lemma AfterDelete(cfg: Config, s: Store)
    requires s.sessions == map[] && s.files.Keys == {"f"} && s.files["f"].parent == None
    requires s.manifests == map["m" := Manifest("f", 1, 1, Hashes(cfg), 0), "n" := Manifest("f", 2, 0, [], 0)]
    ensures !Tight(s, DELETE)
    ensures Step(cfg, s, DELETE).0.sessions == map[] && Step(cfg, s, DELETE).0.files == map[]
  {
    PiecesGreedy(cfg.cut, [0]);
    assert Hashes(cfg) != [];
    CascadeLeast(s.files, {"f"}, {"f"});
    assert s.manifests["m"].version < s.manifests["n"].version;
    assert HasManifest(s, "f") && Latest(s, "f") != "m";
  }

  lemma RunNext(cfg: Config, ops: seq<Op>, op: Op)
    ensures Run(cfg, ops + [op]) == Step(cfg, Run(cfg, ops), op).0
    ensures PushedRun(cfg, ops + [op]) <==> PushedRun(cfg, ops) && Pushed(Run(cfg, ops), op)
    ensures TightRun(cfg, ops + [op]) <==> TightRun(cfg, ops) && Tight(Run(cfg, ops), op)
  {
    assert (ops + [op])[..|ops|] == ops;
  }

  ghost function LeakingRun(): seq<Op> { [] + [CREATE] + [UPLOAD] + [COMPLETE] + [MODIFY] + [DELETE] }

  /** A file uploaded once and modified once leaves the references of its first
      version behind when it is deleted: sessions and files are gone, and the
      chunks of the first version are still there. */
  lemma ModifiedFileLeaks(cfg: Config)
    ensures PushedRun(cfg, LeakingRun()) && !TightRun(cfg, LeakingRun())
    ensures var s := Run(cfg, LeakingRun()); s.sessions == map[] && s.files == map[] && s.chunks != map[]
  {
    var ops: seq<Op> := [];
    RunNext(cfg, ops, CREATE);
    AfterUpload(cfg, Run(cfg, ops + [CREATE]));
    RunNext(cfg, ops + [CREATE], UPLOAD);
    AfterComplete(cfg, Run(cfg, ops + [CREATE] + [UPLOAD]));
    RunNext(cfg, ops + [CREATE] + [UPLOAD], COMPLETE);
    AfterModify(cfg, Run(cfg, ops + [CREATE] + [UPLOAD] + [COMPLETE]));
    RunNext(cfg, ops + [CREATE] + [UPLOAD] + [COMPLETE], MODIFY);
    AfterDelete(cfg, Run(cfg, ops + [CREATE] + [UPLOAD] + [COMPLETE] + [MODIFY]));
    RunNext(cfg, ops + [CREATE] + [UPLOAD] + [COMPLETE] + [MODIFY], DELETE);
    CleanShutdown(cfg, LeakingRun());
  }
}
