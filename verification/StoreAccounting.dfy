/** Reference accounting: what every handler and collector keeps, and exactly
    which references each of them leaks. */
module StoreAccounting {
  import opened Common
  import opened Greedy
  import opened StoreModel

  /** Every blob is stored under its own digest. */
  ghost predicate HonestBlobs(sha: Bytes -> Hash, s: Store) {
    forall h :: h in s.blobs ==> sha(s.blobs[h]) == h
  }

  /** Every chunk row has a reference and a blob. */
  ghost predicate Backed(s: Store) {
    forall h :: h in s.chunks ==> s.chunks[h].refs >= 1 && h in s.blobs
  }

  /** References counted beyond those held. */
  ghost function Slack(s: Store, h: Hash): int {
    Count(s, h) - Held(s, h)
  }

  /** No hash is held more often than its row counts. */
  ghost predicate Covered(s: Store) {
    forall h :: Slack(s, h) >= 0
  }

  ghost predicate SessionOk(session: Session) {
    session.chunks.Keys == session.chunkHashes.Keys && forall i :: i in session.chunks ==> i < session.total
  }

  /** Foreign keys hold and sessions are well formed. */
  ghost predicate Linked(s: Store) {
    && (forall sid :: sid in s.sessions ==> SessionOk(s.sessions[sid]))
    && (forall m :: m in s.manifests ==> s.manifests[m].file in s.files)
    && (forall f :: f in s.files && s.files[f].parent.Some? ==> s.files[f].parent.value in s.files)
  }

  ghost predicate Sound(cfg: Config, s: Store) {
    HonestBlobs(cfg.sha, s) && Backed(s) && Covered(s) && Linked(s)
  }

  /** t keeps every invariant and its slack grows by exactly the leak. */
  ghost predicate Accounted(cfg: Config, s: Store, t: Store, leak: Bag) {
    Sound(cfg, t) && forall h :: Slack(t, h) == Slack(s, h) + leak(h)
  }

  ghost function NoLeak(): Bag { (h: Hash) => 0 }

  /** What a table of manifests holds. */
  ghost function ManifestsBag(manifests: map<ManifestId, Manifest>): Bag {
    (h: Hash) => ManifestsTally(manifests, h)
  }

  /** The manifests of a set of files. */
  ghost function ManifestsOf(s: Store, files: set<FileId>): map<ManifestId, Manifest> {
    map m | m in s.manifests && s.manifests[m].file in files :: s.manifests[m]
  }

  ghost function OldVersions(s: Store, cutoff: Time): map<ManifestId, Manifest> {
    map m | m in s.manifests && IsOldVersion(s, cutoff, m) :: s.manifests[m]
  }

  /** A file deletion releases only the newest manifest of the named file. */
  ghost function DeletionLeak(s: Store, f: FileId): Bag {
    if f !in s.files then NoLeak() else
      var gone := ManifestsOf(s, Cascade(s.files, {f}));
      if HasManifest(s, f) then ManifestsBag(gone - {Latest(s, f)}) else ManifestsBag(gone)
  }

  /** The references a step stops tracking without releasing them. */
  ghost function Leak(s: Store, op: Op): Bag {
    match op
    case OpCreateUpload(user, sid, parent, name, size, now) =>
      // a colliding session id replaces the session
      if CreateUpload(s, user, sid, parent, name, size, now).1.Created? && sid in s.sessions
      then SessionBag(s.sessions[sid]) else NoLeak()
    case OpDeleteFile(f) => DeletionLeak(s, f)
    case OpPermanentDelete(user, f) =>
      if f in s.files && s.files[f].user == user then ManifestsBag(ManifestsOf(s, Cascade(s.files, {f}))) else NoLeak()
    case OpCollectOldVersions(cutoff) => ManifestsBag(OldVersions(s, cutoff))
    case _ => NoLeak()
  }

  // --- Cascade -----------------------------------------------------------------

  /** Nothing outside hangs below a member. */
  ghost predicate Closed(files: map<FileId, FileRow>, doomed: set<FileId>) {
    forall f :: f in files && files[f].parent.Some? && files[f].parent.value in doomed ==> f in doomed
  }

  /** Cascade is the least closed set above its seed. */
  lemma {:induction false} CascadeLeast(files: map<FileId, FileRow>, doomed: set<FileId>, bound: set<FileId>)
    ensures doomed <= Cascade(files, doomed) <= doomed + files.Keys
    ensures Closed(files, Cascade(files, doomed))
    ensures doomed <= bound && Closed(files, bound) ==> Cascade(files, doomed) <= bound
    decreases files.Keys - doomed
  {
    var below := set f | f in files && f !in doomed && files[f].parent.Some? && files[f].parent.value in doomed;
    if below == {} {
      forall f | f in files && files[f].parent.Some? && files[f].parent.value in doomed
        ensures f in doomed
      {
        assert f in below || f in doomed;
      }
    } else {
      assert below <= files.Keys - doomed;
      CascadeLeast(files, doomed + below, bound);
    }
  }

  // --- Counting ------------------------------------------------------------------

  lemma {:induction false} RetainLaw(cfg: Config, s: Store, pieces: seq<Bytes>, now: Time)
    requires HonestBlobs(cfg.sha, s) && Backed(s)
    ensures var t := Retain(cfg.sha, s, pieces, now);
      && t.sessions == s.sessions && t.files == s.files && t.manifests == s.manifests
      && HonestBlobs(cfg.sha, t) && Backed(t) && s.blobs.Keys <= t.blobs.Keys
      && forall h :: Count(t, h) == Count(s, h) + multiset(Map(cfg.sha, pieces))[h]
  {
    if pieces != [] {
      var n := |pieces| - 1;
      RetainLaw(cfg, s, pieces[..n], now);
      assert Map(cfg.sha, pieces) == Map(cfg.sha, pieces[..n]) + [cfg.sha(pieces[n])];
    } else {
      assert Map(cfg.sha, pieces) == [];
    }
  }

  lemma {:induction false} EnsureRefsLaw(chunks: map<Hash, ChunkRow>, hashes: seq<Hash>, now: Time)
    requires forall h :: h in chunks ==> chunks[h].refs >= 1
    ensures var t := EnsureRefs(chunks, hashes, now);
      && (forall h :: h in t <==> h in chunks || h in hashes)
      && (forall h :: h in t ==> t[h].refs >= 1)
      && forall h :: (if h in t then t[h].refs else 0) ==
                     (if h in chunks then chunks[h].refs else 0) + multiset(hashes)[h]
  {
    if hashes != [] {
      var n := |hashes| - 1;
      EnsureRefsLaw(chunks, hashes[..n], now);
      assert hashes == hashes[..n] + [hashes[n]];
    }
  }

  lemma ReleaseLaw(cfg: Config, s: Store, k: Bag)
    requires HonestBlobs(cfg.sha, s) && Backed(s) && forall h :: k(h) <= Count(s, h)
    ensures var t := Release(s, k);
      && HonestBlobs(cfg.sha, t) && Backed(t)
      && forall h :: Count(t, h) == Count(s, h) - k(h)
  {}

  /** Only the bag's values matter. */
  lemma ReleaseExt(s: Store, k: Bag, k': Bag)
    requires forall h :: k(h) == k'(h)
    ensures Release(s, k) == Release(s, k')
  {
    assert Release(s, k).chunks == Release(s, k').chunks;
    assert Release(s, k).blobs == Release(s, k').blobs;
  }

  lemma ReleaseNothing(s: Store)
    ensures Release(s, NoLeak()) == s
  {
    var t := Release(s, NoLeak());
    assert t.chunks == s.chunks;
    assert t.blobs == s.blobs;
  }

  // --- Bags held --------------------------------------------------------------------

  type Lists = map<nat, seq<Hash>>

  /** The occurrences of h in lists 0..n. */
  ghost function Below(lists: Lists, n: nat, h: Hash): nat {
    if n == 0 then 0 else Below(lists, n - 1, h) + if n - 1 in lists then multiset(lists[n - 1])[h] else 0
  }

  lemma {:induction false} GatherBelow(lists: Lists, n: nat, h: Hash)
    ensures multiset(Gather(lists, n))[h] == Below(lists, n, h)
  {
    if n > 0 { GatherBelow(lists, n - 1, h); }
  }

  lemma {:induction false} BelowWithout(lists: Lists, rest: Lists, k: nat, n: nat, h: Hash)
    requires k in lists && rest == lists - {k}
    ensures Below(lists, n, h) == Below(rest, n, h) + if k < n then multiset(lists[k])[h] else 0
  {
    if n > 0 { BelowWithout(lists, rest, k, n - 1, h); }
  }

  lemma {:induction false} BelowNone(lists: Lists, n: nat, h: Hash)
    requires |lists| == 0
    ensures Below(lists, n, h) == 0
  {
    if n > 0 { BelowNone(lists, n - 1, h); }
  }

  lemma {:induction false} TotalBelow(lists: Lists, n: nat, h: Hash)
    requires forall i :: i in lists ==> i < n
    ensures Total(lists, Occurs(h)) == Below(lists, n, h)
    decreases |lists|
  {
    if |lists| == 0 {
      BelowNone(lists, n, h);
    } else {
      var k :| k in lists;
      var rest: Lists := lists - {k};
      TotalRemove(lists, Occurs(h), k);
      BelowWithout(lists, rest, k, n, h);
      TotalBelow(rest, n, h);
    }
  }

  /** The gathered hashes of a session are all it holds. */
  lemma {:induction false} GatherHeld(lists: Lists, n: nat, h: Hash)
    requires forall i :: i in lists ==> i < n
    ensures multiset(Gather(lists, n))[h] == Total(lists, Occurs(h))
  {
    GatherBelow(lists, n, h);
    TotalBelow(lists, n, h);
  }

  // --- The steps, one by one --------------------------------------------------------------

  /** Proving the slack law proves coverage. */
  lemma SlackCovers(cfg: Config, s: Store, t: Store, leak: Bag)
    requires Covered(s) && HonestBlobs(cfg.sha, t) && Backed(t) && Linked(t)
    requires forall h :: Slack(t, h) == Slack(s, h) + leak(h)
    ensures Accounted(cfg, s, t, leak)
  {
    forall h ensures Slack(t, h) >= 0 {
      assert Slack(s, h) >= 0;
    }
  }

  /** A step that touches neither counts nor holders. */
  lemma SameBooks(cfg: Config, s: Store, t: Store)
    requires Sound(cfg, s) && Linked(t)
    requires t.chunks == s.chunks && t.blobs == s.blobs && t.sessions == s.sessions && t.manifests == s.manifests
    ensures Accounted(cfg, s, t, NoLeak())
  {
    SlackCovers(cfg, s, t, NoLeak());
  }

  /** Setting one session. */
  lemma SetSession(s: Store, t: Store, sid: SessionId, session: Session, h: Hash)
    requires t.sessions == s.sessions[sid := session] && t.manifests == s.manifests
    ensures Held(t, h) + (if sid in s.sessions then SessionBag(s.sessions[sid])(h) else 0)
            == Held(s, h) + SessionBag(session)(h)
  {
    TotalSet(s.sessions, SessionWeight(h), sid, session);
  }

  lemma SessionCreated(cfg: Config, s: Store, t: Store, sid: SessionId, session: Session)
    requires Sound(cfg, s) && session.chunks == map[] && session.chunkHashes == map[]
    requires t == s.(sessions := s.sessions[sid := session])
    ensures Accounted(cfg, s, t, if sid in s.sessions then SessionBag(s.sessions[sid]) else NoLeak())
  {
    var leak := if sid in s.sessions then SessionBag(s.sessions[sid]) else NoLeak();
    forall h ensures Slack(t, h) == Slack(s, h) + leak(h) {
      SetSession(s, t, sid, session, h);
    }
    assert SessionOk(session);
    SlackCovers(cfg, s, t, leak);
  }

  lemma SessionBagRecord(session: Session, index: nat, size: nat, hashes: seq<Hash>, h: Hash)
    requires SessionOk(session) && index !in session.chunks
    ensures SessionBag(RecordChunk(session, index, size, hashes))(h) == SessionBag(session)(h) + multiset(hashes)[h]
  {
    TotalSet(session.chunkHashes, Occurs(h), index, hashes);
  }

  /** Replacing a session by one that holds `hashes` more. */
  lemma SessionGrown(s: Store, t: Store, sid: SessionId, after: Session, hashes: seq<Hash>, h: Hash)
    requires sid in s.sessions && t.sessions == s.sessions[sid := after] && t.manifests == s.manifests
    requires SessionBag(after)(h) == SessionBag(s.sessions[sid])(h) + multiset(hashes)[h]
    requires Count(t, h) == Count(s, h) + multiset(hashes)[h]
    ensures Slack(t, h) == Slack(s, h)
  {
    SetSession(s, t, sid, after, h);
  }

  lemma ChunkRecorded(cfg: Config, s: Store, sid: SessionId, index: nat, size: nat, pieces: seq<Bytes>, now: Time)
    requires Sound(cfg, s) && sid in s.sessions
    requires index !in s.sessions[sid].chunks && index < s.sessions[sid].total
    ensures var hashes := Map(cfg.sha, pieces);
            var after := RecordChunk(s.sessions[sid], index, size, hashes);
            var t := Retain(cfg.sha, s, pieces, now).(sessions := s.sessions[sid := after]);
            Accounted(cfg, s, t, NoLeak())
  {
    var hashes := Map(cfg.sha, pieces);
    var u := Retain(cfg.sha, s, pieces, now);
    var session := s.sessions[sid];
    var after := RecordChunk(session, index, size, hashes);
    var t := u.(sessions := s.sessions[sid := after]);
    RetainLaw(cfg, s, pieces, now);
    assert SessionOk(session);
    forall h ensures Slack(t, h) == Slack(s, h) + NoLeak()(h) {
      assert Count(t, h) == Count(u, h);
      SessionBagRecord(session, index, size, hashes, h);
      SessionGrown(s, t, sid, after, hashes, h);
    }
    SlackCovers(cfg, s, t, NoLeak());
  }

  /** The session's references move to the manifest. */
  lemma HeldMoves(s: Store, t: Store, sid: SessionId, m: ManifestId, row: Manifest, h: Hash)
    requires sid in s.sessions && m !in s.manifests && SessionOk(s.sessions[sid])
    requires row.chunks == Gather(s.sessions[sid].chunkHashes, s.sessions[sid].total)
    requires t.sessions == s.sessions - {sid} && t.manifests == s.manifests[m := row]
    ensures Held(t, h) == Held(s, h)
  {
    GatherHeld(s.sessions[sid].chunkHashes, s.sessions[sid].total, h);
    TotalRemove(s.sessions, SessionWeight(h), sid);
    TotalSet(s.manifests, ManifestWeight(h), m, row);
  }

  lemma SessionCompleted(cfg: Config, s: Store, t: Store, sid: SessionId, m: ManifestId, row: Manifest)
    requires Sound(cfg, s) && Linked(t) && sid in s.sessions && m !in s.manifests
    requires row.chunks == Gather(s.sessions[sid].chunkHashes, s.sessions[sid].total)
    requires t.chunks == s.chunks && t.blobs == s.blobs
    requires t.sessions == s.sessions - {sid} && t.manifests == s.manifests[m := row]
    ensures Accounted(cfg, s, t, NoLeak())
  {
    assert SessionOk(s.sessions[sid]);
    forall h ensures Slack(t, h) == Slack(s, h) + NoLeak()(h) {
      HeldMoves(s, t, sid, m, row, h);
    }
    SlackCovers(cfg, s, t, NoLeak());
  }

  /** Releasing what a removed part held: the generic deletion step. */
  lemma ReleaseAccounted(cfg: Config, s: Store, kept: Store, k: Bag, leak: Bag)
    requires Sound(cfg, s) && Linked(kept)
    requires kept.chunks == s.chunks && kept.blobs == s.blobs
    requires forall h :: Held(s, h) == Held(kept, h) + k(h) + leak(h)
    ensures Accounted(cfg, s, Release(kept, k), leak)
  {
    var t := Release(kept, k);
    forall h ensures k(h) <= Count(kept, h) {
      assert Slack(s, h) >= 0;
      assert Held(s, h) == Held(kept, h) + k(h) + leak(h);
    }
    ReleaseLaw(cfg, kept, k);
    forall h ensures Slack(t, h) == Slack(s, h) + leak(h) {
      assert Held(s, h) == Held(kept, h) + k(h) + leak(h);
      assert Held(t, h) == Held(kept, h);
    }
    SlackCovers(cfg, s, t, leak);
  }

  lemma SessionCancelled(cfg: Config, s: Store, sid: SessionId)
    requires Sound(cfg, s) && sid in s.sessions
    ensures Accounted(cfg, s, Release(s.(sessions := s.sessions - {sid}), SessionBag(s.sessions[sid])), NoLeak())
  {
    var kept := s.(sessions := s.sessions - {sid});
    forall h ensures Held(s, h) == Held(kept, h) + SessionBag(s.sessions[sid])(h) + NoLeak()(h) {
      TotalRemove(s.sessions, SessionWeight(h), sid);
    }
    ReleaseAccounted(cfg, s, kept, SessionBag(s.sessions[sid]), NoLeak());
  }

  lemma HeldByExpired(s: Store, now: Time, h: Hash)
    ensures var expired := ExpiredSessions(s, now);
            Held(s, h) == Held(s.(sessions := s.sessions - expired.Keys), h) + SessionsBag(expired)(h)
  {
    var expired := ExpiredSessions(s, now);
    TotalSplit(s.sessions, expired, s.sessions - expired.Keys, SessionWeight(h));
  }

  lemma SessionsExpired(cfg: Config, s: Store, now: Time)
    requires Sound(cfg, s)
    ensures Accounted(cfg, s, CleanupExpired(s, now), NoLeak())
  {
    var expired := ExpiredSessions(s, now);
    var kept := s.(sessions := s.sessions - expired.Keys);
    forall h ensures Held(s, h) == Held(kept, h) + SessionsBag(expired)(h) + NoLeak()(h) {
      HeldByExpired(s, now, h);
    }
    ReleaseAccounted(cfg, s, kept, SessionsBag(expired), NoLeak());
  }

  lemma HeldByFiles(s: Store, doomed: set<FileId>, h: Hash)
    ensures Held(s, h) == Held(DeleteRows(s, doomed), h) + ManifestsBag(ManifestsOf(s, doomed))(h)
  {
    TotalSplit(s.manifests, ManifestsOf(s, doomed), DeleteRows(s, doomed).manifests, ManifestWeight(h));
  }

  /** Deleting a closed set of rows with their manifests keeps the links. */
  lemma RowsDeleted(s: Store, doomed: set<FileId>)
    requires Linked(s) && Closed(s.files, doomed)
    ensures Linked(DeleteRows(s, doomed))
    ensures forall h :: Held(s, h) == Held(DeleteRows(s, doomed), h) + ManifestsBag(ManifestsOf(s, doomed))(h)
  {
    forall h ensures Held(s, h) == Held(DeleteRows(s, doomed), h) + ManifestsBag(ManifestsOf(s, doomed))(h) {
      HeldByFiles(s, doomed, h);
    }
  }

  lemma FileDeleted(cfg: Config, s: Store, f: FileId)
    requires Sound(cfg, s)
    ensures Accounted(cfg, s, DeleteFile(s, f).0, DeletionLeak(s, f))
  {
    if f !in s.files {
      assert !HasManifest(s, f);
      SameBooks(cfg, s, s);
    } else {
      var doomed := Cascade(s.files, {f});
      CascadeLeast(s.files, {f}, {});
      RowsDeleted(s, doomed);
      if HasManifest(s, f) {
        NewestReleased(cfg, s, f, doomed, Latest(s, f));
      } else {
        var kept := DeleteRows(s, doomed);
        ReleaseNothing(kept);
        ReleaseAccounted(cfg, s, kept, NoLeak(), DeletionLeak(s, f));
      }
    }
  }

  /** The newest manifest's references are released, the others removed are leaked. */
  lemma NewestReleased(cfg: Config, s: Store, f: FileId, doomed: set<FileId>, m: ManifestId)
    requires Sound(cfg, s) && f in doomed && m in s.manifests && s.manifests[m].file == f
    requires Linked(DeleteRows(s, doomed))
    requires forall h :: Held(s, h) == Held(DeleteRows(s, doomed), h) + ManifestsBag(ManifestsOf(s, doomed))(h)
    ensures Accounted(cfg, s, DeleteRows(Release(s, ListBag(s.manifests[m].chunks)), doomed),
                      ManifestsBag(ManifestsOf(s, doomed) - {m}))
  {
    var kept, gone := DeleteRows(s, doomed), ManifestsOf(s, doomed);
    var k := ListBag(s.manifests[m].chunks);
    forall h ensures Held(s, h) == Held(kept, h) + k(h) + ManifestsBag(gone - {m})(h) {
      assert Held(s, h) == Held(kept, h) + ManifestsBag(gone)(h);
      TotalRemove(gone, ManifestWeight(h), m);
    }
    ReleaseAccounted(cfg, s, kept, k, ManifestsBag(gone - {m}));
    assert Release(kept, k) == DeleteRows(Release(s, k), doomed);
  }

  lemma RowsRemoved(cfg: Config, s: Store, f: FileId)
    requires Sound(cfg, s) && f in s.files
    ensures var doomed := Cascade(s.files, {f});
            Accounted(cfg, s, DeleteRows(s, doomed), ManifestsBag(ManifestsOf(s, doomed)))
  {
    var doomed := Cascade(s.files, {f});
    CascadeLeast(s.files, {f}, {});
    RowsDeleted(s, doomed);
    var t, leak := DeleteRows(s, doomed), ManifestsBag(ManifestsOf(s, doomed));
    forall h ensures Slack(t, h) == Slack(s, h) + leak(h) {
      HeldByFiles(s, doomed, h);
    }
    SlackCovers(cfg, s, t, leak);
  }

  lemma HeldByOldVersions(s: Store, cutoff: Time, h: Hash)
    ensures Held(s, h) == Held(CollectOldVersions(s, cutoff), h) + ManifestsBag(OldVersions(s, cutoff))(h)
  {
    TotalSplit(s.manifests, OldVersions(s, cutoff), CollectOldVersions(s, cutoff).manifests, ManifestWeight(h));
  }

  lemma VersionsCollected(cfg: Config, s: Store, cutoff: Time)
    requires Sound(cfg, s)
    ensures Accounted(cfg, s, CollectOldVersions(s, cutoff), ManifestsBag(OldVersions(s, cutoff)))
  {
    var t, leak := CollectOldVersions(s, cutoff), ManifestsBag(OldVersions(s, cutoff));
    forall h ensures Slack(t, h) == Slack(s, h) + leak(h) {
      HeldByOldVersions(s, cutoff, h);
    }
    SlackCovers(cfg, s, t, leak);
  }

  /** No chunk row ever waits at zero, so the orphan collector finds nothing. */
  lemma NothingOrphaned(cfg: Config, s: Store, olderThan: Option<Time>)
    requires Sound(cfg, s)
    ensures Orphans(s, olderThan) == {} && CollectOrphans(s, olderThan) == s
  {
    assert Orphans(s, olderThan) == {};
    assert s.chunks - {} == s.chunks && s.blobs - {} == s.blobs;
  }

  lemma BlobPushed(cfg: Config, s: Store, h: Hash, data: Bytes)
    requires Sound(cfg, s)
    ensures Accounted(cfg, s, PushChunk(cfg.sha, s, h, data).0, NoLeak())
  {
    var t := PushChunk(cfg.sha, s, h, data).0;
    assert HonestBlobs(cfg.sha, t) && Backed(t) && Linked(t);
    SlackCovers(cfg, s, t, NoLeak());
  }

  lemma ManifestAdded(s: Store, t: Store, m: ManifestId, row: Manifest, h: Hash)
    requires m !in s.manifests && t.sessions == s.sessions && t.manifests == s.manifests[m := row]
    ensures Held(t, h) == Held(s, h) + multiset(row.chunks)[h]
  {
    TotalSet(s.manifests, ManifestWeight(h), m, row);
  }

  lemma ManifestSynced(cfg: Config, s: Store, t: Store, m: ManifestId, row: Manifest, now: Time)
    requires Sound(cfg, s) && Linked(t) && m !in s.manifests
    requires t.sessions == s.sessions && t.manifests == s.manifests[m := row] && t.blobs == s.blobs
    requires t.chunks == EnsureRefs(s.chunks, row.chunks, now)
    requires forall h :: h in row.chunks ==> h in s.blobs
    ensures Accounted(cfg, s, t, NoLeak())
  {
    EnsureRefsLaw(s.chunks, row.chunks, now);
    forall h ensures Slack(t, h) == Slack(s, h) + NoLeak()(h) {
      ManifestAdded(s, t, m, row, h);
    }
    SlackCovers(cfg, s, t, NoLeak());
  }

  lemma FiledLinked(s: Store, t: Store, f: FileId, m: ManifestId, hashes: seq<Hash>)
    requires Linked(s) && Filed(s, t, f, m, hashes)
    requires forall sid :: sid in t.sessions ==> sid in s.sessions && t.sessions[sid] == s.sessions[sid]
    ensures Linked(t)
  {
    assert s.files.Keys <= t.files.Keys;
  }

  lemma UnfiledLinked(s: Store, t: Store, f: FileId)
    requires Linked(s) && Unfiled(s, t, f)
    ensures Linked(t)
  {
    assert s.files.Keys <= t.files.Keys;
  }

  lemma UnfiledBooks(cfg: Config, s: Store, t: Store, f: FileId)
    requires Sound(cfg, s) && Unfiled(s, t, f)
    ensures Accounted(cfg, s, t, NoLeak())
  {
    UnfiledLinked(s, t, f);
    SameBooks(cfg, s, t);
  }

  lemma SyncFiled(cfg: Config, s: Store, t: Store, f: FileId, m: ManifestId, hashes: seq<Hash>, now: Time)
    requires Sound(cfg, s) && Filed(s, t, f, m, hashes) && forall h :: h in hashes ==> h in s.blobs
    requires t == s.(files := t.files, manifests := t.manifests, chunks := EnsureRefs(s.chunks, hashes, now))
    ensures Accounted(cfg, s, t, NoLeak())
  {
    FiledLinked(s, t, f, m, hashes);
    ManifestSynced(cfg, s, t, m, t.manifests[m], now);
  }

  lemma SyncAdded(cfg: Config, s: Store, op: Op)
    requires op.OpSyncAdd? && Sound(cfg, s) && Pushed(s, op)
    ensures var t := SyncAdd(s, op.user, op.f, op.parent, op.name, op.size, op.hashes, op.m, op.now).0;
            Accounted(cfg, s, t, NoLeak())
  {
    var (t, r) := SyncAdd(s, op.user, op.f, op.parent, op.name, op.size, op.hashes, op.m, op.now);
    SyncAddCases(s, op);
    if r.Done? && op.hashes != [] {
      SyncFiled(cfg, s, t, op.f, op.m, op.hashes, op.now);
    } else {
      UnfiledBooks(cfg, s, t, op.f);
    }
  }

  lemma SyncModified(cfg: Config, s: Store, f: FileId, size: int, hashes: seq<Hash>, m: ManifestId, now: Time)
    requires Sound(cfg, s) && forall h :: h in hashes ==> h in s.blobs
    ensures Accounted(cfg, s, SyncModify(s, f, size, hashes, m, now).0, NoLeak())
  {
    var t := SyncModify(s, f, size, hashes, m, now).0;
    if t == s {
      SameBooks(cfg, s, t);
    } else {
      ManifestSynced(cfg, s, t, m, Manifest(f, s.files[f].version + 1, size, hashes, now), now);
    }
  }

  lemma UploadFiled(cfg: Config, s: Store, t: Store, sid: SessionId, f: FileId, m: ManifestId)
    requires Sound(cfg, s) && sid in s.sessions
    requires t == s.(sessions := s.sessions - {sid}, files := t.files, manifests := t.manifests)
    requires Filed(s, t, f, m, Gather(s.sessions[sid].chunkHashes, s.sessions[sid].total))
    ensures Accounted(cfg, s, t, NoLeak())
  {
    FiledLinked(s, t, f, m, t.manifests[m].chunks);
    SessionCompleted(cfg, s, t, sid, m, t.manifests[m]);
  }

  lemma UploadCompleted(cfg: Config, s: Store, user: string, sid: SessionId, f: FileId, m: ManifestId, now: Time)
    requires Sound(cfg, s)
    ensures Accounted(cfg, s, CompleteUpload(s, user, sid, f, m, now).0, NoLeak())
  {
    var (t, r) := CompleteUpload(s, user, sid, f, m, now);
    CompleteCases(s, user, sid, f, m, now);
    if r.Completed? { UploadFiled(cfg, s, t, sid, f, m); } else { UnfiledBooks(cfg, s, t, f); }
  }

  lemma Relinked(s: Store, t: Store, f: FileId)
    requires Linked(s) && f in t.files && t == s.(files := s.files[f := t.files[f]]) && ParentKnown(t, t.files[f])
    ensures Linked(t)
  {
    assert s.files.Keys <= t.files.Keys;
  }

  predicate ParentKnown(s: Store, row: FileRow) {
    row.parent.Some? ==> row.parent.value in s.files
  }

  /** A tree change sets at most one row, under a parent that exists. */
  ghost predicate OneRow(s: Store, t: Store, f: FileId) {
    t == s || (f in t.files && t == s.(files := s.files[f := t.files[f]])
               && (ParentKnown(s, t.files[f]) || (f in s.files && t.files[f].parent == s.files[f].parent)))
  }

  lemma TreeSets(s: Store, user: string, f: FileId, change: TreeOp)
    ensures OneRow(s, ChangeTree(s, user, f, change).0, f)
  {}

  lemma TreeLinked(s: Store, user: string, f: FileId, change: TreeOp)
    requires Linked(s)
    ensures var t := ChangeTree(s, user, f, change).0;
      && Linked(t) && t.chunks == s.chunks && t.blobs == s.blobs
      && t.sessions == s.sessions && t.manifests == s.manifests
  {
    TreeSets(s, user, f, change);
    OneRowLinked(s, ChangeTree(s, user, f, change).0, f);
  }

  lemma OneRowLinked(s: Store, t: Store, f: FileId)
    requires Linked(s) && OneRow(s, t, f)
    ensures Linked(t)
  {
    if t != s { Relinked(s, t, f); }
  }

  lemma TreeChanged(cfg: Config, s: Store, user: string, f: FileId, change: TreeOp)
    requires Sound(cfg, s)
    ensures Accounted(cfg, s, ChangeTree(s, user, f, change).0, NoLeak())
  {
    TreeLinked(s, user, f, change);
    SameBooks(cfg, s, ChangeTree(s, user, f, change).0);
  }

  lemma ChunkUploaded(cfg: Config, s: Store, user: string, sid: SessionId, index: int, length: int, body: Bytes,
                      now: Time)
    requires Sound(cfg, s)
    ensures Accounted(cfg, s, UploadChunk(cfg, s, user, sid, index, length, body, now).0, NoLeak())
  {
    if UploadRefusal(s, user, sid, index, length, body, now).Some? {
      SameBooks(cfg, s, s);
    } else {
      ChunkRecorded(cfg, s, sid, index, |Limited(body)|, Pieces(cfg.cut, Limited(body)), now);
    }
  }

  /** Conservation: every step keeps the invariants, and reference counts drift
      from the references held by exactly what the step leaks. */
  lemma StepAccounted(cfg: Config, s: Store, op: Op)
    requires Sound(cfg, s) && Pushed(s, op)
    ensures Accounted(cfg, s, Step(cfg, s, op).0, Leak(s, op))
  {
    match op
    case OpCreateUpload(user, sid, parent, name, size, now) =>
      var (t, r) := CreateUpload(s, user, sid, parent, name, size, now);
      if r.Created? { SessionCreated(cfg, s, t, sid, t.sessions[sid]); } else { SameBooks(cfg, s, s); }
    case OpUploadChunk(user, sid, index, length, body, now) =>
      ChunkUploaded(cfg, s, user, sid, index, length, body, now);
    case OpCompleteUpload(user, sid, f, m, now) => UploadCompleted(cfg, s, user, sid, f, m, now);
    case OpCancelUpload(user, sid) =>
      if sid in s.sessions && s.sessions[sid].user == user {
        SessionCancelled(cfg, s, sid);
      } else {
        SameBooks(cfg, s, s);
      }
    case OpCleanupExpired(now) => SessionsExpired(cfg, s, now);
    case OpDeleteFile(f) => FileDeleted(cfg, s, f);
    case OpPermanentDelete(user, f) =>
      if f in s.files && s.files[f].user == user { RowsRemoved(cfg, s, f); } else { SameBooks(cfg, s, s); }
    case OpCollectOrphans(olderThan) => NothingOrphaned(cfg, s, olderThan); SameBooks(cfg, s, s);
    case OpCollectOldVersions(cutoff) => VersionsCollected(cfg, s, cutoff);
    case OpPushChunk(h, data) => BlobPushed(cfg, s, h, data);
    case OpSyncAdd(_, _, _, _, _, _, _, _) => SyncAdded(cfg, s, op);
    case OpSyncModify(f, size, hashes, m, now) => SyncModified(cfg, s, f, size, hashes, m, now);
    case OpTree(user, f, change) => TreeChanged(cfg, s, user, f, change);
  }

  // --- When an upload is complete --------------------------------------------------------------

  function Present(chunks: map<nat, nat>, n: nat): set<nat> {
    set i | i in chunks && i < n
  }

  /** The missing list names exactly the absent indexes; with the present ones it
      makes up the whole range. */
  lemma {:induction false} MissingLaw(chunks: map<nat, nat>, n: nat)
    ensures forall i :: i in MissingBelow(chunks, n) <==> 0 <= i < n && i !in chunks
    ensures |MissingBelow(chunks, n)| + |Present(chunks, n)| == n
  {
    if n == 0 {
      assert Present(chunks, 0) == {};
    } else {
      MissingLaw(chunks, n - 1);
      var last: nat := n - 1;
      if last in chunks {
        assert Present(chunks, n) == Present(chunks, last) + {last};
      } else {
        assert Present(chunks, n) == Present(chunks, last);
      }
    }
  }

  /** Counting chunks decides completeness: a session is accepted for completion
      exactly when no index below its total is missing. */
  lemma CompletionTest(session: Session)
    requires SessionOk(session)
    ensures |session.chunks| >= session.total <==> MissingBelow(session.chunks, session.total) == []
    ensures |session.chunks| >= session.total <==> forall i :: 0 <= i < session.total ==> i in session.chunks
  {
    MissingLaw(session.chunks, session.total);
    assert Present(session.chunks, session.total) == session.chunks.Keys;
    assert |session.chunks| == |session.chunks.Keys|;
    if MissingBelow(session.chunks, session.total) != [] { HasMember(MissingBelow(session.chunks, session.total)); }
  }

  lemma HasMember<T>(s: seq<T>)
    requires s != []
    ensures exists x :: x in s
  {
    assert s[0] in s;
  }

  // --- Whole runs ------------------------------------------------------------------------------

  /** Everything leaked so far. */
  ghost function Leaked(cfg: Config, ops: seq<Op>, h: Hash): nat {
    if ops == [] then 0 else
      var before := ops[..|ops| - 1];
      Leaked(cfg, before, h) + Leak(Run(cfg, before), ops[|ops| - 1])(h)
  }

  lemma EmptySound(cfg: Config)
    ensures Sound(cfg, EMPTY) && forall h :: Slack(EMPTY, h) == 0
  {}

  /** In every reachable state each count is the number of references held by
      open sessions and live manifests, with multiplicity, plus those leaked. */
  lemma {:induction false} RunAccounted(cfg: Config, ops: seq<Op>)
    requires PushedRun(cfg, ops)
    ensures Sound(cfg, Run(cfg, ops))
    ensures forall h :: Count(Run(cfg, ops), h) == Held(Run(cfg, ops), h) + Leaked(cfg, ops, h)
  {
    if ops == [] {
      EmptySound(cfg);
      assert forall h :: Slack(EMPTY, h) == 0;
    } else {
      var before, op := ops[..|ops| - 1], ops[|ops| - 1];
      RunAccounted(cfg, before);
      var s := Run(cfg, before);
      StepAccounted(cfg, s, op);
      var t := Step(cfg, s, op).0;
      forall h ensures Count(t, h) == Held(t, h) + Leaked(cfg, ops, h) {
        assert Slack(t, h) == Slack(s, h) + Leak(s, op)(h);
        assert Count(s, h) == Held(s, h) + Leaked(cfg, before, h);
      }
    }
  }

  /** Blobs and chunk rows have the same keys. */
  ghost predicate Paired(s: Store) {
    s.blobs.Keys == s.chunks.Keys
  }

  lemma {:induction false} RetainPaired(sha: Bytes -> Hash, s: Store, pieces: seq<Bytes>, now: Time)
    requires Paired(s)
    ensures Paired(Retain(sha, s, pieces, now))
  {
    if pieces != [] { RetainPaired(sha, s, pieces[..|pieces| - 1], now); }
  }

  lemma ReleasePaired(s: Store, k: Bag)
    requires Paired(s)
    ensures Paired(Release(s, k))
  {}

  lemma {:induction false} EnsurePaired(s: Store, hashes: seq<Hash>, now: Time)
    requires Paired(s) && Backed(s) && forall h :: h in hashes ==> h in s.blobs
    ensures s.blobs.Keys == EnsureRefs(s.chunks, hashes, now).Keys
  {
    EnsureRefsLaw(s.chunks, hashes, now);
  }

  /** Every step but a bare push keeps blobs and rows paired. */
  lemma StepPaired(cfg: Config, s: Store, op: Op)
    requires Sound(cfg, s) && Pushed(s, op) && Paired(s) && !op.OpPushChunk?
    ensures Paired(Step(cfg, s, op).0)
  {
    match op
    case OpUploadChunk(user, sid, index, length, body, now) =>
      RetainPaired(cfg.sha, s, Pieces(cfg.cut, Limited(body)), now);
    case OpCancelUpload(user, sid) =>
      if sid in s.sessions { ReleasePaired(s.(sessions := s.sessions - {sid}), SessionBag(s.sessions[sid])); }
    case OpCleanupExpired(now) =>
      var expired := ExpiredSessions(s, now);
      ReleasePaired(s.(sessions := s.sessions - expired.Keys), SessionsBag(expired));
    case OpDeleteFile(f) => DeletePaired(s, f);
    case OpCollectOrphans(olderThan) => NothingOrphaned(cfg, s, olderThan);
    case OpSyncAdd(_, _, _, _, _, hashes, _, now) => SyncAddCases(s, op); EnsurePaired(s, hashes, now);
    case OpSyncModify(_, _, hashes, _, now) => EnsurePaired(s, hashes, now);
    case OpCompleteUpload(user, sid, f, m, now) => CompleteCases(s, user, sid, f, m, now);
    case OpTree(user, f, change) => TreeSets(s, user, f, change);
    case _ =>
  }

  lemma DeletePaired(s: Store, f: FileId)
    requires Paired(s)
    ensures Paired(DeleteFile(s, f).0)
  {
    if HasManifest(s, f) { ReleasePaired(s, ListBag(s.manifests[Latest(s, f)].chunks)); }
  }

  lemma {:induction false} RunPaired(cfg: Config, ops: seq<Op>)
    requires PushedRun(cfg, ops) && forall i :: 0 <= i < |ops| ==> !ops[i].OpPushChunk?
    ensures Paired(Run(cfg, ops))
  {
    if ops != [] {
      var before := ops[..|ops| - 1];
      RunPaired(cfg, before);
      RunAccounted(cfg, before);
      StepPaired(cfg, Run(cfg, before), ops[|ops| - 1]);
    }
  }
}
