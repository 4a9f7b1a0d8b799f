/** The handlers and collectors as they run: loops that update the tables in
    place, each proved to take the step of the model.  The class holds the
    sessions, the rows and the blobs as the server and its database do; its
    methods follow the server's, one statement after the other. */
module StoreHandlers {
  import opened Common
  import opened StoreModel
  import opened StoreAccounting
  import Chunker

  /** One reference to h. */
  ghost function One(h: Hash): Bag {
    (x: Hash) => if x == h then 1 else 0
  }

  /** Releasing one more reference after a bag of them. */
  lemma ReleaseSnoc(s: Store, k: Bag, h: Hash, k': Bag)
    requires forall x :: k'(x) == k(x) + One(h)(x)
    ensures Release(Release(s, k), One(h)) == Release(s, k')
  {
    ReleaseTwice(s, k, One(h), k');
  }

  lemma ListBagSnoc(hashes: seq<Hash>, i: nat)
    requires i < |hashes|
    ensures forall x :: ListBag(hashes[..i + 1])(x) == ListBag(hashes[..i])(x) + One(hashes[i])(x)
  {
    assert hashes[..i + 1] == hashes[..i] + [hashes[i]];
  }

  /** Two bags released one after the other. */
  lemma ReleaseTwice(s: Store, j: Bag, k: Bag, all: Bag)
    requires forall x :: all(x) == j(x) + k(x)
    ensures Release(Release(s, j), k) == Release(s, all)
  {
    ReleaseTwiceKeys(s, j, k, all);
    assert Release(Release(s, j), k).chunks == Release(s, all).chunks;
    assert Release(Release(s, j), k).blobs == Release(s, all).blobs;
  }

  lemma ReleaseTwiceKeys(s: Store, j: Bag, k: Bag, all: Bag)
    requires forall x :: all(x) == j(x) + k(x)
    ensures forall h :: StoreModel.Dropped(s.chunks, all, h) <==>
              StoreModel.Dropped(s.chunks, j, h) || StoreModel.Dropped(Release(s, j).chunks, k, h)
  {}

  class ContentStore {
    const c: Chunker.Chunker
    const sha: Bytes -> Hash
    var sessions: map<SessionId, Session>
    var files: map<FileId, FileRow>
    var manifests: map<ManifestId, Manifest>
    var chunks: map<Hash, ChunkRow>
    var blobs: map<Hash, Bytes>

    ghost function State(): Store
      reads this
    {
      Store(sessions, files, manifests, chunks, blobs)
    }

    ghost function Cfg(): Config
      requires c.Valid()
    {
      Config(sha, c.Cut())
    }

    constructor (c: Chunker.Chunker, sha: Bytes -> Hash)
      ensures State() == EMPTY && this.c == c && this.sha == sha
    {
      this.c, this.sha := c, sha;
      sessions, files, manifests, chunks, blobs := map[], map[], map[], map[], map[];
    }

    // --- The chunk table (internal/db/chunks.go) --------------------------------

    method CreateChunk(h: Hash, row: ChunkRow) returns (ok: bool)
      modifies this`chunks
      ensures ok <==> h !in old(chunks)
      ensures chunks == if ok then old(chunks)[h := row] else old(chunks)
    {
      ok := h !in chunks;
      if ok { chunks := chunks[h := row]; }
    }

    method IncrementRefCount(h: Hash) returns (ok: bool)
      modifies this`chunks
      ensures ok <==> h in old(chunks)
      ensures chunks == if ok then old(chunks)[h := old(chunks)[h].(refs := old(chunks)[h].refs + 1)] else old(chunks)
    {
      ok := h in chunks;
      if ok { chunks := chunks[h := chunks[h].(refs := chunks[h].refs + 1)]; }
    }

    /** Never below zero: a row without references is reported as missing. */
    method DecrementRefCount(h: Hash) returns (ok: bool)
      modifies this`chunks
      ensures ok <==> h in old(chunks) && old(chunks)[h].refs > 0
      ensures chunks == if ok then old(chunks)[h := old(chunks)[h].(refs := old(chunks)[h].refs - 1)] else old(chunks)
    {
      ok := h in chunks && chunks[h].refs > 0;
      if ok { chunks := chunks[h := chunks[h].(refs := chunks[h].refs - 1)]; }
    }

    method DeleteChunk(h: Hash) returns (ok: bool)
      modifies this`chunks
      ensures ok <==> h in old(chunks)
      ensures chunks == old(chunks) - {h}
    {
      ok := h in chunks;
      chunks := chunks - {h};
    }

    /** The cancel handler's release: it looks the count up before it decrements. */
    method ReleaseLookingFirst(h: Hash)
      modifies this`chunks, this`blobs
      ensures State() == Release(old(State()), One(h))
    {
      if h in chunks {
        var before := chunks[h].refs;
        var ok := DecrementRefCount(h);
        if ok && before <= 1 {
          blobs := blobs - {h};
          var _ := DeleteChunk(h);
        }
      }
      ReleaseOneIs(old(State()), h, State());
    }

    /** The expiry loop's and the collector's release: it decrements, then looks. */
    method ReleaseLookingAfter(h: Hash)
      modifies this`chunks, this`blobs
      ensures State() == Release(old(State()), One(h))
    {
      var ok := DecrementRefCount(h);
      if ok && chunks[h].refs <= 0 {
        blobs := blobs - {h};
        var _ := DeleteChunk(h);
      }
      ReleaseOneIs(old(State()), h, State());
    }

    // --- Upload handlers (internal/server/handlers_upload.go) ---------------------

    method CreateUpload(user: string, sid: SessionId, parent: Option<FileId>, name: string, size: int, now: Time)
      returns (r: Response)
      modifies this`sessions
      ensures (State(), r) == StoreModel.CreateUpload(old(State()), user, sid, parent, name, size, now)
    {
      if name == "" { return BadRequest; }
      if size <= 0 { return BadRequest; }
      if size > MAX_UPLOAD_SIZE { return BadRequest; }
      var totalChunks := (size + CHUNK_SIZE - 1) / CHUNK_SIZE;
      var session := Session(user, parent, name, size, now + SESSION_TTL, totalChunks, map[], map[], Pending);
      sessions := sessions[sid := session];
      r := Created(totalChunks);
    }

    /** Deduplicates and stores the pieces of one uploaded chunk. */
    method StorePieces(pieces: seq<Bytes>, now: Time) returns (hashes: seq<Hash>)
      modifies this`chunks, this`blobs
      ensures State() == Retain(sha, old(State()), pieces, now)
      ensures hashes == Map(sha, pieces)
    {
      hashes := [];
      for i := 0 to |pieces|
        invariant State() == Retain(sha, old(State()), pieces[..i], now)
        invariant hashes == Map(sha, pieces[..i])
      {
        var h := sha(pieces[i]);
        hashes := hashes + [h];
        assert pieces[..i + 1][..i] == pieces[..i];
        if h in chunks {
          var _ := IncrementRefCount(h);
        } else {
          blobs := blobs[h := pieces[i]];
          var _ := CreateChunk(h, ChunkRow(|pieces[i]|, 1, now));
        }
      }
      assert pieces[..|pieces|] == pieces;
    }

    method UploadChunk(user: string, sid: SessionId, index: int, length: int, body: Bytes, now: Time)
      returns (r: Response)
      requires c.Usable()
      modifies this`sessions, this`chunks, this`blobs
      ensures (State(), r) == StoreModel.UploadChunk(Cfg(), old(State()), user, sid, index, length, body, now)
    {
      if index < 0 { return BadRequest; }
      if sid !in sessions { return NotFound; }
      var session := sessions[sid];
      if session.user != user { return Forbidden; }
      if now > session.expiresAt { return Gone; }
      if index >= session.total { return BadRequest; }
      if index in session.chunks { return AlreadyUploaded; }
      if length > MAX_CHUNK_SIZE { return BadRequest; }
      if length <= 0 { return BadRequest; }
      var data := Limited(body);
      if |data| == 0 { return BadRequest; }
      var result := Chunker.ChunkWithData(c, sha, Chunker.Reader([data], false));
      assert Flatten([data]) == data + Flatten([]) == data;
      var hashes := StorePieces(result.value.1, now);
      sessions := sessions[sid := RecordChunk(session, index, |data|, hashes)];
      r := Uploaded(hashes);
    }

    method GetMissingChunks(session: Session) returns (missing: seq<nat>)
      ensures missing == MissingBelow(session.chunks, session.total)
    {
      missing := [];
      for i := 0 to session.total
        invariant missing == MissingBelow(session.chunks, i)
      {
        if i !in session.chunks { missing := missing + [i]; }
      }
    }

    /** The file table's insert. */
    method InsertFile(f: FileId, row: FileRow) returns (ok: bool)
      modifies this`files
      ensures ok == FileAdmissible(old(State()), f, row)
      ensures files == if ok then old(files)[f := row] else old(files)
    {
      ok := FileAdmissible(Store(sessions, files, manifests, chunks, blobs), f, row);
      if ok { files := files[f := row]; }
    }

    method InsertManifest(m: ManifestId, row: Manifest) returns (ok: bool)
      modifies this`manifests
      ensures ok == ManifestAdmissible(old(State()), m, row)
      ensures manifests == if ok then old(manifests)[m := row] else old(manifests)
    {
      ok := ManifestAdmissible(Store(sessions, files, manifests, chunks, blobs), m, row);
      if ok { manifests := manifests[m := row]; }
    }

    method CompleteUpload(user: string, sid: SessionId, f: FileId, m: ManifestId, now: Time) returns (r: Response)
      modifies this`sessions, this`files, this`manifests
      ensures (State(), r) == StoreModel.CompleteUpload(old(State()), user, sid, f, m, now)
    {
      if sid !in sessions { return NotFound; }
      var session := sessions[sid];
      if session.user != user { return Forbidden; }
      if |session.chunks| < session.total {
        var missing := GetMissingChunks(session);
        return Missing(missing);
      }
      if !ValidName(session.name) { return BadRequest; }
      var s := Store(sessions, files, manifests, chunks, blobs);
      if NameTaken(s, user, session.parent, session.name) { return Conflict; }
      var row := FileRow(user, session.parent, session.name, FileKind, session.size, None, None, 1);
      var created := InsertFile(f, row);
      if !created { return ServerError; }
      var allChunkHashes: seq<Hash> := [];
      for i := 0 to session.total
        invariant allChunkHashes == Gather(session.chunkHashes, i)
      {
        if i in session.chunkHashes { allChunkHashes := allChunkHashes + session.chunkHashes[i]; }
      }
      var inserted := InsertManifest(m, Manifest(f, 1, session.size, allChunkHashes, now));
      if !inserted {
        files := files[f := row.(trashedAt := Some(now))];
        return ServerError;
      }
      files := files[f := row.(manifest := Some(m))];
      sessions := sessions - {sid};
      r := Completed(f);
    }

    method CancelUpload(user: string, sid: SessionId) returns (r: Response)
      modifies this`sessions, this`chunks, this`blobs
      ensures (State(), r) == StoreModel.CancelUpload(old(State()), user, sid)
    {
      if sid !in sessions { return NotFound; }
      var session := sessions[sid];
      if session.user != user { return Forbidden; }
      sessions := sessions - {sid};
      ghost var s := State();
      var chunkHashes := AllHashes(session);
      for i := 0 to |chunkHashes|
        invariant State() == Release(s, ListBag(chunkHashes[..i]))
      {
        ListBagSnoc(chunkHashes, i);
        ReleaseSnoc(s, ListBag(chunkHashes[..i]), chunkHashes[i], ListBag(chunkHashes[..i + 1]));
        ReleaseLookingFirst(chunkHashes[i]);
      }
      assert chunkHashes[..|chunkHashes|] == chunkHashes;
      ReleaseExt(s, ListBag(chunkHashes), SessionBag(session));
      r := Done;
    }

    /** Releases everything one session holds, in whatever order its table is
        walked. */
    method ReleaseSession(session: Session)
      modifies this`chunks, this`blobs
      ensures State() == Release(old(State()), SessionBag(session))
    {
      ghost var s := State();
      var todo: map<nat, seq<Hash>> := session.chunkHashes;
      ghost var done: Bag := NoLeak();
      ReleaseNothing(s);
      while |todo| > 0
        invariant State() == Release(s, done)
        invariant forall h :: done(h) + Total<nat, seq<Hash>>(todo, Occurs(h)) == SessionTally(session, h)
        decreases |todo|
      {
        var i: nat :| i in todo;
        var hashes := todo[i];
        ReleaseList(hashes);
        ghost var more := Plus(done, ListBag(hashes));
        ReleaseTwice(s, done, ListBag(hashes), more);
        ListDone(session, todo, i, done, more);
        done := more;
        todo := todo - {i};
      }
      ReleaseExt(s, done, SessionBag(session));
    }

    method ReleaseList(hashes: seq<Hash>)
      modifies this`chunks, this`blobs
      ensures State() == Release(old(State()), ListBag(hashes))
    {
      ghost var s := State();
      ReleaseNothing(s);
      ReleaseExt(s, NoLeak(), ListBag(hashes[..0]));
      for i := 0 to |hashes|
        invariant State() == Release(s, ListBag(hashes[..i]))
      {
        ListBagSnoc(hashes, i);
        ReleaseSnoc(s, ListBag(hashes[..i]), hashes[i], ListBag(hashes[..i + 1]));
        ReleaseLookingAfter(hashes[i]);
      }
      assert hashes[..|hashes|] == hashes;
    }

    /** Releases and drops one expired session; s and done say which went before. */
    method ExpireSession(sid: SessionId, session: Session, ghost s: Store, ghost done: map<SessionId, Session>)
      requires sid !in done && sid in s.sessions && State() == WithoutSessions(s, done)
      modifies this`sessions, this`chunks, this`blobs
      ensures State() == WithoutSessions(s, done[sid := session])
    {
      SessionDone(s, done, sid, session);
      ReleaseSession(session);
      sessions := sessions - {sid};
    }

    method ExpireIfDue(sid: SessionId, session: Session, now: Time, ghost s: Store, ghost done: map<SessionId, Session>)
      returns (ghost more: map<SessionId, Session>)
      requires sid !in done && sid in s.sessions && State() == WithoutSessions(s, done)
      modifies this`sessions, this`chunks, this`blobs
      ensures more == (if now > session.expiresAt then done[sid := session] else done)
      ensures State() == WithoutSessions(s, more)
    {
      more := done;
      if now > session.expiresAt {
        ExpireSession(sid, session, s, done);
        more := done[sid := session];
      }
    }

    /** One tick of the expiry loop. */
    method CleanupExpiredSessions(now: Time)
      modifies this`sessions, this`chunks, this`blobs
      ensures State() == CleanupExpired(old(State()), now)
    {
      ghost var s := State();
      var todo := sessions;
      ghost var done: map<SessionId, Session> := map[];
      NoneWalked(s);
      while |todo| > 0
        invariant Walked(s.sessions, todo, done, now)
        invariant State() == WithoutSessions(s, done)
        decreases |todo|
      {
        var sid :| sid in todo;
        WalkOne(s, todo, done, sid, now);
        done := ExpireIfDue(sid, todo[sid], now, s, done);
        todo := todo - {sid};
      }
      AllWalked(s, todo, done, now);
    }

    // --- Collectors (internal/worker/gc.go) ------------------------------------------

    method GetLatestManifest(f: FileId) returns (m: Option<ManifestId>)
      ensures m.Some? ==> IsLatest(State(), f, m.value)
      ensures m.None? <==> !HasManifest(State(), f)
    {
      m := None;
      var todo := manifests.Keys;
      while todo != {}
        invariant todo <= manifests.Keys
        invariant m.Some? ==> m.value in manifests && manifests[m.value].file == f
        invariant forall n :: n in manifests && n !in todo && manifests[n].file == f ==>
                    m.Some? && manifests[n].version <= manifests[m.value].version
        decreases todo
      {
        var n :| n in todo;
        todo := todo - {n};
        if manifests[n].file == f && (m.None? || manifests[n].version > manifests[m.value].version) {
          m := Some(n);
        }
      }
    }

    /** Permanent deletion; the cascade over rows is the database's. */
    method DeleteFile(f: FileId) returns (r: Response)
      requires UniqueVersions(State())
      modifies this`files, this`manifests, this`chunks, this`blobs
      ensures (State(), r) == StoreModel.DeleteFile(old(State()), f)
    {
      var m := GetLatestManifest(f);
      if m.Some? {
        assert m.value == Latest(State(), f);
        ReleaseList(manifests[m.value].chunks);
      }
      if f in files {
        var doomed := Cascade(files, {f});
        files := files - doomed;
        manifests := map n | n in manifests && manifests[n].file !in doomed :: manifests[n];
      }
      r := if m.Some? then Done else NotFound;
    }

    /** The trash collector over the rows its query returned, in any order.  A
        folder is deleted but not counted, since it has no manifest.  What goes is
        the old trash and everything below it. */
    method CollectTrash(rows: seq<FileId>, cutoff: Time) returns (collected: nat)
      requires UniqueVersions(State()) && IsTrash(State(), cutoff, rows)
      modifies this`files, this`manifests, this`chunks, this`blobs
      ensures State() == DeleteAll(old(State()), rows)
      ensures files == old(files) - Cascade(old(files), OldTrash(old(State()), cutoff))
      ensures collected == CountDeleted(old(State()), rows)
    {
      collected := 0;
      for i := 0 to |rows|
        invariant State() == DeleteAll(old(State()), rows[..i]) && UniqueVersions(State())
        invariant collected == CountDeleted(old(State()), rows[..i])
      {
        assert rows[..i + 1][..i] == rows[..i];
        DeleteKeepsUnique(State(), rows[i]);
        var r := DeleteFile(rows[i]);
        if r.Done? { collected := collected + 1; }
      }
      assert rows[..|rows|] == rows;
      TrashGone(old(State()), cutoff, rows);
    }

    /** One orphan: an old enough one goes with its blob, unless the blob is gone. */
    method SweepChunk(h: Hash, olderThan: Option<Time>) returns (size: Option<nat>)
      requires h in chunks
      modifies this`chunks, this`blobs
      ensures var row := old(chunks)[h];
        size == if olderThan.Some? && row.createdAt <= olderThan.value && h in old(blobs) then Some(row.size) else None
      ensures State() == if size.Some? then WithoutChunk(old(State()), h) else old(State())
    {
      var row := chunks[h];
      if olderThan.None? || row.createdAt > olderThan.value || h !in blobs { return None; }
      blobs := blobs - {h};
      chunks := chunks - {h};
      size := Some(row.size);
    }

    /** The orphan collector over the rows its query returned: the unreferenced
        chunks, each once. */
    method CollectOrphanedChunks(rows: seq<Hash>, olderThan: Option<Time>) returns (collected: nat, freed: nat)
      requires IsOrphanList(State(), rows)
      modifies this`chunks, this`blobs
      ensures State() == CollectOrphans(old(State()), olderThan)
      ensures Freed(old(chunks), chunks, collected, freed)
    {
      ghost var s := State();
      ghost var gone: set<Hash> := {};
      collected, freed := 0, 0;
      SweepingStarts(s, olderThan, rows);
      for i := 0 to |rows|
        invariant Sweeping(s, State(), olderThan, rows, i, gone, collected, freed)
      {
        ghost var t := State();
        SweepingHere(s, t, olderThan, rows, i, gone, collected, freed);
        var size := SweepChunk(rows[i], olderThan);
        SweepingNext(s, t, olderThan, rows, i, gone, collected, freed, size);
        if size.Some? {
          collected := collected + 1;
          freed := freed + size.value;
          gone := gone + {rows[i]};
        }
      }
      SweptAll(s, olderThan, rows, gone);
    }

    /** Counts one listed manifest for its file, and drops it when enough newer ones
        have been counted. */
    method CountVersion(fileVersions: map<FileId, nat>, m: ManifestId) returns (counted: map<FileId, nat>, tooOld: bool)
      requires m in manifests
      modifies this`manifests
      ensures var f := old(manifests)[m].file;
        counted == fileVersions[f := (if f in fileVersions then fileVersions[f] else 0) + 1]
        && tooOld == (counted[f] > KEPT_VERSIONS)
      ensures State() == if tooOld then WithoutManifest(old(State()), m) else old(State())
    {
      var f := manifests[m].file;
      counted := fileVersions[f := (if f in fileVersions then fileVersions[f] else 0) + 1];
      tooOld := counted[f] > KEPT_VERSIONS;
      if tooOld { manifests := manifests - {m}; }
    }

    /** The version collector over the rows its query returned: the manifests older
        than the cutoff, each file's in descending version order. */
    method CollectOldVersions(rows: seq<ManifestId>, cutoff: Time) returns (collected: nat)
      requires IsListing(State(), cutoff, rows)
      modifies this`manifests
      ensures State() == StoreModel.CollectOldVersions(old(State()), cutoff)
      ensures Fewer(old(manifests), manifests, collected)
    {
      ghost var s := State();
      ghost var gone: set<ManifestId> := {};
      CollectingStarts(s, cutoff, rows);
      var fileVersions: map<FileId, nat> := map[];
      collected := 0;
      for i := 0 to |rows|
        invariant Collecting(s, State(), cutoff, rows, i, gone, fileVersions, collected)
      {
        ghost var t, counts := State(), fileVersions;
        CollectingListed(s, t, cutoff, rows, i, gone, counts, collected);
        var tooOld: bool;
        fileVersions, tooOld := CountVersion(fileVersions, rows[i]);
        CollectingNext(s, t, cutoff, rows, i, gone, counts, collected, tooOld);
        if tooOld {
          gone := gone + {rows[i]};
          collected := collected + 1;
        }
      }
      OldAreListed(s, cutoff, rows, gone);
    }

    /** The trash handler's permanent deletion. */
    method PermanentDelete(user: string, f: FileId) returns (r: Response)
      modifies this`files, this`manifests
      ensures (State(), r) == StoreModel.PermanentDelete(old(State()), user, f)
    {
      if f !in files { return NotFound; }
      if files[f].user != user { return Forbidden; }
      var doomed := Cascade(files, {f});
      files := files - doomed;
      manifests := map n | n in manifests && manifests[n].file !in doomed :: manifests[n];
      r := Done;
    }

    // --- Sync (internal/sync/engine.go) -------------------------------------------------

    /** The push handler (internal/server/handlers_sync.go). */
    method Push(h: Hash, data: Bytes) returns (r: Response)
      modifies this`blobs
      ensures (State(), r) == PushChunk(sha, old(State()), h, data)
    {
      if h == "" { return BadRequest; }
      if sha(data) != h { return BadRequest; }
      blobs := blobs[h := data];
      r := Done;
    }

    method EnsureChunkRefs(hashes: seq<Hash>, now: Time)
      modifies this`chunks
      ensures chunks == EnsureRefs(old(chunks), hashes, now)
    {
      for i := 0 to |hashes|
        invariant chunks == EnsureRefs(old(chunks), hashes[..i], now)
      {
        assert hashes[..i + 1][..i] == hashes[..i];
        if hashes[i] in chunks {
          var _ := IncrementRefCount(hashes[i]);
        } else {
          var _ := CreateChunk(hashes[i], ChunkRow(0, 1, now));
        }
      }
      assert hashes[..|hashes|] == hashes;
    }

    method ApplyAdd(user: string, f: FileId, parent: Option<FileId>, name: string, size: int,
                    hashes: seq<Hash>, m: ManifestId, now: Time) returns (r: Response)
      modifies this`files, this`manifests, this`chunks
      ensures (State(), r) == SyncAdd(old(State()), user, f, parent, name, size, hashes, m, now)
    {
      var row := FileRow(user, parent, name, FileKind, size, None, None, 1);
      var created := InsertFile(f, row);
      if !created { return ServerError; }
      if |hashes| > 0 {
        var inserted := InsertManifest(m, Manifest(f, 1, size, hashes, now));
        if !inserted { return ServerError; }
        files := files[f := row.(manifest := Some(m))];
        EnsureChunkRefs(hashes, now);
      }
      r := Done;
    }

    method ApplyModify(f: FileId, size: int, hashes: seq<Hash>, m: ManifestId, now: Time) returns (r: Response)
      modifies this`files, this`manifests, this`chunks
      ensures (State(), r) == SyncModify(old(State()), f, size, hashes, m, now)
    {
      if f !in files || files[f].trashedAt.Some? { return NotFound; }
      var newVersion := files[f].version + 1;
      var inserted := InsertManifest(m, Manifest(f, newVersion, size, hashes, now));
      if !inserted { return ServerError; }
      files := files[f := files[f].(manifest := Some(m), size := size, version := newVersion)];
      EnsureChunkRefs(hashes, now);
      r := Done;
    }
  }

  // --- Lemmas behind the loops ---------------------------------------------------------------

  ghost function Plus(j: Bag, k: Bag): Bag {
    (h: Hash) => j(h) + k(h)
  }

  /** What it means for t to be s with one reference to h released. */
  lemma ReleaseOneIs(s: Store, h: Hash, t: Store)
    requires t.sessions == s.sessions && t.files == s.files && t.manifests == s.manifests
    requires t.chunks == (if h in s.chunks && s.chunks[h].refs == 1 then s.chunks - {h}
                          else if h in s.chunks && s.chunks[h].refs > 1
                          then s.chunks[h := s.chunks[h].(refs := s.chunks[h].refs - 1)]
                          else s.chunks)
    requires t.blobs == if h in s.chunks && s.chunks[h].refs == 1 then s.blobs - {h} else s.blobs
    ensures t == Release(s, One(h))
  {
    assert t.chunks == Release(s, One(h)).chunks;
    assert t.blobs == Release(s, One(h)).blobs;
  }

  /** All hashes of a session, in the order its table happens to be walked. */
  method AllHashes(session: Session) returns (hashes: seq<Hash>)
    ensures forall h :: ListBag(hashes)(h) == SessionBag(session)(h)
  {
    hashes := [];
    var todo: map<nat, seq<Hash>> := session.chunkHashes;
    while |todo| > 0
      invariant forall h :: multiset(hashes)[h] + Total<nat, seq<Hash>>(todo, Occurs(h)) == SessionTally(session, h)
      decreases |todo|
    {
      var i: nat :| i in todo;
      forall h
        ensures Total<nat, seq<Hash>>(todo, Occurs(h))
          == multiset(todo[i])[h] + Total<nat, seq<Hash>>(todo - {i}, Occurs(h))
      {
        TotalRemove<nat, seq<Hash>>(todo, Occurs(h), i);
      }
      hashes := hashes + todo[i];
      todo := todo - {i};
    }
  }

  lemma ListDone(session: Session, todo: map<nat, seq<Hash>>, i: nat, done: Bag, more: Bag)
    requires i in todo && more == Plus(done, ListBag(todo[i]))
    requires forall h :: done(h) + Total<nat, seq<Hash>>(todo, Occurs(h)) == SessionTally(session, h)
    ensures forall h :: more(h) + Total<nat, seq<Hash>>(todo - {i}, Occurs(h)) == SessionTally(session, h)
  {
    forall h ensures more(h) + Total<nat, seq<Hash>>(todo - {i}, Occurs(h)) == SessionTally(session, h) {
      TotalRemove<nat, seq<Hash>>(todo, Occurs(h), i);
    }
  }

  /** Some sessions walked: `done` are the expired ones among them. */
  ghost predicate Walked(all: map<SessionId, Session>, todo: map<SessionId, Session>, done: map<SessionId, Session>,
                         now: Time)
  {
    && (forall k :: k in todo ==> k in all && todo[k] == all[k])
    && (forall k :: k in done <==> k in all && k !in todo && now > all[k].expiresAt)
    && (forall k :: k in done ==> done[k] == all[k])
  }

  /** A store with some sessions released and dropped. */
  ghost function WithoutSessions(s: Store, done: map<SessionId, Session>): Store {
    Release(s, SessionsBag(done)).(sessions := s.sessions - done.Keys)
  }

  lemma BagWithSession(done: map<SessionId, Session>, sid: SessionId, session: Session, h: Hash)
    requires sid !in done
    ensures SessionsBag(done[sid := session])(h) == SessionsBag(done)(h) + SessionBag(session)(h)
  {
    TotalSet(done, SessionWeight(h), sid, session);
    RemoveAbsent(done, sid);
  }

  /** Releasing does not look at the sessions. */
  lemma ReleaseIgnoresSessions(s: Store, rest: map<SessionId, Session>, k: Bag)
    ensures Release(s.(sessions := rest), k) == Release(s, k).(sessions := rest)
  {}

  lemma NoneWalked(s: Store)
    ensures s == WithoutSessions(s, map[])
  {
    ReleaseNothing(s);
    ReleaseExt(s, NoLeak(), SessionsBag(map[]));
  }

  lemma AllWalked(s: Store, todo: map<SessionId, Session>, done: map<SessionId, Session>, now: Time)
    requires |todo| == 0 && Walked(s.sessions, todo, done, now)
    ensures WithoutSessions(s, done) == CleanupExpired(s, now)
  {
    WalkedExpired(s, todo, done, now);
    ReleaseIgnoresSessions(s, s.sessions - done.Keys, SessionsBag(done));
  }

  lemma WalkedExpired(s: Store, todo: map<SessionId, Session>, done: map<SessionId, Session>, now: Time)
    requires |todo| == 0 && Walked(s.sessions, todo, done, now)
    ensures done == ExpiredSessions(s, now)
  {}

  /** Walking one session: if it has expired it is released and dropped. */
  lemma WalkOne(s: Store, todo: map<SessionId, Session>, done: map<SessionId, Session>, sid: SessionId, now: Time)
    requires Walked(s.sessions, todo, done, now) && sid in todo
    ensures var more := if now > todo[sid].expiresAt then done[sid := todo[sid]] else done;
            Walked(s.sessions, todo - {sid}, more, now)
  {}

  /** One more session released and dropped. */
  lemma SessionDone(s: Store, done: map<SessionId, Session>, sid: SessionId, session: Session)
    requires sid !in done && sid in s.sessions
    ensures var t := Release(WithoutSessions(s, done), SessionBag(session));
            t.(sessions := t.sessions - {sid}) == WithoutSessions(s, done[sid := session])
  {
    forall h ensures SessionsBag(done[sid := session])(h) == SessionsBag(done)(h) + SessionBag(session)(h) {
      BagWithSession(done, sid, session, h);
    }
    ReleaseTwice(s, SessionsBag(done), SessionBag(session), SessionsBag(done[sid := session]));
    ReleaseIgnoresSessions(Release(s, SessionsBag(done)), s.sessions - done.Keys, SessionBag(session));
    DropOneMore(s.sessions, done, sid, session);
  }

  lemma DropOneMore(sessions: map<SessionId, Session>, done: map<SessionId, Session>, sid: SessionId, session: Session)
    ensures sessions - done.Keys - {sid} == sessions - done[sid := session].Keys
  {}

  /** The unique key on (file, version). */
  ghost predicate UniqueVersions(s: Store) {
    forall m, n :: m in s.manifests && n in s.manifests && m != n && s.manifests[m].file == s.manifests[n].file
      ==> s.manifests[m].version != s.manifests[n].version
  }

  /** The orphans among the first i rows. */
  ghost predicate Swept(orphans: set<Hash>, rows: seq<Hash>, i: nat, gone: set<Hash>)
    requires i <= |rows|
  {
    forall h :: h in gone <==> h in orphans && h in rows[..i]
  }

  /** The answer to the orphan query: the unreferenced chunks, each once. */
  ghost predicate IsOrphanList(s: Store, rows: seq<Hash>) {
    && (forall h :: h in rows <==> h in s.chunks && s.chunks[h].refs == 0)
    && (forall i, j :: 0 <= i < j < |rows| ==> rows[i] != rows[j])
  }

  ghost function WithoutChunk(s: Store, h: Hash): Store {
    s.(chunks := s.chunks - {h}, blobs := s.blobs - {h})
  }

  /** The state of the sweep after i rows of the list. */
  ghost predicate Sweeping(s: Store, t: Store, olderThan: Option<Time>, rows: seq<Hash>, i: nat, gone: set<Hash>,
                           collected: nat, freed: nat)
    requires i <= |rows|
  {
    && t == s.(chunks := s.chunks - gone, blobs := s.blobs - gone)
    && Swept(Orphans(s, olderThan), rows, i, gone)
    && Freed(s.chunks, t.chunks, collected, freed)
  }

  lemma SweepingStarts(s: Store, olderThan: Option<Time>, rows: seq<Hash>)
    ensures Sweeping(s, s, olderThan, rows, 0, {}, 0, 0)
  {
    assert s.chunks - {} == s.chunks && s.blobs - {} == s.blobs;
  }

  lemma SweepingHere(s: Store, t: Store, olderThan: Option<Time>, rows: seq<Hash>, i: nat, gone: set<Hash>,
                     collected: nat, freed: nat)
    requires IsOrphanList(s, rows) && i < |rows| && Sweeping(s, t, olderThan, rows, i, gone, collected, freed)
    ensures rows[i] in t.chunks && t.chunks[rows[i]].refs == 0
  {
    SweptNext(s, olderThan, rows, i, gone);
  }

  lemma SweepingNext(s: Store, t: Store, olderThan: Option<Time>, rows: seq<Hash>, i: nat, gone: set<Hash>,
                     collected: nat, freed: nat, size: Option<nat>)
    requires IsOrphanList(s, rows) && i < |rows| && Sweeping(s, t, olderThan, rows, i, gone, collected, freed)
    requires rows[i] in t.chunks
    requires var row := t.chunks[rows[i]];
      size == if olderThan.Some? && row.createdAt <= olderThan.value && rows[i] in t.blobs then Some(row.size) else None
    ensures if size.Some?
            then Sweeping(s, WithoutChunk(t, rows[i]), olderThan, rows, i + 1, gone + {rows[i]}, collected + 1,
                          freed + size.value)
            else Sweeping(s, t, olderThan, rows, i + 1, gone, collected, freed)
  {
    SweptNext(s, olderThan, rows, i, gone);
    if size.Some? {
      RowGone(s.chunks, t.chunks, rows[i], collected, freed);
      GoneMore(s.chunks, gone, rows[i]);
      GoneMore(s.blobs, gone, rows[i]);
      assert rows[i] in Orphans(s, olderThan);
    } else {
      assert rows[i] !in Orphans(s, olderThan);
    }
  }

  lemma SweptNext(s: Store, olderThan: Option<Time>, rows: seq<Hash>, i: nat, gone: set<Hash>)
    requires IsOrphanList(s, rows) && i < |rows| && Swept(Orphans(s, olderThan), rows, i, gone)
    ensures rows[i] !in gone && rows[i] in s.chunks && s.chunks[rows[i]].refs == 0
    ensures var orphan := rows[i] in Orphans(s, olderThan);
      Swept(Orphans(s, olderThan), rows, i + 1, if orphan then gone + {rows[i]} else gone)
  {
    assert rows[..i + 1] == rows[..i] + [rows[i]];
    assert rows[i] in rows;
  }

  function RowSize(): ChunkRow -> nat { (row: ChunkRow) => row.size }

  /** How many rows went, and their sizes together. */
  ghost predicate Freed(all: map<Hash, ChunkRow>, left: map<Hash, ChunkRow>, collected: nat, freed: nat) {
    collected == |all| - |left| && freed == Total(all, RowSize()) - Total(left, RowSize())
  }

  lemma RowGone(all: map<Hash, ChunkRow>, left: map<Hash, ChunkRow>, h: Hash, collected: nat, freed: nat)
    requires h in left && Freed(all, left, collected, freed)
    ensures Freed(all, left - {h}, collected + 1, freed + left[h].size)
  {
    TotalRemove(left, RowSize(), h);
    OneFewer(left, h);
  }

  lemma GoneMore<K, V>(m: map<K, V>, gone: set<K>, k: K)
    ensures m - gone - {k} == m - (gone + {k})
  {}

  lemma OneFewer<K, V>(m: map<K, V>, k: K)
    requires k in m
    ensures |m - {k}| == |m| - 1
  {
    assert (m - {k}).Keys == m.Keys - {k};
    assert |(m - {k}).Keys| == |m - {k}| && |m.Keys| == |m|;
  }

  lemma SweptAll(s: Store, olderThan: Option<Time>, rows: seq<Hash>, gone: set<Hash>)
    requires IsOrphanList(s, rows) && Swept(Orphans(s, olderThan), rows, |rows|, gone)
    ensures gone == Orphans(s, olderThan)
  {
    assert rows[..|rows|] == rows;
  }

  /** The files trashed before a moment. */
  ghost function OldTrash(s: Store, cutoff: Time): set<FileId> {
    set f | f in s.files && s.files[f].trashedAt.Some? && s.files[f].trashedAt.value < cutoff
  }

  /** A query result: these files in some order. */
  ghost predicate IsTrash(s: Store, cutoff: Time, rows: seq<FileId>) {
    forall f :: f in rows <==> f in OldTrash(s, cutoff)
  }

  /** Deleting one more closed set of rows from what a deletion left. */
  lemma CascadeTwice(files: map<FileId, FileRow>, first: set<FileId>, f: FileId)
    requires f in files
    ensures var rest := files - Cascade(files, first);
      Cascade(files, first + {f}) ==
      Cascade(files, first) + if f in rest then Cascade(rest, {f}) else {}
  {
    var gone := Cascade(files, first);
    var rest := files - gone;
    var more := if f in rest then Cascade(rest, {f}) else {};
    var all := Cascade(files, first + {f});
    CascadeLeast(files, first, all);
    CascadeLeast(rest, {f}, all);
    CascadeLeast(files, first + {f}, gone + more);
    assert Closed(rest, all);
    assert Closed(files, gone + more) by {
      forall g | g in files && files[g].parent.Some? && files[g].parent.value in gone + more ensures g in gone + more {
        if g !in gone { assert g in rest && rest[g] == files[g]; }
      }
    }
  }

  lemma DeleteFiles(s: Store, f: FileId)
    ensures StoreModel.DeleteFile(s, f).0.files
      == s.files - if f in s.files then Cascade(s.files, {f}) else {}
  {}

  /** Files leave with everything below them, in whatever order they are deleted. */
  lemma {:induction false} DeleteAllFiles(s: Store, rows: seq<FileId>, seed: set<FileId>)
    requires forall f :: f in rows ==> f in s.files
    requires forall f :: f in seed <==> f in rows
    ensures DeleteAll(s, rows).files == s.files - Cascade(s.files, seed)
  {
    if rows == [] {
      assert seed == {};
      CascadeLeast(s.files, seed, {});
    } else {
      var k := |rows| - 1;
      var before := set f | f in rows[..k];
      assert rows == rows[..k] + [rows[k]];
      DeleteAllFiles(s, rows[..k], before);
      assert seed == before + {rows[k]};
      DeleteOneMore(s, DeleteAll(s, rows[..k]), before, rows[k]);
    }
  }

  lemma DeleteOneMore(s: Store, t: Store, before: set<FileId>, f: FileId)
    requires f in s.files && t.files == s.files - Cascade(s.files, before)
    ensures StoreModel.DeleteFile(t, f).0.files == s.files - Cascade(s.files, before + {f})
  {
    CascadeTwice(s.files, before, f);
    DeleteFiles(t, f);
  }

  lemma TrashGone(s: Store, cutoff: Time, rows: seq<FileId>)
    requires IsTrash(s, cutoff, rows)
    ensures DeleteAll(s, rows).files == s.files - Cascade(s.files, OldTrash(s, cutoff))
  {
    DeleteAllFiles(s, rows, OldTrash(s, cutoff));
  }

  ghost function DeleteAll(s: Store, rows: seq<FileId>): Store {
    if rows == [] then s else StoreModel.DeleteFile(DeleteAll(s, rows[..|rows| - 1]), rows[|rows| - 1]).0
  }

  /** How many of the deletions found a manifest. */
  ghost function CountDeleted(s: Store, rows: seq<FileId>): nat {
    if rows == [] then 0 else
      var n := |rows| - 1;
      CountDeleted(s, rows[..n]) + if HasManifest(DeleteAll(s, rows[..n]), rows[n]) then 1 else 0
  }

  lemma DeleteKeepsUnique(s: Store, f: FileId)
    requires UniqueVersions(s)
    ensures UniqueVersions(StoreModel.DeleteFile(s, f).0)
  {}

  /** The answer to the version collector's query. */
  ghost predicate IsListing(s: Store, cutoff: Time, rows: seq<ManifestId>) {
    && (forall m :: m in rows <==> m in s.manifests && s.manifests[m].createdAt < cutoff)
    && NewestFirst(s, rows)
  }

  ghost predicate NewestFirst(s: Store, rows: seq<ManifestId>) {
    rows == [] ||
    (var k := |rows| - 1;
     NewestFirst(s, rows[..k]) && forall n :: n in rows[..k] ==> NewerThan(s, n, rows[k]))
  }

  /** Another manifest; of the same file, a newer one. */
  ghost predicate NewerThan(s: Store, n: ManifestId, m: ManifestId) {
    n != m && (n in s.manifests && m in s.manifests && s.manifests[n].file == s.manifests[m].file ==>
                 s.manifests[n].version > s.manifests[m].version)
  }

  lemma {:induction false} NewestFirstAt(s: Store, rows: seq<ManifestId>, i: nat, n: ManifestId)
    requires NewestFirst(s, rows) && i < |rows| && n in rows[..i]
    ensures NewerThan(s, n, rows[i])
  {
    var k := |rows| - 1;
    if i < k {
      assert rows[..k][..i] == rows[..i];
      NewestFirstAt(s, rows[..k], i, n);
    }
  }

  /** The listed manifests of one file. */
  ghost function Seen(s: Store, rows: seq<ManifestId>, f: FileId): set<ManifestId> {
    set m | m in rows && m in s.manifests && s.manifests[m].file == f
  }

  /** The rows already seen are exactly the newer ones. */
  lemma ListingNewer(s: Store, cutoff: Time, rows: seq<ManifestId>, i: nat)
    requires IsListing(s, cutoff, rows) && i < |rows|
    ensures rows[i] in s.manifests
    ensures Seen(s, rows[..i], s.manifests[rows[i]].file) == NewerListed(s, cutoff, rows[i])
  {
    var m := rows[i];
    assert m in rows;
    forall n | n in NewerListed(s, cutoff, m) ensures n in rows[..i] {
      assert n in rows;
      var j :| 0 <= j < |rows| && rows[j] == n;
      if i < j { NewestFirstAt(s, rows, j, m); }
    }
    forall n | n in Seen(s, rows[..i], s.manifests[m].file) ensures n in NewerListed(s, cutoff, m) {
      assert n in rows;
      NewestFirstAt(s, rows, i, n);
    }
  }

  /** The per-file counters over the rows seen. */
  ghost predicate Tallied(counts: map<FileId, nat>, s: Store, rows: seq<ManifestId>) {
    forall f :: (if f in counts then counts[f] else 0) == |Seen(s, rows, f)|
  }

  lemma SeenSnoc(s: Store, rows: seq<ManifestId>, i: nat, f: FileId)
    requires i < |rows| && rows[i] in s.manifests && rows[i] !in rows[..i]
    ensures |Seen(s, rows[..i + 1], f)| == |Seen(s, rows[..i], f)| + if f == s.manifests[rows[i]].file then 1 else 0
  {
    assert rows[..i + 1] == rows[..i] + [rows[i]];
    if f == s.manifests[rows[i]].file {
      assert Seen(s, rows[..i + 1], f) == Seen(s, rows[..i], f) + {rows[i]};
    } else {
      assert Seen(s, rows[..i + 1], f) == Seen(s, rows[..i], f);
    }
  }

  lemma TallyOne(counts: map<FileId, nat>, s: Store, cutoff: Time, rows: seq<ManifestId>, i: nat)
    requires IsListing(s, cutoff, rows) && i < |rows| && Tallied(counts, s, rows[..i])
    requires rows[i] in s.manifests && rows[i] !in rows[..i]
    ensures var f := s.manifests[rows[i]].file;
            var count := (if f in counts then counts[f] else 0) + 1;
            Tallied(counts[f := count], s, rows[..i + 1]) && count == |Seen(s, rows[..i], f)| + 1
  {
    forall f
      ensures |Seen(s, rows[..i + 1], f)|
        == |Seen(s, rows[..i], f)| + if f == s.manifests[rows[i]].file then 1 else 0
    {
      SeenSnoc(s, rows, i, f);
    }
  }

  /** The rows collected among the first i of a listing. */
  ghost predicate Marked(gone: set<ManifestId>, s: Store, cutoff: Time, rows: seq<ManifestId>, i: nat)
    requires i <= |rows|
  {
    forall m :: m in gone <==> m in rows[..i] && IsOldVersion(s, cutoff, m)
  }

  lemma ListingFresh(s: Store, cutoff: Time, rows: seq<ManifestId>, i: nat)
    requires IsListing(s, cutoff, rows) && i < |rows|
    ensures rows[i] in s.manifests && rows[i] !in rows[..i]
  {
    assert rows[i] in rows;
    if rows[i] in rows[..i] { NewestFirstAt(s, rows, i, rows[i]); }
  }

  ghost function WithoutManifest(s: Store, m: ManifestId): Store {
    s.(manifests := s.manifests - {m})
  }

  /** The state of the collection after i rows of the listing. */
  ghost predicate Collecting(s: Store, t: Store, cutoff: Time, rows: seq<ManifestId>, i: nat, gone: set<ManifestId>,
                             counts: map<FileId, nat>, collected: nat)
    requires i <= |rows|
  {
    && t == s.(manifests := s.manifests - gone) && Marked(gone, s, cutoff, rows, i) && Tallied(counts, s, rows[..i])
    && Fewer(s.manifests, t.manifests, collected)
  }

  lemma CollectingStarts(s: Store, cutoff: Time, rows: seq<ManifestId>)
    ensures Collecting(s, s, cutoff, rows, 0, {}, map[], 0)
  {
    assert s.manifests - {} == s.manifests;
  }

  lemma CollectingListed(s: Store, t: Store, cutoff: Time, rows: seq<ManifestId>, i: nat, gone: set<ManifestId>,
                         counts: map<FileId, nat>, collected: nat)
    requires IsListing(s, cutoff, rows) && i < |rows| && Collecting(s, t, cutoff, rows, i, gone, counts, collected)
    ensures rows[i] in s.manifests && rows[i] in t.manifests && t.manifests[rows[i]] == s.manifests[rows[i]]
  {
    ListingFresh(s, cutoff, rows, i);
  }

  ghost predicate Fewer(all: map<ManifestId, Manifest>, left: map<ManifestId, Manifest>, n: nat) {
    n == |all| - |left|
  }

  lemma FewerNext(all: map<ManifestId, Manifest>, left: map<ManifestId, Manifest>, m: ManifestId, n: nat)
    requires m in left && Fewer(all, left, n)
    ensures Fewer(all, left - {m}, n + 1)
  {
    OneFewer(left, m);
  }

  /** What counting one row, and dropping it when too old, leads to. */
  lemma CollectingNext(s: Store, t: Store, cutoff: Time, rows: seq<ManifestId>, i: nat, gone: set<ManifestId>,
                       counts: map<FileId, nat>, collected: nat, tooOld: bool)
    requires IsListing(s, cutoff, rows) && i < |rows| && Collecting(s, t, cutoff, rows, i, gone, counts, collected)
    requires rows[i] in s.manifests
    requires var f := s.manifests[rows[i]].file;
      tooOld == ((if f in counts then counts[f] else 0) + 1 > KEPT_VERSIONS)
    ensures var f, m := s.manifests[rows[i]].file, rows[i];
      Collecting(s, if tooOld then WithoutManifest(t, m) else t, cutoff, rows, i + 1,
                 if tooOld then gone + {m} else gone, counts[f := (if f in counts then counts[f] else 0) + 1],
                 if tooOld then collected + 1 else collected)
  {
    ListingFresh(s, cutoff, rows, i);
    TallyOne(counts, s, cutoff, rows, i);
    MarkNext(gone, s, cutoff, rows, i, tooOld);
    GoneMore(s.manifests, gone, rows[i]);
    CollectingListed(s, t, cutoff, rows, i, gone, counts, collected);
    FewerNext(s.manifests, t.manifests, rows[i], collected);
  }

  /** The counter a row meets is its rank. */
  lemma MarkNext(gone: set<ManifestId>, s: Store, cutoff: Time, rows: seq<ManifestId>, i: nat, tooOld: bool)
    requires IsListing(s, cutoff, rows) && i < |rows| && Marked(gone, s, cutoff, rows, i) && rows[i] in s.manifests
    requires tooOld <==> |Seen(s, rows[..i], s.manifests[rows[i]].file)| >= KEPT_VERSIONS
    ensures Marked(if tooOld then gone + {rows[i]} else gone, s, cutoff, rows, i + 1)
  {
    ListingNewer(s, cutoff, rows, i);
    assert rows[..i + 1] == rows[..i] + [rows[i]];
    assert IsOldVersion(s, cutoff, rows[i]) <==> tooOld by { assert rows[i] in rows; }
  }

  lemma OldAreListed(s: Store, cutoff: Time, rows: seq<ManifestId>, gone: set<ManifestId>)
    requires IsListing(s, cutoff, rows) && Marked(gone, s, cutoff, rows, |rows|)
    ensures s.manifests - gone == StoreModel.CollectOldVersions(s, cutoff).manifests
  {
    assert rows[..|rows|] == rows;
  }
}
