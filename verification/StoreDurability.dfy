/** The store keeps its promises. */
module StoreDurability {
  // An ideal store, which knows neither chunks nor reference counts nor
  // collectors, records what each answer promises; every run of the real store
  // agrees with it.

  import opened Common
  import opened Greedy
  import opened StoreModel
  import opened StoreAccounting
  import opened StoreVersions

  // --- Reading -------------------------------------------------------------------

  ghost predicate Available(blobs: map<Hash, Bytes>, hashes: seq<Hash>) {
    forall i :: 0 <= i < |hashes| ==> hashes[i] in blobs
  }

  /** The bytes a list of hashes stands for. */
  ghost function Content(blobs: map<Hash, Bytes>, hashes: seq<Hash>): Bytes
    requires Available(blobs, hashes)
  {
    if hashes == [] then [] else
      var n := |hashes| - 1;
      Content(blobs, hashes[..n]) + blobs[hashes[n]]
  }

  /** What a download of f delivers: the chunks of the linked manifest in order. */
  ghost function Download(s: Store, f: FileId): Option<Bytes> {
    if f in s.files && s.files[f].manifest.Some? && s.files[f].manifest.value in s.manifests
       && Available(s.blobs, s.manifests[s.files[f].manifest.value].chunks)
    then Some(Content(s.blobs, s.manifests[s.files[f].manifest.value].chunks))
    else None
  }

  // --- The ideal store -------------------------------------------------------------

  /** An open upload: by whom, of what, since when, and the parts it accepted. */
  datatype IdealSession = IdealSession(
    user: string, parent: Option<FileId>, name: string, size: int, created: Time, parts: map<nat, Bytes>)

  /** An upload stays open for a day. */
  predicate Lapsed(ideal: IdealSession, now: Time) { now > ideal.created + 86400 }

  /** An announced size makes parts of 4 MiB, of which the last may be shorter. */
  predicate InRange(ideal: IdealSession, index: int) { 0 <= index && index * 4194304 < ideal.size }

  ghost predicate Whole(ideal: IdealSession) { forall i: nat :: InRange(ideal, i) ==> i in ideal.parts }

  /** A part is what arrives, up to 4 MiB and 1 KiB. */
  function Part(body: Bytes): Bytes { if |body| <= 4195328 then body else body[..4195328] }

  /** Open sessions with the parts they accepted, and the contents of files. */
  datatype Ideal = Ideal(sessions: map<SessionId, IdealSession>, files: map<FileId, Bytes>)

  /** Parts 0..n in index order. */
  ghost function Joined(parts: map<nat, Bytes>, n: nat): Bytes {
    if n == 0 then [] else Joined(parts, n - 1) + if n - 1 in parts then parts[n - 1] else []
  }

  /** What an answer promises.  The store before the step is consulted only for
      its tree and the bytes pushed under a hash. */
  ghost function Promised(p: Ideal, s: Store, op: Op, r: Response): Ideal {
    match op
    case OpCreateUpload(user, sid, parent, name, size, now) =>
      if r.Created?
      then p.(sessions := p.sessions[sid := IdealSession(user, parent, name, size, now, map[])]) else p
    case OpUploadChunk(user, sid, index, length, body, now) =>
      if r.Uploaded? && sid in p.sessions && index >= 0
      then p.(sessions := p.sessions[sid := p.sessions[sid].(parts := p.sessions[sid].parts[index := Part(body)])])
      else p
    case OpCompleteUpload(user, sid, f, m, now) =>
      if r.Completed? && sid in p.sessions
      then Ideal(p.sessions - {sid}, p.files[f := Joined(p.sessions[sid].parts, |p.sessions[sid].parts|)])
      else p
    case OpCancelUpload(user, sid) => if r.Done? then p.(sessions := p.sessions - {sid}) else p
    case OpCleanupExpired(now) =>
      p.(sessions := map sid | sid in p.sessions && !Lapsed(p.sessions[sid], now) :: p.sessions[sid])
    case OpDeleteFile(f) => if f in s.files then p.(files := p.files - Cascade(s.files, {f})) else p
    case OpPermanentDelete(user, f) => if r.Done? then p.(files := p.files - Cascade(s.files, {f})) else p
    case OpSyncAdd(user, f, parent, name, size, hashes, m, now) =>
      if r.Done? && hashes != [] && Available(s.blobs, hashes)
      then p.(files := p.files[f := Content(s.blobs, hashes)]) else p
    case OpSyncModify(f, size, hashes, m, now) =>
      if r.Done? && Available(s.blobs, hashes)
      then p.(files := p.files[f := Content(s.blobs, hashes)]) else p
    case _ => p
  }

  ghost function Promises(cfg: Config, ops: seq<Op>): Ideal {
    if ops == [] then Ideal(map[], map[]) else
      var before, op := ops[..|ops| - 1], ops[|ops| - 1];
      var s := Run(cfg, before);
      Promised(Promises(cfg, before), s, op, Step(cfg, s, op).1)
  }

  // --- Agreement ---------------------------------------------------------------------

  ghost predicate ListMatches(blobs: map<Hash, Bytes>, hashes: seq<Hash>, data: Bytes) {
    Available(blobs, hashes) && Content(blobs, hashes) == data
  }

  /** The session is for this upload, and expects just enough parts. */
  ghost predicate SameUpload(session: Session, ideal: IdealSession) {
    && session.user == ideal.user && session.parent == ideal.parent && session.name == ideal.name
    && session.size == ideal.size && session.expiresAt == ideal.created + 86400
    && (session.total - 1) * 4194304 < ideal.size <= session.total * 4194304
  }

  ghost predicate SessionMatches(blobs: map<Hash, Bytes>, session: Session, ideal: IdealSession) {
    && SameUpload(session, ideal)
    && ideal.parts.Keys == session.chunkHashes.Keys
    && forall i :: i in ideal.parts ==> ListMatches(blobs, session.chunkHashes[i], ideal.parts[i])
  }

  ghost predicate FileMatches(s: Store, f: FileId, data: Bytes) {
    f in s.files && Download(s, f) == Some(data)
  }

  ghost predicate SessionsAgree(s: Store, sessions: map<SessionId, IdealSession>) {
    && sessions.Keys == s.sessions.Keys
    && forall sid :: sid in sessions ==> SessionMatches(s.blobs, s.sessions[sid], sessions[sid])
  }

  ghost predicate FilesAgree(s: Store, files: map<FileId, Bytes>) {
    forall f :: f in files ==> FileMatches(s, f, files[f])
  }

  ghost predicate Agrees(s: Store, p: Ideal) {
    SessionsAgree(s, p.sessions) && FilesAgree(s, p.files)
  }

  // --- Stability of contents --------------------------------------------------------------

  /** Under an injective digest the bytes behind a hash never change. */
  lemma {:induction false} ContentStable(cfg: Config, a: Store, b: Store, hashes: seq<Hash>)
    requires Injective(cfg.sha) && HonestBlobs(cfg.sha, a) && HonestBlobs(cfg.sha, b)
    requires Available(a.blobs, hashes) && Available(b.blobs, hashes)
    ensures Content(a.blobs, hashes) == Content(b.blobs, hashes)
  {
    if hashes != [] {
      var n := |hashes| - 1;
      ContentStable(cfg, a, b, hashes[..n]);
      assert cfg.sha(a.blobs[hashes[n]]) == hashes[n] == cfg.sha(b.blobs[hashes[n]]);
    }
  }

  lemma {:induction false} ContentAppend(blobs: map<Hash, Bytes>, xs: seq<Hash>, ys: seq<Hash>)
    requires Available(blobs, xs) && Available(blobs, ys)
    ensures Available(blobs, xs + ys) && Content(blobs, xs + ys) == Content(blobs, xs) + Content(blobs, ys)
  {
    assert Available(blobs, xs + ys);
    if ys == [] {
      assert xs + ys == xs;
    } else {
      var n := |ys| - 1;
      ContentAppend(blobs, xs, ys[..n]);
      assert (xs + ys)[..|xs| + n] == xs + ys[..n];
    }
  }

  /** A hash held by anyone has its blob. */
  lemma HeldHasBlob(cfg: Config, s: Store, h: Hash)
    requires Sound(cfg, s) && Held(s, h) > 0
    ensures h in s.blobs
  {
    assert Slack(s, h) >= 0;
  }

  lemma SessionAvailable(cfg: Config, s: Store, sid: SessionId, i: nat)
    requires Sound(cfg, s) && sid in s.sessions && i in s.sessions[sid].chunkHashes
    ensures Available(s.blobs, s.sessions[sid].chunkHashes[i])
  {
    var hashes := s.sessions[sid].chunkHashes[i];
    forall k | 0 <= k < |hashes| ensures hashes[k] in s.blobs {
      SessionHolds(s, sid, i, hashes[k]);
      HeldHasBlob(cfg, s, hashes[k]);
    }
  }

  lemma SessionHolds(s: Store, sid: SessionId, i: nat, h: Hash)
    requires sid in s.sessions && i in s.sessions[sid].chunkHashes && h in s.sessions[sid].chunkHashes[i]
    ensures Held(s, h) > 0
  {
    TotalRemove(s.sessions, SessionWeight(h), sid);
    TotalRemove<nat, seq<Hash>>(s.sessions[sid].chunkHashes, Occurs(h), i);
  }

  lemma ManifestAvailable(cfg: Config, s: Store, m: ManifestId)
    requires Sound(cfg, s) && m in s.manifests
    ensures Available(s.blobs, s.manifests[m].chunks)
  {
    var hashes := s.manifests[m].chunks;
    forall k | 0 <= k < |hashes| ensures hashes[k] in s.blobs {
      TotalRemove(s.manifests, ManifestWeight(hashes[k]), m);
      HeldHasBlob(cfg, s, hashes[k]);
    }
  }

  /** A session untouched by the step still matches. */
  lemma SessionStays(cfg: Config, s: Store, t: Store, sid: SessionId, ideal: IdealSession)
    requires Injective(cfg.sha) && Sound(cfg, s) && Sound(cfg, t)
    requires sid in s.sessions && sid in t.sessions && t.sessions[sid] == s.sessions[sid]
    requires SessionMatches(s.blobs, s.sessions[sid], ideal)
    ensures SessionMatches(t.blobs, t.sessions[sid], ideal)
  {
    forall i | i in ideal.parts ensures ListMatches(t.blobs, t.sessions[sid].chunkHashes[i], ideal.parts[i]) {
      assert ListMatches(s.blobs, s.sessions[sid].chunkHashes[i], ideal.parts[i]);
      SessionAvailable(cfg, t, sid, i);
      ContentStable(cfg, s, t, s.sessions[sid].chunkHashes[i]);
    }
  }

  /** A file whose link and manifest survive the step still matches. */
  lemma FileStays(cfg: Config, s: Store, t: Store, f: FileId, data: Bytes)
    requires Injective(cfg.sha) && Sound(cfg, s) && Sound(cfg, t) && FileMatches(s, f, data)
    requires f in t.files && t.files[f].manifest == s.files[f].manifest
    requires s.files[f].manifest.value in t.manifests
    requires t.manifests[s.files[f].manifest.value] == s.manifests[s.files[f].manifest.value]
    ensures FileMatches(t, f, data)
  {
    var m := s.files[f].manifest.value;
    ManifestAvailable(cfg, t, m);
    ContentStable(cfg, s, t, s.manifests[m].chunks);
  }

  ghost predicate FileUntouched(s: Store, t: Store, f: FileId) {
    && f in s.files && f in t.files && t.files[f].manifest == s.files[f].manifest
    && forall m :: s.files[f].manifest == Some(m) && m in s.manifests ==>
      m in t.manifests && t.manifests[m] == s.manifests[m]
  }

  /** Both states satisfy the reference invariants, and digests do not collide. */
  ghost predicate Steady(cfg: Config, s: Store, t: Store) {
    Injective(cfg.sha) && Sound(cfg, s) && Sound(cfg, t)
  }

  /** The sessions left are as they were. */
  lemma SessionsKept(cfg: Config, s: Store, t: Store, ps: map<SessionId, IdealSession>,
                     qs: map<SessionId, IdealSession>)
    requires Steady(cfg, s, t) && SessionsAgree(s, ps) && qs.Keys == t.sessions.Keys
    requires forall sid :: sid in qs ==> sid in ps && qs[sid] == ps[sid] && t.sessions[sid] == s.sessions[sid]
    ensures SessionsAgree(t, qs)
  {
    forall sid | sid in qs ensures SessionMatches(t.blobs, t.sessions[sid], qs[sid]) {
      SessionStays(cfg, s, t, sid, ps[sid]);
    }
  }

  /** One session is new or changed. */
  lemma SessionSet(cfg: Config, s: Store, t: Store, ps: map<SessionId, IdealSession>, sid: SessionId, session: Session,
                   ideal: IdealSession)
    requires Steady(cfg, s, t) && SessionsAgree(s, ps)
    requires t.sessions == s.sessions[sid := session] && SessionMatches(t.blobs, session, ideal)
    ensures SessionsAgree(t, ps[sid := ideal])
  {
    forall k | k in ps && k != sid ensures SessionMatches(t.blobs, t.sessions[k], ps[k]) {
      SessionStays(cfg, s, t, k, ps[k]);
    }
  }

  /** The files left are untouched. */
  lemma FilesKept(cfg: Config, s: Store, t: Store, pf: map<FileId, Bytes>, qf: map<FileId, Bytes>)
    requires Steady(cfg, s, t) && FilesAgree(s, pf)
    requires forall f :: f in qf ==> f in pf && qf[f] == pf[f] && FileUntouched(s, t, f)
    ensures FilesAgree(t, qf)
  {
    forall f | f in qf ensures FileMatches(t, f, qf[f]) {
      assert FileMatches(s, f, pf[f]) && FileUntouched(s, t, f);
      FileStays(cfg, s, t, f, pf[f]);
    }
  }

  /** One file is new or relinked. */
  lemma FileSet(cfg: Config, s: Store, t: Store, pf: map<FileId, Bytes>, f: FileId, m: ManifestId, row: Manifest,
                data: Bytes)
    requires Steady(cfg, s, t) && FilesAgree(s, pf)
    requires m !in s.manifests && t.manifests == s.manifests[m := row] && ListMatches(t.blobs, row.chunks, data)
    requires f in t.files && t.files == s.files[f := t.files[f]] && t.files[f].manifest == Some(m)
    ensures FilesAgree(t, pf[f := data])
  {
    forall g | g in pf && g != f ensures FileMatches(t, g, pf[g]) {
      assert FileMatches(s, g, pf[g]);
      FileStays(cfg, s, t, g, pf[g]);
    }
  }

  // --- The steps that add content -------------------------------------------------------------

  lemma {:induction false} ContentOfPieces(cfg: Config, blobs: map<Hash, Bytes>, pieces: seq<Bytes>)
    requires Injective(cfg.sha)
    requires forall h :: h in blobs ==> cfg.sha(blobs[h]) == h
    requires Available(blobs, Map(cfg.sha, pieces))
    ensures Content(blobs, Map(cfg.sha, pieces)) == Flatten(pieces)
  {
    var hashes := Map(cfg.sha, pieces);
    if pieces != [] {
      var n := |pieces| - 1;
      assert Map(cfg.sha, pieces[..n]) == hashes[..n];
      ContentOfPieces(cfg, blobs, pieces[..n]);
      assert cfg.sha(blobs[hashes[n]]) == cfg.sha(pieces[n]);
      FlattenSnoc(pieces[..n], pieces[n]);
      assert pieces == pieces[..n] + [pieces[n]];
    }
  }

  /** A session that accepts one more part. */
  lemma PartAdded(cfg: Config, s: Store, t: Store, session: Session, ideal: IdealSession, after: Session,
                  index: nat, hashes: seq<Hash>, data: Bytes, sid: SessionId)
    requires Steady(cfg, s, t) && sid in s.sessions && s.sessions[sid] == session
    requires sid in t.sessions && t.sessions[sid] == after
    requires SessionMatches(s.blobs, session, ideal)
    requires SameUpload(after, ideal) && after.chunkHashes == session.chunkHashes[index := hashes]
    requires ListMatches(t.blobs, hashes, data)
    ensures SessionMatches(t.blobs, after, ideal.(parts := ideal.parts[index := data]))
  {
    forall i | i in ideal.parts && i != index ensures ListMatches(t.blobs, after.chunkHashes[i], ideal.parts[i]) {
      assert ListMatches(s.blobs, session.chunkHashes[i], ideal.parts[i]);
      SessionAvailable(cfg, t, sid, i);
      ContentStable(cfg, s, t, session.chunkHashes[i]);
    }
  }

  /** The pieces of an accepted chunk are stored and read back as its data. */
  lemma {:induction false} DataStored(cfg: Config, s: Store, data: Bytes, now: Time)
    requires Injective(cfg.sha) && HonestBlobs(cfg.sha, s) && Backed(s)
    ensures var pieces := Pieces(cfg.cut, data);
            ListMatches(Retain(cfg.sha, s, pieces, now).blobs, Map(cfg.sha, pieces), data)
  {
    var pieces := Pieces(cfg.cut, data);
    var t, hashes := Retain(cfg.sha, s, pieces, now), Map(cfg.sha, pieces);
    RetainLaw(cfg, s, pieces, now);
    forall i | 0 <= i < |hashes| ensures hashes[i] in t.blobs {
      assert hashes[i] in multiset(hashes);
      assert Count(t, hashes[i]) == Count(s, hashes[i]) + multiset(hashes)[hashes[i]];
    }
    ContentOfPieces(cfg, t.blobs, pieces);
    PiecesGreedy(cfg.cut, data);
  }

  /** An accepted chunk is readable back through its hashes. */
  lemma UploadAgrees(cfg: Config, s: Store, p: Ideal, op: Op)
    requires op.OpUploadChunk? && Injective(cfg.sha) && Sound(cfg, s) && Agrees(s, p)
    ensures var (t, r) := UploadChunk(cfg, s, op.user, op.sid, op.index, op.length, op.body, op.now);
            Agrees(t, Promised(p, s, op, r))
  {
    if UploadRefusal(s, op.user, op.sid, op.index, op.length, op.body, op.now).None? {
      ChunkAgrees(cfg, s, p, op);
    }
  }

  lemma ChunkAgrees(cfg: Config, s: Store, p: Ideal, op: Op)
    requires op.OpUploadChunk? && Injective(cfg.sha) && Sound(cfg, s) && Agrees(s, p)
    requires UploadRefusal(s, op.user, op.sid, op.index, op.length, op.body, op.now).None?
    ensures var t := UploadChunk(cfg, s, op.user, op.sid, op.index, op.length, op.body, op.now).0;
            var ideal := p.sessions[op.sid];
            Agrees(t, p.(sessions := p.sessions[op.sid := ideal.(parts := ideal.parts[op.index := Part(op.body)])]))
  {
    var data := Limited(op.body);
    var pieces := Pieces(cfg.cut, data);
    var t := UploadChunk(cfg, s, op.user, op.sid, op.index, op.length, op.body, op.now).0;
    assert SessionMatches(s.blobs, s.sessions[op.sid], p.sessions[op.sid]);
    ChunkUploaded(cfg, s, op.user, op.sid, op.index, op.length, op.body, op.now);
    DataStored(cfg, s, data, op.now);
    RetainLaw(cfg, s, pieces, op.now);
    PartUploaded(cfg, s, t, p, op.sid, op.index, Map(cfg.sha, pieces), data);
  }

  /** The chunk's pieces were stored and recorded in its session. */
  lemma PartUploaded(cfg: Config, s: Store, t: Store, p: Ideal, sid: SessionId, index: nat, hashes: seq<Hash>,
                     data: Bytes)
    requires Steady(cfg, s, t) && Agrees(s, p) && sid in s.sessions && sid in t.sessions
    requires t.sessions == s.sessions[sid := t.sessions[sid]] && t.files == s.files && t.manifests == s.manifests
    requires SameUpload(t.sessions[sid], p.sessions[sid])
    requires t.sessions[sid].chunkHashes == s.sessions[sid].chunkHashes[index := hashes]
    requires ListMatches(t.blobs, hashes, data)
    ensures var ideal := p.sessions[sid];
      Agrees(t, p.(sessions := p.sessions[sid := ideal.(parts := ideal.parts[index := data])]))
  {
    var ideal := p.sessions[sid];
    PartAdded(cfg, s, t, s.sessions[sid], ideal, t.sessions[sid], index, hashes, data, sid);
    SessionSet(cfg, s, t, p.sessions, sid, t.sessions[sid], ideal.(parts := ideal.parts[index := data]));
    FilesPresent(s, p);
    FilesKept(cfg, s, t, p.files, p.files);
  }

  /** Promised files exist. */
  lemma FilesPresent(s: Store, p: Ideal)
    requires Agrees(s, p)
    ensures forall f :: f in p.files ==>
      f in s.files && s.files[f].manifest.Some? && s.files[f].manifest.value in s.manifests
  {
    forall f | f in p.files
      ensures f in s.files && s.files[f].manifest.Some? && s.files[f].manifest.value in s.manifests
    {
      assert FileMatches(s, f, p.files[f]);
    }
  }

  lemma {:induction false} GatherContent(blobs: map<Hash, Bytes>, session: Session, ideal: IdealSession, n: nat)
    requires SessionMatches(blobs, session, ideal)
    ensures ListMatches(blobs, Gather(session.chunkHashes, n), Joined(ideal.parts, n))
  {
    if n > 0 {
      GatherContent(blobs, session, ideal, n - 1);
      var before := Gather(session.chunkHashes, n - 1);
      if n - 1 in ideal.parts {
        assert ListMatches(blobs, session.chunkHashes[n - 1], ideal.parts[n - 1]);
        ContentAppend(blobs, before, session.chunkHashes[n - 1]);
      } else {
        assert before + [] == before;
        assert Joined(ideal.parts, n - 1) + [] == Joined(ideal.parts, n - 1);
      }
    }
  }

  /** The session became file f with manifest m. */
  ghost predicate BecameFile(s: Store, t: Store, sid: SessionId, f: FileId, m: ManifestId) {
    && sid in s.sessions && t.sessions == s.sessions - {sid} && t.blobs == s.blobs
    && Filed(s, t, f, m, Gather(s.sessions[sid].chunkHashes, s.sessions[sid].total))
  }

  lemma FileAgrees(cfg: Config, s: Store, t: Store, p: Ideal, sid: SessionId, f: FileId, m: ManifestId)
    requires Steady(cfg, s, t) && Agrees(s, p) && BecameFile(s, t, sid, f, m)
    ensures Agrees(t, Ideal(p.sessions - {sid}, p.files[f := Joined(p.sessions[sid].parts, s.sessions[sid].total)]))
  {
    var session, ideal := s.sessions[sid], p.sessions[sid];
    GatherContent(s.blobs, session, ideal, session.total);
    SessionsKept(cfg, s, t, p.sessions, p.sessions - {sid});
    FileSet(cfg, s, t, p.files, f, m, t.manifests[m], Joined(ideal.parts, session.total));
  }

  /** A session of which no part is missing has one part for every index. */
  lemma AllParts(session: Session, ideal: IdealSession)
    requires SessionOk(session) && SameUpload(session, ideal) && ideal.parts.Keys == session.chunkHashes.Keys
    ensures |session.chunks| >= session.total <==> Whole(ideal)
    ensures |session.chunks| >= session.total ==> |ideal.parts| == session.total
    ensures forall i :: InRange(ideal, i) <==> 0 <= i < session.total
  {
    CompletionTest(session);
    MissingLaw(session.chunks, session.total);
    assert Present(session.chunks, session.total) == session.chunks.Keys == ideal.parts.Keys;
    assert |ideal.parts| == |ideal.parts.Keys|;
  }

  lemma CompletedParts(s: Store, p: Ideal, op: Op)
    requires op.OpCompleteUpload? && Linked(s) && Agrees(s, p)
    requires CompleteUpload(s, op.user, op.sid, op.f, op.m, op.now).1.Completed?
    ensures Whole(p.sessions[op.sid]) && |p.sessions[op.sid].parts| == s.sessions[op.sid].total
  {
    assert SessionMatches(s.blobs, s.sessions[op.sid], p.sessions[op.sid]);
    AllParts(s.sessions[op.sid], p.sessions[op.sid]);
  }

  /** A completed upload is exactly its parts in index order. */
  lemma CompleteAgrees(cfg: Config, s: Store, p: Ideal, op: Op)
    requires op.OpCompleteUpload? && Injective(cfg.sha) && Sound(cfg, s) && Agrees(s, p)
    ensures var (t, r) := CompleteUpload(s, op.user, op.sid, op.f, op.m, op.now);
            Agrees(t, Promised(p, s, op, r))
  {
    var (t, r) := CompleteUpload(s, op.user, op.sid, op.f, op.m, op.now);
    UploadCompleted(cfg, s, op.user, op.sid, op.f, op.m, op.now);
    CompleteCases(s, op.user, op.sid, op.f, op.m, op.now);
    if r.Completed? {
      CompletedParts(s, p, op);
      FileAgrees(cfg, s, t, p, op.sid, op.f, op.m);
    } else {
      EditAgrees(cfg, s, t, p);
    }
  }

  /** Sessions stay, and file rows keep their links. */
  lemma EditAgrees(cfg: Config, s: Store, t: Store, p: Ideal)
    requires Steady(cfg, s, t) && Agrees(s, p)
    requires t.sessions == s.sessions && t.manifests == s.manifests
    requires forall f :: f in s.files ==> f in t.files && t.files[f].manifest == s.files[f].manifest
    ensures Agrees(t, p)
  {
    FilesPresent(s, p);
    SessionsKept(cfg, s, t, p.sessions, p.sessions);
    FilesKept(cfg, s, t, p.files, p.files);
  }

  lemma SyncAddAgrees(cfg: Config, s: Store, p: Ideal, op: Op)
    requires op.OpSyncAdd? && Injective(cfg.sha) && Sound(cfg, s) && Pushed(s, op) && Agrees(s, p)
    ensures var (t, r) := SyncAdd(s, op.user, op.f, op.parent, op.name, op.size, op.hashes, op.m, op.now);
            Agrees(t, Promised(p, s, op, r))
  {
    var (t, r) := SyncAdd(s, op.user, op.f, op.parent, op.name, op.size, op.hashes, op.m, op.now);
    SyncAdded(cfg, s, op);
    SyncAddCases(s, op);
    if r.Done? && op.hashes != [] {
      SyncFileAgrees(cfg, s, t, p, op.f, op.m, op.hashes);
    } else {
      EditAgrees(cfg, s, t, p);
    }
  }

  lemma SyncFileAgrees(cfg: Config, s: Store, t: Store, p: Ideal, f: FileId, m: ManifestId, hashes: seq<Hash>)
    requires Steady(cfg, s, t) && Agrees(s, p) && Filed(s, t, f, m, hashes)
    requires t.sessions == s.sessions && t.blobs == s.blobs && Available(s.blobs, hashes)
    ensures Agrees(t, Ideal(p.sessions, p.files[f := Content(s.blobs, hashes)]))
  {
    SessionsKept(cfg, s, t, p.sessions, p.sessions);
    FileSet(cfg, s, t, p.files, f, m, t.manifests[m], Content(s.blobs, hashes));
  }

  lemma SyncModifyAgrees(cfg: Config, s: Store, p: Ideal, op: Op)
    requires op.OpSyncModify? && Injective(cfg.sha) && Sound(cfg, s) && Pushed(s, op) && Agrees(s, p)
    ensures var (t, r) := SyncModify(s, op.f, op.size, op.hashes, op.m, op.now);
            Agrees(t, Promised(p, s, op, r))
  {
    var (t, r) := SyncModify(s, op.f, op.size, op.hashes, op.m, op.now);
    SyncModified(cfg, s, op.f, op.size, op.hashes, op.m, op.now);
    if r.Done? {
      SessionsKept(cfg, s, t, p.sessions, p.sessions);
      FileSet(cfg, s, t, p.files, op.f, op.m, t.manifests[op.m], Content(s.blobs, op.hashes));
    }
  }

  // --- The steps that remove or keep ----------------------------------------------------------------

  lemma CreateAgrees(cfg: Config, s: Store, p: Ideal, op: Op)
    requires op.OpCreateUpload? && Injective(cfg.sha) && Sound(cfg, s) && Agrees(s, p)
    ensures var (t, r) := CreateUpload(s, op.user, op.sid, op.parent, op.name, op.size, op.now);
            Agrees(t, Promised(p, s, op, r))
  {
    var (t, r) := CreateUpload(s, op.user, op.sid, op.parent, op.name, op.size, op.now);
    if r.Created? {
      SessionCreated(cfg, s, t, op.sid, t.sessions[op.sid]);
      SessionSet(cfg, s, t, p.sessions, op.sid, t.sessions[op.sid],
                 IdealSession(op.user, op.parent, op.name, op.size, op.now, map[]));
      FilesPresent(s, p);
      FilesKept(cfg, s, t, p.files, p.files);
    }
  }

  /** Some sessions go; everything else stays. */
  lemma SessionsGo(cfg: Config, s: Store, t: Store, p: Ideal, gone: set<SessionId>)
    requires Steady(cfg, s, t) && Agrees(s, p)
    requires t.sessions == s.sessions - gone && t.files == s.files && t.manifests == s.manifests
    ensures Agrees(t, p.(sessions := p.sessions - gone))
  {
    FilesPresent(s, p);
    SessionsKept(cfg, s, t, p.sessions, p.sessions - gone);
    FilesKept(cfg, s, t, p.files, p.files);
  }

  lemma CancelAgrees(cfg: Config, s: Store, p: Ideal, op: Op)
    requires op.OpCancelUpload? && Injective(cfg.sha) && Sound(cfg, s) && Agrees(s, p)
    ensures var (t, r) := CancelUpload(s, op.user, op.sid);
            Agrees(t, Promised(p, s, op, r))
  {
    var (t, r) := CancelUpload(s, op.user, op.sid);
    if r.Done? {
      SessionCancelled(cfg, s, op.sid);
      SessionsGo(cfg, s, t, p, {op.sid});
    }
  }

  lemma ExpireAgrees(cfg: Config, s: Store, p: Ideal, now: Time)
    requires Injective(cfg.sha) && Sound(cfg, s) && Agrees(s, p)
    ensures Agrees(CleanupExpired(s, now), Promised(p, s, OpCleanupExpired(now), Done))
  {
    var gone := ExpiredSessions(s, now).Keys;
    SessionsExpired(cfg, s, now);
    SessionsGo(cfg, s, CleanupExpired(s, now), p, gone);
    forall sid | sid in p.sessions ensures Lapsed(p.sessions[sid], now) <==> sid in gone {
      assert SessionMatches(s.blobs, s.sessions[sid], p.sessions[sid]);
    }
    assert p.sessions - gone == map sid | sid in p.sessions && !Lapsed(p.sessions[sid], now) :: p.sessions[sid];
  }

  /** Files go with everything below them; the rest stay. */
  lemma FilesGo(cfg: Config, s: Store, t: Store, p: Ideal, gone: set<FileId>)
    requires Steady(cfg, s, t) && Versioned(s) && Agrees(s, p)
    requires t.sessions == s.sessions && t.files == DeleteRows(s, gone).files
      && t.manifests == DeleteRows(s, gone).manifests
    ensures Agrees(t, p.(files := p.files - gone))
  {
    SessionsKept(cfg, s, t, p.sessions, p.sessions);
    forall f | f in p.files - gone ensures FileUntouched(s, t, f) {
      assert FileMatches(s, f, p.files[f]);
      assert FileVersioned(s, f);
    }
    FilesKept(cfg, s, t, p.files, p.files - gone);
  }

  lemma DeleteAgrees(cfg: Config, s: Store, p: Ideal, f: FileId)
    requires Injective(cfg.sha) && Sound(cfg, s) && Versioned(s) && Agrees(s, p)
    ensures var (t, r) := DeleteFile(s, f);
            Agrees(t, Promised(p, s, OpDeleteFile(f), r))
  {
    FileDeleted(cfg, s, f);
    if f in s.files {
      FilesGo(cfg, s, DeleteFile(s, f).0, p, Cascade(s.files, {f}));
    } else {
      assert !HasManifest(s, f);
    }
  }

  lemma RemoveAgrees(cfg: Config, s: Store, p: Ideal, user: string, f: FileId)
    requires Injective(cfg.sha) && Sound(cfg, s) && Versioned(s) && Agrees(s, p)
    ensures var (t, r) := PermanentDelete(s, user, f);
            Agrees(t, Promised(p, s, OpPermanentDelete(user, f), r))
  {
    var (t, r) := PermanentDelete(s, user, f);
    if r.Done? {
      RowsRemoved(cfg, s, f);
      FilesGo(cfg, s, t, p, Cascade(s.files, {f}));
    }
  }

  lemma CollectAgrees(cfg: Config, s: Store, p: Ideal, cutoff: Time)
    requires Injective(cfg.sha) && Sound(cfg, s) && Versioned(s) && Agrees(s, p)
    ensures Agrees(CollectOldVersions(s, cutoff), p)
  {
    var t := CollectOldVersions(s, cutoff);
    VersionsCollected(cfg, s, cutoff);
    SessionsKept(cfg, s, t, p.sessions, p.sessions);
    forall f | f in p.files ensures FileUntouched(s, t, f) {
      assert FileMatches(s, f, p.files[f]);
      assert FileVersioned(s, f);
      LatestNotOld(s, cutoff, f, s.files[f].manifest.value);
    }
    FilesKept(cfg, s, t, p.files, p.files);
  }

  lemma PushAgrees(cfg: Config, s: Store, p: Ideal, h: Hash, data: Bytes)
    requires Injective(cfg.sha) && Sound(cfg, s) && Agrees(s, p)
    ensures Agrees(PushChunk(cfg.sha, s, h, data).0, p)
  {
    BlobPushed(cfg, s, h, data);
    EditAgrees(cfg, s, PushChunk(cfg.sha, s, h, data).0, p);
  }

  lemma TreeAgrees(cfg: Config, s: Store, p: Ideal, user: string, f: FileId, change: TreeOp)
    requires Injective(cfg.sha) && Sound(cfg, s) && Agrees(s, p)
    ensures Agrees(ChangeTree(s, user, f, change).0, p)
  {
    TreeEdits(s, user, f, change);
    TreeLinked(s, user, f, change);
    TreeChanged(cfg, s, user, f, change);
    EditAgrees(cfg, s, ChangeTree(s, user, f, change).0, p);
  }

  /** One step keeps the promises made so far and the one it makes. */
  lemma StepAgrees(cfg: Config, s: Store, p: Ideal, op: Op)
    requires Injective(cfg.sha) && Sound(cfg, s) && Versioned(s) && Pushed(s, op) && Agrees(s, p)
    ensures var (t, r) := Step(cfg, s, op);
            Agrees(t, Promised(p, s, op, r))
  {
    match op
    case OpCreateUpload(_, _, _, _, _, _) => CreateAgrees(cfg, s, p, op);
    case OpUploadChunk(_, _, _, _, _, _) => UploadAgrees(cfg, s, p, op);
    case OpCompleteUpload(_, _, _, _, _) => CompleteAgrees(cfg, s, p, op);
    case OpCancelUpload(_, _) => CancelAgrees(cfg, s, p, op);
    case OpCleanupExpired(now) => ExpireAgrees(cfg, s, p, now);
    case OpDeleteFile(f) => DeleteAgrees(cfg, s, p, f);
    case OpPermanentDelete(user, f) => RemoveAgrees(cfg, s, p, user, f);
    case OpCollectOrphans(olderThan) => NothingOrphaned(cfg, s, olderThan);
    case OpCollectOldVersions(cutoff) => CollectAgrees(cfg, s, p, cutoff);
    case OpPushChunk(h, data) => PushAgrees(cfg, s, p, h, data);
    case OpSyncAdd(_, _, _, _, _, _, _, _) => SyncAddAgrees(cfg, s, p, op);
    case OpSyncModify(_, _, _, _, _) => SyncModifyAgrees(cfg, s, p, op);
    case OpTree(user, f, change) => TreeAgrees(cfg, s, p, user, f, change);
  }

  /** Main result: in every run, whatever order chunks arrive in and whatever
      other sessions and collectors do in between, the store agrees with the
      ideal store. */
  lemma {:induction false} RunAgrees(cfg: Config, ops: seq<Op>)
    requires Injective(cfg.sha) && PushedRun(cfg, ops)
    ensures Agrees(Run(cfg, ops), Promises(cfg, ops))
  {
    if ops != [] {
      var before := ops[..|ops| - 1];
      RunAgrees(cfg, before);
      RunAccounted(cfg, before);
      RunVersioned(cfg, before);
      StepAgrees(cfg, Run(cfg, before), Promises(cfg, before), ops[|ops| - 1]);
    }
  }

  /** Every promised file downloads as promised. */
  lemma {:induction false} Durability(cfg: Config, ops: seq<Op>, f: FileId)
    requires Injective(cfg.sha) && PushedRun(cfg, ops) && f in Promises(cfg, ops).files
    ensures Download(Run(cfg, ops), f) == Some(Promises(cfg, ops).files[f])
  {
    RunAgrees(cfg, ops);
    assert FileMatches(Run(cfg, ops), f, Promises(cfg, ops).files[f]);
  }

  // --- Why sync changes need their bytes -------------------------------------------------------------

  /** A sync change that is accepted keeps every chunk row backed by a blob exactly
      when the hashes it names have been pushed. */
  lemma BackedIffPushed(cfg: Config, s: Store, op: Op)
    requires (op.OpSyncAdd? || op.OpSyncModify?) && Sound(cfg, s) && Step(cfg, s, op).1.Done?
    ensures Backed(Step(cfg, s, op).0) <==> Pushed(s, op)
  {
    BackedIffStored(s, Step(cfg, s, op).0, op.hashes, op.now);
  }

  lemma BackedIffStored(s: Store, t: Store, hashes: seq<Hash>, now: Time)
    requires Backed(s) && t.blobs == s.blobs && t.chunks == EnsureRefs(s.chunks, hashes, now)
    ensures Backed(t) <==> forall h :: h in hashes ==> h in s.blobs
  {
    EnsureRefsLaw(s.chunks, hashes, now);
  }

  /** A row without a blob defeats every later upload of that piece: the upload
      finds the row, stores nothing, and its bytes are not there to read. */
  lemma {:induction false} UnbackedStaysLost(sha: Bytes -> Hash, s: Store, pieces: seq<Bytes>, now: Time, h: Hash)
    requires h in s.chunks && h !in s.blobs
    ensures var t := Retain(sha, s, pieces, now);
            h in t.chunks && h !in t.blobs
    ensures h in Map(sha, pieces) ==> !Available(Retain(sha, s, pieces, now).blobs, Map(sha, pieces))
  {
    if pieces != [] { UnbackedStaysLost(sha, s, pieces[..|pieces| - 1], now, h); }
  }
}
