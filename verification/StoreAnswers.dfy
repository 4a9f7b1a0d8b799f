/** What the answers of the upload handlers mean over whole runs. */
module StoreAnswers {
  // Every answer is a condition on the ideal store, that is, on what was announced
  // and accepted before; and whatever a completed file holds was sent by its owner.

  import opened Common
  import opened StoreModel
  import opened StoreAccounting
  import opened StoreVersions
  import opened StoreDurability

  /** This user's open upload. */
  predicate Mine(p: Ideal, sid: SessionId, user: string) {
    sid in p.sessions && p.sessions[sid].user == user
  }

  ghost function AnswerTo(cfg: Config, ops: seq<Op>, op: Op): Response {
    Step(cfg, Run(cfg, ops), op).1
  }

  lemma Reached(cfg: Config, ops: seq<Op>)
    requires Injective(cfg.sha) && PushedRun(cfg, ops)
    ensures Sound(cfg, Run(cfg, ops)) && Versioned(Run(cfg, ops)) && Agrees(Run(cfg, ops), Promises(cfg, ops))
  {
    RunAccounted(cfg, ops);
    RunVersioned(cfg, ops);
    RunAgrees(cfg, ops);
  }

  /** The session behind an open upload. */
  lemma Behind(cfg: Config, ops: seq<Op>, sid: SessionId)
    requires Injective(cfg.sha) && PushedRun(cfg, ops)
    ensures sid in Promises(cfg, ops).sessions <==> sid in Run(cfg, ops).sessions
    ensures sid in Promises(cfg, ops).sessions ==>
      var session, ideal := Run(cfg, ops).sessions[sid], Promises(cfg, ops).sessions[sid];
      && SessionOk(session) && SameUpload(session, ideal)
      && ideal.parts.Keys == session.chunks.Keys == session.chunkHashes.Keys
  {
    var s, p := Run(cfg, ops), Promises(cfg, ops);
    Reached(cfg, ops);
    assert SessionsAgree(s, p.sessions);
    if sid in p.sessions {
      assert SessionMatches(s.blobs, s.sessions[sid], p.sessions[sid]);
    }
  }

  // --- Opening --------------------------------------------------------------------------

  /** An upload is opened for every named file of 1 byte to 10 GiB, and expects as
      many parts of 4 MiB as hold it. */
  lemma CreateAnswers(s: Store, user: string, sid: SessionId, parent: Option<FileId>, name: string, size: int,
                      now: Time)
    ensures var (t, r) := CreateUpload(s, user, sid, parent, name, size, now);
      && (r.Created? <==> name != "" && 1 <= size <= 10737418240)
      && (r.Created? ==> (r.total - 1) * 4194304 < size <= r.total * 4194304)
      && (!r.Created? ==> r == BadRequest && t == s)
  {}

  // --- Sending parts --------------------------------------------------------------------

  /** The answer to a part, by what is open, when, and what has arrived. */
  lemma UploadAnswers(cfg: Config, ops: seq<Op>, op: Op)
    requires Injective(cfg.sha) && PushedRun(cfg, ops) && op.OpUploadChunk?
    ensures var p, r := Promises(cfg, ops), AnswerTo(cfg, ops, op);
      var mine := Mine(p, op.sid, op.user);
      var live := mine && !Lapsed(p.sessions[op.sid], op.now) && InRange(p.sessions[op.sid], op.index);
      && (r.NotFound? <==> op.index >= 0 && op.sid !in p.sessions)
      && (r.Forbidden? <==> op.index >= 0 && op.sid in p.sessions && !mine)
      && (r.Gone? <==> op.index >= 0 && mine && Lapsed(p.sessions[op.sid], op.now))
      && (r.AlreadyUploaded? <==> live && op.index in p.sessions[op.sid].parts)
      && (r.Uploaded? <==> live && op.index !in p.sessions[op.sid].parts && 1 <= op.length <= 4195328 && op.body != [])
      && (r.NotFound? || r.Forbidden? || r.Gone? || r.AlreadyUploaded? || r.Uploaded? || r.BadRequest?)
  {
    Behind(cfg, ops, op.sid);
    if op.sid in Promises(cfg, ops).sessions {
      AllParts(Run(cfg, ops).sessions[op.sid], Promises(cfg, ops).sessions[op.sid]);
    }
  }

  // --- Completing -----------------------------------------------------------------------

  /** The absent parts, in order and each once. */
  ghost predicate ListsAbsent(ideal: IdealSession, indexes: seq<nat>) {
    && (forall i: nat :: i in indexes <==> InRange(ideal, i) && i !in ideal.parts)
    && (forall j, k :: 0 <= j < k < |indexes| ==> indexes[j] < indexes[k])
  }

  lemma {:induction false} MissingAscends(chunks: map<nat, nat>, n: nat)
    ensures forall j, k :: 0 <= j < k < |MissingBelow(chunks, n)| ==>
      MissingBelow(chunks, n)[j] < MissingBelow(chunks, n)[k]
    ensures forall j :: 0 <= j < |MissingBelow(chunks, n)| ==> MissingBelow(chunks, n)[j] < n
  {
    if n > 0 { MissingAscends(chunks, n - 1); }
  }

  /** A name without separators and control characters that is no directory entry. */
  predicate Printable(name: string) {
    name !in {"", ".", ".."} && '/' !in name && forall c :: c in name ==> c >= ' '
  }

  /** Rows of one directory and one name. */
  predicate Namesake(row: FileRow, ideal: IdealSession) {
    row.user == ideal.user && row.parent == ideal.parent && row.name == ideal.name
  }

  /** What the database refuses: the row's key or name is taken, even by a trashed
      sibling of a folder, or the folder is gone. */
  ghost predicate Unfilable(s: Store, ideal: IdealSession, f: FileId, m: ManifestId) {
    || f in s.files || m in s.manifests
    || (ideal.parent.Some? && ideal.parent.value !in s.files)
    || (ideal.parent.Some? && exists g :: g in s.files && Namesake(s.files[g], ideal))
  }

  /** The answer to a completion; Missing lists what has not arrived. */
  lemma CompleteAnswers(cfg: Config, ops: seq<Op>, op: Op)
    requires Injective(cfg.sha) && PushedRun(cfg, ops) && op.OpCompleteUpload?
    ensures var s, p, r := Run(cfg, ops), Promises(cfg, ops), AnswerTo(cfg, ops, op);
      var mine := Mine(p, op.sid, op.user);
      var whole := mine && Whole(p.sessions[op.sid]);
      var taken := exists g :: g in s.files && mine && Namesake(s.files[g], p.sessions[op.sid])
                               && s.files[g].trashedAt.None?;
      && (r.NotFound? <==> op.sid !in p.sessions)
      && (r.Forbidden? <==> op.sid in p.sessions && !mine)
      && (r.Missing? <==> mine && !whole)
      && (r.Missing? ==> ListsAbsent(p.sessions[op.sid], r.indexes))
      && (r.BadRequest? <==> whole && !Printable(p.sessions[op.sid].name))
      && (r.Conflict? <==> whole && Printable(p.sessions[op.sid].name) && taken)
      && (r.ServerError? <==> whole && Printable(p.sessions[op.sid].name) && !taken
                              && Unfilable(s, p.sessions[op.sid], op.f, op.m))
      && (r.Completed? <==> whole && Printable(p.sessions[op.sid].name) && !taken
                            && !Unfilable(s, p.sessions[op.sid], op.f, op.m))
  {
    var s, p := Run(cfg, ops), Promises(cfg, ops);
    Behind(cfg, ops, op.sid);
    Reached(cfg, ops);
    if Mine(p, op.sid, op.user) {
      var session, ideal := s.sessions[op.sid], p.sessions[op.sid];
      AllParts(session, ideal);
      MissingLaw(session.chunks, session.total);
      MissingAscends(session.chunks, session.total);
      NameIs(session.name);
      FilingIs(s, session, ideal, op.f, op.m, op.now);
    }
  }

  lemma NameIs(name: string)
    ensures ValidName(name) <==> Printable(name)
  {
    forall i | 0 <= i < |name| ensures name[i] in name {}
  }

  /** The constraints of the tables on the rows of a completed upload. */
  lemma FilingIs(s: Store, session: Session, ideal: IdealSession, f: FileId, m: ManifestId, now: Time)
    requires Linked(s) && SameUpload(session, ideal)
    ensures var row := FileRow(session.user, session.parent, session.name, FileKind, session.size, None, None, 1);
      var manifest := Manifest(f, 1, session.size, Gather(session.chunkHashes, session.total), now);
      FileAdmissible(s, f, row) && ManifestAdmissible(s.(files := s.files[f := row]), m, manifest)
      <==> !Unfilable(s, ideal, f, m)
  {}

  /** What a completed upload leaves: the announced file, linked to its manifest. */
  lemma CompletedRows(cfg: Config, ops: seq<Op>, op: Op)
    requires Injective(cfg.sha) && PushedRun(cfg, ops) && op.OpCompleteUpload? && AnswerTo(cfg, ops, op).Completed?
    ensures op.sid in Promises(cfg, ops).sessions
    ensures var s, t := Run(cfg, ops), Step(cfg, Run(cfg, ops), op).0;
      var ideal := Promises(cfg, ops).sessions[op.sid];
      && op.f in t.files && op.m in t.manifests
      && t.files == s.files[op.f := t.files[op.f]] && t.manifests == s.manifests[op.m := t.manifests[op.m]]
      && Namesake(t.files[op.f], ideal) && t.files[op.f].kind.FileKind? && t.files[op.f].size == ideal.size
      && t.files[op.f].manifest == Some(op.m) && t.files[op.f].trashedAt.None? && t.files[op.f].version == 1
      && t.manifests[op.m].file == op.f && t.manifests[op.m].version == 1 && t.manifests[op.m].size == ideal.size
      && t.manifests[op.m].createdAt == op.now
      && t.sessions == s.sessions - {op.sid} && t.chunks == s.chunks && t.blobs == s.blobs
  {
    Behind(cfg, ops, op.sid);
  }

  /** An upload is cancelled by the user who opened it, whenever. */
  lemma CancelAnswers(cfg: Config, ops: seq<Op>, op: Op)
    requires Injective(cfg.sha) && PushedRun(cfg, ops) && op.OpCancelUpload?
    ensures var p, r := Promises(cfg, ops), AnswerTo(cfg, ops, op);
      && (r.NotFound? <==> op.sid !in p.sessions)
      && (r.Forbidden? <==> op.sid in p.sessions && !Mine(p, op.sid, op.user))
      && (r.Done? <==> Mine(p, op.sid, op.user))
  {
    Behind(cfg, ops, op.sid);
  }

  // --- Ending ---------------------------------------------------------------------------

  lemma RunSnoc(cfg: Config, ops: seq<Op>, op: Op)
    ensures Run(cfg, ops + [op]) == Step(cfg, Run(cfg, ops), op).0
    ensures Promises(cfg, ops + [op]) == Promised(Promises(cfg, ops), Run(cfg, ops), op, AnswerTo(cfg, ops, op))
    ensures PushedRun(cfg, ops + [op]) <==> PushedRun(cfg, ops) && Pushed(Run(cfg, ops), op)
  {
    assert (ops + [op])[..|ops|] == ops;
  }

  /** An upload ends when its user completes or cancels it, and when a cleanup finds
      it a day old; nothing else ends it. */
  lemma UploadEnds(cfg: Config, ops: seq<Op>, op: Op, sid: SessionId)
    requires Injective(cfg.sha) && PushedRun(cfg, ops + [op]) && sid in Run(cfg, ops).sessions
    ensures sid in Promises(cfg, ops).sessions
    ensures var ideal := Promises(cfg, ops).sessions[sid];
      sid !in Run(cfg, ops + [op]).sessions <==>
        || (op.OpCompleteUpload? && op.sid == sid && op.user == ideal.user && AnswerTo(cfg, ops, op).Completed?)
        || (op.OpCancelUpload? && op.sid == sid && op.user == ideal.user)
        || (op.OpCleanupExpired? && op.now > ideal.created + 86400)
  {
    RunSnoc(cfg, ops, op);
    Behind(cfg, ops, sid);
    Behind(cfg, ops + [op], sid);
    if op.OpCompleteUpload? { CompleteAnswers(cfg, ops, op); }
  }

  // --- Where the bytes come from -----------------------------------------------------------

  /** Step k opened this upload. */
  ghost predicate Opened(cfg: Config, ops: seq<Op>, k: nat, sid: SessionId, ideal: IdealSession)
    requires k < |ops|
  {
    && ops[k] == OpCreateUpload(ideal.user, sid, ideal.parent, ideal.name, ideal.size, ideal.created)
    && AnswerTo(cfg, ops[..k], ops[k]).Created?
  }

  /** Step j sent part i, in time. */
  ghost predicate Sent(cfg: Config, ops: seq<Op>, j: nat, sid: SessionId, ideal: IdealSession, i: nat)
    requires j < |ops|
  {
    && ops[j].OpUploadChunk? && ops[j].sid == sid && ops[j].user == ideal.user && ops[j].index == i
    && i in ideal.parts && ideal.parts[i] == Part(ops[j].body) && ops[j].body != []
    && ops[j].now <= ideal.created + 86400
    && AnswerTo(cfg, ops[..j], ops[j]).Uploaded?
  }

  /** The upload was opened at step k and every part of it was sent later. */
  ghost predicate Traced(cfg: Config, ops: seq<Op>, k: nat, sid: SessionId, ideal: IdealSession)
    requires k < |ops|
  {
    Opened(cfg, ops, k, sid, ideal) && forall i :: i in ideal.parts ==> SentAfter(cfg, ops, k, sid, ideal, i)
  }

  ghost predicate SentAfter(cfg: Config, ops: seq<Op>, k: nat, sid: SessionId, ideal: IdealSession, i: nat) {
    exists j :: k < j < |ops| && Sent(cfg, ops, j, sid, ideal, i)
  }

  lemma TracedOn(cfg: Config, ops: seq<Op>, op: Op, k: nat, sid: SessionId, ideal: IdealSession)
    requires k < |ops| && Traced(cfg, ops, k, sid, ideal)
    ensures Traced(cfg, ops + [op], k, sid, ideal)
  {
    assert (ops + [op])[..k] == ops[..k];
    forall i | i in ideal.parts ensures SentAfter(cfg, ops + [op], k, sid, ideal, i) {
      SentOn(cfg, ops, op, k, sid, ideal, ideal, i);
    }
  }

  /** A part sent earlier stays sent when the upload gains others. */
  lemma SentOn(cfg: Config, ops: seq<Op>, op: Op, k: nat, sid: SessionId, before: IdealSession, ideal: IdealSession,
               i: nat)
    requires SentAfter(cfg, ops, k, sid, before, i)
    requires ideal == before.(parts := ideal.parts) && i in before.parts && i in ideal.parts
      && ideal.parts[i] == before.parts[i]
    ensures SentAfter(cfg, ops + [op], k, sid, ideal, i)
  {
    var j :| k < j < |ops| && Sent(cfg, ops, j, sid, before, i);
    assert (ops + [op])[..j] == ops[..j];
    assert Sent(cfg, ops + [op], j, sid, ideal, i);
  }

  lemma TracedPart(cfg: Config, ops: seq<Op>, op: Op, k: nat, before: IdealSession)
    requires k < |ops| && op.OpUploadChunk? && op.index >= 0 && Traced(cfg, ops, k, op.sid, before)
    requires op.user == before.user && op.body != [] && op.now <= before.created + 86400
    requires AnswerTo(cfg, ops, op).Uploaded?
    ensures Traced(cfg, ops + [op], k, op.sid, before.(parts := before.parts[op.index := Part(op.body)]))
  {
    var ideal := before.(parts := before.parts[op.index := Part(op.body)]);
    assert (ops + [op])[..k] == ops[..k] && (ops + [op])[..|ops|] == ops;
    forall i | i in ideal.parts ensures SentAfter(cfg, ops + [op], k, op.sid, ideal, i) {
      if i == op.index {
        assert Sent(cfg, ops + [op], |ops|, op.sid, ideal, i);
      } else {
        SentOn(cfg, ops, op, k, op.sid, before, ideal, i);
      }
    }
  }

  /** Every open upload was opened by its user with its name and size, and every
      part it holds was sent by that user, afterwards and in time. */
  lemma {:induction false} UploadTraced(cfg: Config, ops: seq<Op>, sid: SessionId) returns (k: nat)
    requires Injective(cfg.sha) && PushedRun(cfg, ops) && sid in Promises(cfg, ops).sessions
    ensures k < |ops| && Traced(cfg, ops, k, sid, Promises(cfg, ops).sessions[sid])
  {
    var before, op := ops[..|ops| - 1], ops[|ops| - 1];
    var p, q := Promises(cfg, before), Promises(cfg, ops);
    assert ops == before + [op];
    RunSnoc(cfg, before, op);
    if op.OpCreateUpload? && op.sid == sid && AnswerTo(cfg, before, op).Created? {
      k := |before|;
      assert Opened(cfg, ops, k, sid, q.sessions[sid]);
    } else {
      assert sid in p.sessions;
      k := UploadTraced(cfg, before, sid);
      if op.OpUploadChunk? && op.sid == sid && AnswerTo(cfg, before, op).Uploaded? {
        UploadAnswers(cfg, before, op);
        TracedPart(cfg, before, op, k, p.sessions[sid]);
      } else {
        assert q.sessions[sid] == p.sessions[sid];
        TracedOn(cfg, before, op, k, sid, p.sessions[sid]);
      }
    }
  }

  /** Main result: a completed file is downloaded as the concatenation of parts that
      its own user sent after opening the upload and within a day, one for every
      index the announced size needs; no part is missing. */
  lemma CompletedFile(cfg: Config, ops: seq<Op>, op: Op) returns (k: nat)
    requires Injective(cfg.sha) && PushedRun(cfg, ops) && op.OpCompleteUpload? && AnswerTo(cfg, ops, op).Completed?
    ensures op.sid in Promises(cfg, ops).sessions
    ensures var ideal := Promises(cfg, ops).sessions[op.sid];
      && k < |ops| && Traced(cfg, ops, k, op.sid, ideal) && ideal.user == op.user
      && (forall i: nat :: i in ideal.parts <==> i * 4194304 < ideal.size)
      && Download(Run(cfg, ops + [op]), op.f) == Some(Joined(ideal.parts, |ideal.parts|))
  {
    AllPartsThere(cfg, ops, op);
    k := UploadTraced(cfg, ops, op.sid);
    RunSnoc(cfg, ops, op);
    Durability(cfg, ops + [op], op.f);
  }

  lemma AllPartsThere(cfg: Config, ops: seq<Op>, op: Op)
    requires Injective(cfg.sha) && PushedRun(cfg, ops) && op.OpCompleteUpload? && AnswerTo(cfg, ops, op).Completed?
    ensures Mine(Promises(cfg, ops), op.sid, op.user) && AnswerTo(cfg, ops, op).file == op.f
    ensures var ideal := Promises(cfg, ops).sessions[op.sid];
      forall i: nat :: i in ideal.parts <==> i * 4194304 < ideal.size
  {
    Behind(cfg, ops, op.sid);
    CompleteAnswers(cfg, ops, op);
    var ideal := Promises(cfg, ops).sessions[op.sid];
    AllParts(Run(cfg, ops).sessions[op.sid], ideal);
    forall i: nat ensures i in ideal.parts <==> InRange(ideal, i) {}
  }
}
