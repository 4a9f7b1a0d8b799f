/** Chunks encrypted under a per-file key. */
module Encrypted {
  // internal/chunk/encrypted.go: blobs are stored under the digest of the
  // plaintext, so files share and overwrite them.

  import opened Common
  import opened Greedy
  import opened Chunker

  type Key = Bytes
  type Nonce = Bytes

  const KEY_SIZE: nat := 32

  /** The block cipher, for keys of the right size. */
  datatype Cipher = Cipher(seal: (Bytes, Key, Nonce) -> Bytes, open: (Bytes, Key) -> Option<Bytes>)

  /** Opening undoes sealing, whatever the nonce. */
  ghost predicate Correct(cipher: Cipher) {
    forall p, k, n :: cipher.open(cipher.seal(p, k, n), k) == Some(p)
  }

  /** A sealed text opens under no other key. */
  ghost predicate Authentic(cipher: Cipher) {
    forall p, k, n, other :: other != k ==> cipher.open(cipher.seal(p, k, n), other) == None
  }

  /** A digest that names one text and is never empty. */
  ghost predicate Digest(sha: Bytes -> Hash) {
    Injective(sha) && forall p :: sha(p) != ""
  }

  method Encrypt(cipher: Cipher, plaintext: Bytes, key: Key, nonce: Nonce) returns (r: Option<Bytes>)
    ensures r == if |key| == KEY_SIZE then Some(cipher.seal(plaintext, key, nonce)) else None
  {
    if |key| != KEY_SIZE { return None; }
    r := Some(cipher.seal(plaintext, key, nonce));
  }

  function Decrypt(cipher: Cipher, ciphertext: Bytes, key: Key): Option<Bytes> {
    if |key| != KEY_SIZE then None else cipher.open(ciphertext, key)
  }

  // --- Storing -------------------------------------------------------------------

  datatype Manifest = Manifest(id: string, fileId: string, size: nat, chunks: seq<ChunkInfo>)

  class Backend {
    var blobs: map<Hash, Bytes>

    method Put(h: Hash, data: Bytes)
      modifies this
      ensures blobs == old(blobs)[h := data]
    {
      blobs := blobs[h := data];
    }
  }

  ghost function Sealed(cipher: Cipher, pieces: seq<Bytes>, key: Key, nonces: nat -> Nonce): (r: seq<Bytes>)
    ensures |r| == |pieces|
  {
    seq(|pieces|, i requires 0 <= i < |pieces| => cipher.seal(pieces[i], key, nonces(i)))
  }

  /** The blobs after storing each piece under its digest, in order. */
  ghost function PutAll(blobs: map<Hash, Bytes>, sha: Bytes -> Hash, pieces: seq<Bytes>, data: seq<Bytes>)
    : map<Hash, Bytes>
    requires |pieces| == |data|
  {
    if pieces == [] then blobs else
      var k := |pieces| - 1;
      PutAll(blobs, sha, pieces[..k], data[..k])[sha(pieces[k]) := data[k]]
  }

  method ChunkEncrypted(c: Chunker, cipher: Cipher, sha: Bytes -> Hash, r: Reader, key: Key, nonces: nat -> Nonce)
    returns (result: Option<(seq<ChunkInfo>, seq<Bytes>)>)
    requires c.Usable()
    ensures var pieces := Pieces(c.Cut(), Flatten(r.batches));
      result == if r.failed || (pieces != [] && |key| != KEY_SIZE) then None
                else Some((Infos(sha, pieces), Sealed(cipher, pieces, key, nonces)))
  {
    var chunked := ChunkWithData(c, sha, r);
    if chunked.None? { return None; }
    var (infos, pieces) := chunked.value;
    var encrypted := [];
    for i := 0 to |pieces|
      invariant |key| == KEY_SIZE || i == 0
      invariant encrypted == Sealed(cipher, pieces, key, nonces)[..i]
    {
      var sealed := Encrypt(cipher, pieces[i], key, nonces(i));
      if sealed.None? { return None; }
      encrypted := encrypted + [sealed.value];
    }
    assert encrypted == Sealed(cipher, pieces, key, nonces);
    result := Some((infos, encrypted));
  }

  method NewManifest(id: string, fileId: string, chunks: seq<ChunkInfo>) returns (m: Manifest)
    ensures m == Manifest(id, fileId, TotalSize(chunks), chunks)
  {
    var total := 0;
    for i := 0 to |chunks|
      invariant total == TotalSize(chunks[..i])
    {
      assert chunks[..i + 1][..i] == chunks[..i];
      total := total + chunks[i].size;
    }
    assert chunks[..|chunks|] == chunks;
    m := Manifest(id, fileId, total, chunks);
  }

  function TotalSize(chunks: seq<ChunkInfo>): nat {
    if chunks == [] then 0 else TotalSize(chunks[..|chunks| - 1]) + chunks[|chunks| - 1].size
  }

  lemma PutAllSnoc(blobs: map<Hash, Bytes>, sha: Bytes -> Hash, pieces: seq<Bytes>, data: seq<Bytes>, i: nat)
    requires |pieces| == |data| && i < |pieces|
    ensures PutAll(blobs, sha, pieces[..i + 1], data[..i + 1])
      == PutAll(blobs, sha, pieces[..i], data[..i])[sha(pieces[i]) := data[i]]
  {
    assert pieces[..i + 1][..i] == pieces[..i] && data[..i + 1][..i] == data[..i];
  }

  method StoreChunks(store: Backend, infos: seq<ChunkInfo>, data: seq<Bytes>, ghost sha: Bytes -> Hash,
                     ghost pieces: seq<Bytes>, puts: Writer) returns (ok: bool)
    requires |infos| == |data| == |pieces|
    requires forall i :: 0 <= i < |infos| ==> infos[i].hash == sha(pieces[i])
    modifies store
    ensures var m := Accepted(puts, |pieces|);
      && (ok <==> m == |pieces|)
      && store.blobs == PutAll(old(store.blobs), sha, pieces[..m], data[..m])
  {
    for i := 0 to |infos|
      invariant store.blobs == PutAll(old(store.blobs), sha, pieces[..i], data[..i])
      invariant forall k :: 0 <= k < i ==> puts(k)
    {
      if !puts(i) {
        AcceptedIs(puts, |pieces|, i);
        return false;
      }
      PutAllSnoc(old(store.blobs), sha, pieces, data, i);
      store.Put(infos[i].hash, data[i]);
    }
    AcceptedIs(puts, |pieces|, |pieces|);
    ok := true;
  }

  /** Nothing is stored unless every chunk could be sealed; a manifest is returned
      when every chunk could be stored and an id for it could be drawn. */
  method EncryptAndStore(store: Backend, c: Chunker, cipher: Cipher, sha: Bytes -> Hash, r: Reader,
                         id: Option<string>, fileId: string, key: Key, nonces: nat -> Nonce, puts: Writer)
    returns (result: Option<Manifest>)
    requires c.Usable()
    modifies store
    ensures var pieces := Pieces(c.Cut(), Flatten(r.batches));
      var sealed := Sealed(cipher, pieces, key, nonces);
      var m := Accepted(puts, |pieces|);
      if r.failed || (pieces != [] && |key| != KEY_SIZE) then
        result == None && store.blobs == old(store.blobs)
      else
        && store.blobs == PutAll(old(store.blobs), sha, pieces[..m], sealed[..m])
        && result == if m < |pieces| || id.None? then None
                     else Some(Manifest(id.value, fileId, TotalSize(Infos(sha, pieces)), Infos(sha, pieces)))
  {
    var sealed := ChunkEncrypted(c, cipher, sha, r, key, nonces);
    if sealed.None? { return None; }
    var (infos, data) := sealed.value;
    var stored := StoreChunks(store, infos, data, sha, Pieces(c.Cut(), Flatten(r.batches)), puts);
    if !stored || id.None? { return None; }
    var manifest := NewManifest(id.value, fileId, infos);
    result := Some(manifest);
  }

  // --- Reading back ----------------------------------------------------------------

  predicate ValidManifest(m: Manifest) {
    && m.id != "" && m.fileId != "" && |m.chunks| > 0
    && forall i :: 0 <= i < |m.chunks| ==> m.chunks[i].hash != "" && m.chunks[i].size > 0
  }

  /** The text of one chunk, if it can be fetched, opened and has its recorded size. */
  function ChunkText(cipher: Cipher, blobs: map<Hash, Bytes>, key: Key, chunk: ChunkInfo): Option<Bytes> {
    if chunk.hash !in blobs then None else
      var plaintext := Decrypt(cipher, blobs[chunk.hash], key);
      if plaintext.Some? && |plaintext.value| == chunk.size then plaintext else None
  }

  /** The texts of the chunks up to the first that cannot be read. */
  ghost function Texts(cipher: Cipher, blobs: map<Hash, Bytes>, key: Key, chunks: seq<ChunkInfo>): (r: seq<Bytes>)
    ensures |r| <= |chunks|
    ensures forall i :: 0 <= i < |r| ==> ChunkText(cipher, blobs, key, chunks[i]) == Some(r[i])
    ensures |r| < |chunks| ==> ChunkText(cipher, blobs, key, chunks[|r|]) == None
  {
    if chunks == [] then [] else
      var k := |chunks| - 1;
      var before := Texts(cipher, blobs, key, chunks[..k]);
      var text := ChunkText(cipher, blobs, key, chunks[k]);
      if |before| == k && text.Some? then before + [text.value] else before
  }

  /** The blob of a chunk opens under the key to a text of the recorded size. */
  predicate Opens(cipher: Cipher, blobs: map<Hash, Bytes>, key: Key, chunk: ChunkInfo) {
    chunk.hash != "" && chunk.hash in blobs && |key| == 32 && cipher.open(blobs[chunk.hash], key).Some?
    && |cipher.open(blobs[chunk.hash], key).value| == chunk.size > 0
  }

  /** Texts for all chunks have the recorded sizes. */
  lemma TextsOpen(cipher: Cipher, blobs: map<Hash, Bytes>, key: Key, chunks: seq<ChunkInfo>)
    requires |Texts(cipher, blobs, key, chunks)| == |chunks|
    requires forall i :: 0 <= i < |chunks| ==> chunks[i].hash != "" && chunks[i].size > 0
    ensures |Flatten(Texts(cipher, blobs, key, chunks))| == TotalSize(chunks)
    ensures forall chunk :: chunk in chunks ==> Opens(cipher, blobs, key, chunk)
  {
    var texts := Texts(cipher, blobs, key, chunks);
    forall i | 0 <= i < |chunks| ensures |texts[i]| == chunks[i].size && Opens(cipher, blobs, key, chunks[i]) {
      assert ChunkText(cipher, blobs, key, chunks[i]) == Some(texts[i]);
    }
    SizesOf(texts, chunks);
  }

  lemma {:induction false} SizesOf(texts: seq<Bytes>, chunks: seq<ChunkInfo>)
    requires |texts| == |chunks| && forall i :: 0 <= i < |chunks| ==> |texts[i]| == chunks[i].size
    ensures |Flatten(texts)| == TotalSize(chunks)
  {
    if chunks != [] {
      var k := |chunks| - 1;
      assert texts == texts[..k] + [texts[k]];
      FlattenSnoc(texts[..k], texts[k]);
      SizesOf(texts[..k], chunks[..k]);
    }
  }

  /** Writes the texts of the chunks up to the first that cannot be read or
      written; succeeds when that is everything. */
  method ReassembleDecrypt(store: Backend, cipher: Cipher, m: Manifest, key: Key, w: Writer)
    returns (written: Bytes, ok: bool)
    ensures !ValidManifest(m) ==> written == [] && !ok
    ensures var texts := Texts(cipher, store.blobs, key, m.chunks);
      && (ValidManifest(m) ==> written == Flatten(texts[..Accepted(w, |texts|)]))
      && (ok <==> ValidManifest(m) && |texts| == |m.chunks| && Accepted(w, |texts|) == |texts|)
    ensures ok ==> |written| == TotalSize(m.chunks) && m.id != "" && m.fileId != "" && m.chunks != []
    ensures ok ==> forall chunk :: chunk in m.chunks ==> Opens(cipher, store.blobs, key, chunk)
  {
    written := [];
    if !ValidManifest(m) { return written, false; }
    ghost var texts := Texts(cipher, store.blobs, key, m.chunks);
    for i := 0 to |m.chunks|
      invariant i <= |texts| && written == Flatten(texts[..i])
      invariant forall k :: 0 <= k < i ==> w(k)
    {
      if i == |texts| { AcceptedIs(w, i, i); }
      var chunk := m.chunks[i];
      if chunk.hash !in store.blobs { return written, false; }
      var plaintext := Decrypt(cipher, store.blobs[chunk.hash], key);
      if plaintext.None? { return written, false; }
      if |plaintext.value| != chunk.size { return written, false; }
      if !w(i) {
        AcceptedIs(w, |texts|, i);
        return written, false;
      }
      assert texts[..i + 1] == texts[..i] + [texts[i]];
      FlattenSnoc(texts[..i], texts[i]);
      written := written + plaintext.value;
    }
    AcceptedIs(w, |texts|, |texts|);
    assert texts[..|texts|] == texts;
    TextsOpen(cipher, store.blobs, key, m.chunks);
    ok := true;
  }

  // --- Runs of uploads ------------------------------------------------------------

  /** One call of EncryptAndStore. */
  datatype Upload = Upload(stream: Bytes, key: Key, nonces: nat -> Nonce)

  ghost function PiecesOf(c: Chunker, up: Upload): seq<Bytes>
    requires c.Valid()
  {
    Pieces(c.Cut(), up.stream)
  }

  /** The blobs after one upload; a key of the wrong size stores nothing. */
  ghost function After(c: Chunker, cipher: Cipher, sha: Bytes -> Hash, blobs: map<Hash, Bytes>, up: Upload)
    : map<Hash, Bytes>
    requires c.Valid()
  {
    var pieces := PiecesOf(c, up);
    if |up.key| != KEY_SIZE then blobs
    else PutAll(blobs, sha, pieces, Sealed(cipher, pieces, up.key, up.nonces))
  }

  ghost function Run(c: Chunker, cipher: Cipher, sha: Bytes -> Hash, blobs: map<Hash, Bytes>,
                     ups: seq<Upload>): map<Hash, Bytes>
    requires c.Valid()
  {
    if ups == [] then blobs
    else After(c, cipher, sha, Run(c, cipher, sha, blobs, ups[..|ups| - 1]), ups[|ups| - 1])
  }

  /** The key of the last upload that wrote a chunk. */
  ghost function LastKey(c: Chunker, ups: seq<Upload>, piece: Bytes): Option<Key>
    requires c.Valid()
  {
    if ups == [] then None else
      var up := ups[|ups| - 1];
      if |up.key| == KEY_SIZE && piece in PiecesOf(c, up) then Some(up.key)
      else LastKey(c, ups[..|ups| - 1], piece)
  }

  ghost function ManifestOf(c: Chunker, sha: Bytes -> Hash, up: Upload, id: string, fileId: string): Manifest
    requires c.Valid()
  {
    var infos := Infos(sha, PiecesOf(c, up));
    Manifest(id, fileId, TotalSize(infos), infos)
  }

  /** Whether the blob of a piece holds that piece sealed under a key. */
  ghost predicate Holds(cipher: Cipher, sha: Bytes -> Hash, blobs: map<Hash, Bytes>, piece: Bytes, key: Key) {
    sha(piece) in blobs && exists nonce :: blobs[sha(piece)] == cipher.seal(piece, key, nonce)
  }

  lemma {:induction false} PutAllHolds(cipher: Cipher, sha: Bytes -> Hash, blobs: map<Hash, Bytes>, pieces: seq<Bytes>,
                                       key: Key, nonces: nat -> Nonce, piece: Bytes)
    requires Injective(sha)
    ensures var after := PutAll(blobs, sha, pieces, Sealed(cipher, pieces, key, nonces));
            && (piece in pieces ==> Holds(cipher, sha, after, piece, key))
            && (piece !in pieces ==> (sha(piece) in after <==> sha(piece) in blobs))
            && (piece !in pieces && sha(piece) in blobs ==> after[sha(piece)] == blobs[sha(piece)])
  {
    if pieces != [] {
      var k := |pieces| - 1;
      PutAllHolds(cipher, sha, blobs, pieces[..k], key, nonces, piece);
      var data := Sealed(cipher, pieces, key, nonces);
      assert data[..k] == Sealed(cipher, pieces[..k], key, nonces);
      assert pieces == pieces[..k] + [pieces[k]];
      if piece == pieces[k] {
        assert data[k] == cipher.seal(piece, key, nonces(k));
      }
    }
  }

  /** Each blob holds its text, sealed under the key that wrote it last. */
  lemma {:induction false} RunHolds(c: Chunker, cipher: Cipher, sha: Bytes -> Hash, blobs: map<Hash, Bytes>,
                                    ups: seq<Upload>, piece: Bytes)
    requires c.Valid() && Injective(sha)
    ensures LastKey(c, ups, piece).Some? ==>
              Holds(cipher, sha, Run(c, cipher, sha, blobs, ups), piece, LastKey(c, ups, piece).value)
  {
    if ups != [] {
      var k := |ups| - 1;
      RunHolds(c, cipher, sha, blobs, ups[..k], piece);
      var before := Run(c, cipher, sha, blobs, ups[..k]);
      PutAllHolds(cipher, sha, before, PiecesOf(c, ups[k]), ups[k].key, ups[k].nonces, piece);
    }
  }

  lemma {:induction false} WrittenOnce(c: Chunker, ups: seq<Upload>, i: nat, piece: Bytes)
    requires c.Valid() && i < |ups| && |ups[i].key| == KEY_SIZE && piece in PiecesOf(c, ups[i])
    ensures LastKey(c, ups, piece).Some? && |LastKey(c, ups, piece).value| == KEY_SIZE
  {
    var k := |ups| - 1;
    if i < k { WrittenOnce(c, ups[..k], i, piece); }
    LastKeySize(c, ups, piece);
  }

  lemma {:induction false} LastKeySize(c: Chunker, ups: seq<Upload>, piece: Bytes)
    requires c.Valid()
    ensures LastKey(c, ups, piece).Some? ==> |LastKey(c, ups, piece).value| == KEY_SIZE
  {
    if ups != [] { LastKeySize(c, ups[..|ups| - 1], piece); }
  }

  ghost predicate KeptByOwnKey(c: Chunker, ups: seq<Upload>, i: nat)
    requires c.Valid() && i < |ups|
  {
    forall piece :: piece in PiecesOf(c, ups[i]) ==> LastKey(c, ups, piece) == Some(ups[i].key)
  }

  /** What reading the manifest of upload i yields after the whole run. */
  ghost function ReadBack(c: Chunker, cipher: Cipher, sha: Bytes -> Hash, blobs: map<Hash, Bytes>, ups: seq<Upload>,
                          i: nat): seq<Bytes>
    requires c.Valid() && i < |ups|
  {
    Texts(cipher, Run(c, cipher, sha, blobs, ups), ups[i].key, Infos(sha, PiecesOf(c, ups[i])))
  }

  /** A chunk reads back when its own key wrote it last. */
  lemma OwnChunk(c: Chunker, cipher: Cipher, sha: Bytes -> Hash, blobs: map<Hash, Bytes>, ups: seq<Upload>, i: nat,
                 j: nat)
    requires c.Valid() && Digest(sha) && Correct(cipher)
    requires i < |ups| && |ups[i].key| == KEY_SIZE && j < |PiecesOf(c, ups[i])|
    requires LastKey(c, ups, PiecesOf(c, ups[i])[j]) == Some(ups[i].key)
    ensures ChunkText(cipher, Run(c, cipher, sha, blobs, ups), ups[i].key, Infos(sha, PiecesOf(c, ups[i]))[j])
            == Some(PiecesOf(c, ups[i])[j])
  {
    RunHolds(c, cipher, sha, blobs, ups, PiecesOf(c, ups[i])[j]);
  }

  /** A chunk that another key wrote last does not. */
  lemma ForeignChunk(c: Chunker, cipher: Cipher, sha: Bytes -> Hash, blobs: map<Hash, Bytes>, ups: seq<Upload>, i: nat,
                     j: nat)
    requires c.Valid() && Digest(sha) && Authentic(cipher)
    requires i < |ups| && |ups[i].key| == KEY_SIZE && j < |PiecesOf(c, ups[i])|
    requires LastKey(c, ups, PiecesOf(c, ups[i])[j]) != Some(ups[i].key)
    ensures ChunkText(cipher, Run(c, cipher, sha, blobs, ups), ups[i].key, Infos(sha, PiecesOf(c, ups[i]))[j]) == None
  {
    WrittenOnce(c, ups, i, PiecesOf(c, ups[i])[j]);
    RunHolds(c, cipher, sha, blobs, ups, PiecesOf(c, ups[i])[j]);
  }

  lemma ReadsBack(c: Chunker, cipher: Cipher, sha: Bytes -> Hash, blobs: map<Hash, Bytes>, ups: seq<Upload>, i: nat)
    requires c.Valid() && Digest(sha) && Correct(cipher)
    requires i < |ups| && |ups[i].key| == KEY_SIZE && KeptByOwnKey(c, ups, i)
    ensures ReadBack(c, cipher, sha, blobs, ups, i) == PiecesOf(c, ups[i])
  {
    var pieces, texts := PiecesOf(c, ups[i]), ReadBack(c, cipher, sha, blobs, ups, i);
    forall j | 0 <= j < |pieces|
      ensures ChunkText(cipher, Run(c, cipher, sha, blobs, ups), ups[i].key, Infos(sha, pieces)[j]) == Some(pieces[j])
    {
      OwnChunk(c, cipher, sha, blobs, ups, i, j);
    }
    assert |texts| == |pieces|;
  }

  /** Main result: after any run of uploads under any keys, the i-th file reads
      back in full exactly when each of its chunks was last written under its own
      key, and what then comes back is the file. */
  lemma ReadableIff(c: Chunker, cipher: Cipher, sha: Bytes -> Hash, blobs: map<Hash, Bytes>, ups: seq<Upload>, i: nat)
    requires c.Valid() && Digest(sha) && Correct(cipher) && Authentic(cipher)
    requires i < |ups| && |ups[i].key| == KEY_SIZE
    ensures var texts := ReadBack(c, cipher, sha, blobs, ups, i);
            && (|texts| == |PiecesOf(c, ups[i])| <==> KeptByOwnKey(c, ups, i))
            && (|texts| == |PiecesOf(c, ups[i])| ==> Flatten(texts) == ups[i].stream)
  {
    if KeptByOwnKey(c, ups, i) {
      ReadsBack(c, cipher, sha, blobs, ups, i);
      ChunkSizes(c, ups[i].stream);
    } else {
      var piece :| piece in PiecesOf(c, ups[i]) && LastKey(c, ups, piece) != Some(ups[i].key);
      var j :| 0 <= j < |PiecesOf(c, ups[i])| && PiecesOf(c, ups[i])[j] == piece;
      ForeignChunk(c, cipher, sha, blobs, ups, i, j);
    }
  }

  /** The manifest of an upload passes validation exactly when the file is not
      empty and both names are given. */
  lemma ManifestAccepted(c: Chunker, sha: Bytes -> Hash, up: Upload, id: string, fileId: string)
    requires c.Valid() && Digest(sha)
    ensures ValidManifest(ManifestOf(c, sha, up, id, fileId)) <==> id != "" && fileId != "" && up.stream != []
  {
    ChunkSizes(c, up.stream);
    if up.stream != [] { assert PiecesOf(c, up) != []; }
  }

  lemma {:induction false} SameKey(c: Chunker, ups: seq<Upload>, piece: Bytes, key: Key)
    requires c.Valid() && forall k :: 0 <= k < |ups| ==> ups[k].key == key
    ensures LastKey(c, ups, piece).Some? ==> LastKey(c, ups, piece).value == key
  {
    if ups != [] { SameKey(c, ups[..|ups| - 1], piece, key); }
  }

  /** The round trip: under one key every nonempty file is accepted and reads back
      to its bytes, whatever chunks it shares with other files of the run. */
  lemma RoundTrip(c: Chunker, cipher: Cipher, sha: Bytes -> Hash, blobs: map<Hash, Bytes>, ups: seq<Upload>, i: nat,
                  id: string, fileId: string)
    requires c.Valid() && Digest(sha) && Correct(cipher)
    requires i < |ups| && |ups[i].key| == KEY_SIZE
    requires forall k :: 0 <= k < |ups| ==> ups[k].key == ups[i].key
    requires ups[i].stream != [] && id != "" && fileId != ""
    ensures var m := ManifestOf(c, sha, ups[i], id, fileId);
            && ValidManifest(m) && m.size == |ups[i].stream|
            && |ReadBack(c, cipher, sha, blobs, ups, i)| == |m.chunks|
            && Flatten(ReadBack(c, cipher, sha, blobs, ups, i)) == ups[i].stream
  {
    forall piece | piece in PiecesOf(c, ups[i]) ensures LastKey(c, ups, piece) == Some(ups[i].key) {
      SameKey(c, ups, piece, ups[i].key);
      WrittenOnce(c, ups, i, piece);
    }
    ManifestAccepted(c, sha, ups[i], id, fileId);
    ReadsBack(c, cipher, sha, blobs, ups, i);
    ChunkSizes(c, ups[i].stream);
    SizesAdd(sha, PiecesOf(c, ups[i]));
  }

  lemma SizesAdd(sha: Bytes -> Hash, pieces: seq<Bytes>)
    ensures TotalSize(Infos(sha, pieces)) == |Flatten(pieces)|
  {
    SizesOf(pieces, Infos(sha, pieces));
  }
}
