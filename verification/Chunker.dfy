/** Content-defined chunking. */
module Chunker {
  // internal/chunk/chunker.go: the three reading loops, proved against one greedy
  // partition of the stream.

  import opened Common
  import opened Gf2
  import opened Greedy
  import opened Rabin

  type Hash = string

  datatype ChunkInfo = ChunkInfo(hash: Hash, offset: nat, size: nat)

  /** A chunker's parameters; the mask keeps the low maskBits bits. */
  datatype Chunker = Chunker(minSize: int, maxSize: int, windowSize: nat, maskBits: nat, table: Table) {
    predicate Valid() {
      windowSize > 0 && |table.outTable| == 256
    }

    /** The reading loops set a buffer of the greatest size aside first. */
    predicate Usable() {
      Valid() && maxSize >= 0
    }

    /** The cut test after a byte, given the fingerprint and the bytes buffered. */
    predicate AtBoundary(fp: nat, buffered: nat) {
      buffered >= minSize && (Low(fp, maskBits) == 0 || buffered >= maxSize)
    }

    /** The cut test as a function of the whole stream read so far. */
    ghost function Cut(): Cut
      requires Valid()
    {
      (s: Bytes, buffered: nat) => AtBoundary(Fingerprint(table, windowSize, s), buffered)
    }

    /** The least and the greatest length a cut chunk can have. */
    function Least(): nat { if minSize <= 1 then 1 else minSize }
    function Greatest(): nat { if maxSize <= Least() then Least() else maxSize }
  }

  const POLYNOMIAL: nat := 0x3DA3358B4DC173

  method NewChunker(min: int, avg: int, max: int) returns (c: Chunker)
    ensures c.Valid() && (c.Usable() <==> max >= 0)
    ensures ValidTable(c.table, 48) && c.windowSize == 48 && c.table.polynomial == POLYNOMIAL && c.table.degree == 53
    ensures c.minSize == min && c.maxSize == max
    ensures 8 <= c.maskBits
    ensures avg < Pow2(11) ==> c.maskBits == 8
    ensures avg >= Pow2(10) ==> Pow2(c.maskBits + 2) <= avg < Pow2(c.maskBits + 3)
  {
    var bits: nat := 0;
    var size := avg;
    while size > 1
      invariant size >= 1 ==> Scaled(size, avg, bits)
      invariant size < 1 ==> size == avg && bits == 0
      decreases size
    {
      ScaledHalf(size, avg, bits);
      size := size / 2;
      bits := bits + 1;
    }
    if avg >= 1 {
      assert Scaled(1, avg, bits);
      ShiftOne(bits); ShiftOne(bits + 1);
      ShiftShift(1, 1, bits);
      assert Shift(1, 1) == 2 * Shift(1, 0) == 2;
    }
    var kept := bits - 2;
    if kept < 8 { kept := 8; }
    DefaultDegree();
    var table := CreateRabinTable(POLYNOMIAL, 48);
    DegreeUnique(POLYNOMIAL, table.degree, 53);
    c := Chunker(min, max, 48, kept, table);
    if bits >= 10 && avg < Pow2(11) { if bits > 10 { Pow2Mono(11, bits); } }
    if avg >= Pow2(10) && bits < 10 { Pow2Mono(bits + 1, 10); }
  }

  /** avg shifted right `bits` times leaves size. */
  ghost predicate Scaled(size: nat, avg: int, bits: nat) {
    Shift(size, bits) <= avg < Shift(size + 1, bits)
  }

  lemma ScaledHalf(size: nat, avg: int, bits: nat)
    requires size > 1 && Scaled(size, avg, bits)
    ensures Scaled(size / 2, avg, bits + 1)
  {
    ShiftShift(size / 2, 1, bits); ShiftShift(size / 2 + 1, 1, bits);
    assert Shift(size / 2, 1) == 2 * Shift(size / 2, 0) <= size;
    assert Shift(size / 2 + 1, 1) == 2 * Shift(size / 2 + 1, 0) >= size + 1;
    ShiftAdd(Shift(size / 2, 1), size - Shift(size / 2, 1), bits);
    ShiftAdd(size + 1, Shift(size / 2 + 1, 1) - (size + 1), bits);
  }

  lemma DefaultDegree()
    ensures HasDegree(POLYNOMIAL, 53) && Pow2(8) <= POLYNOMIAL < Pow2(57)
  {
    Pow2Next8(0); Pow2Next8(8); Pow2Next8(16); Pow2Next8(24); Pow2Next8(32); Pow2Next8(40);
    assert Pow2(53) == 2 * Pow2(52) == 4 * Pow2(51) == 8 * Pow2(50) == 16 * Pow2(49) == 32 * Pow2(48);
    Pow2Mono(54, 57);
  }

  lemma DegreeUnique(p: nat, d: nat, e: nat)
    requires HasDegree(p, d) && HasDegree(p, e)
    ensures d == e
  {
    if d < e { Pow2Mono(d + 1, e); }
    if e < d { Pow2Mono(e + 1, d); }
  }

  /** Digest, running offset and size of each piece. */
  ghost function Infos(sha: Bytes -> Hash, pieces: seq<Bytes>): (r: seq<ChunkInfo>)
    ensures |r| == |pieces|
  {
    seq(|pieces|, i requires 0 <= i < |pieces| =>
      ChunkInfo(sha(pieces[i]), |Flatten(pieces[..i])|, |pieces[i]|))
  }

  lemma InfosSnoc(sha: Bytes -> Hash, pieces: seq<Bytes>, p: Bytes)
    ensures Infos(sha, pieces + [p]) ==
            Infos(sha, pieces) + [ChunkInfo(sha(p), |Flatten(pieces)|, |p|)]
  {
    var all := pieces + [p];
    assert all[..|pieces|] == pieces;
    forall i | 0 <= i < |pieces| ensures Infos(sha, all)[i] == Infos(sha, pieces)[i] {
      assert all[..i] == pieces[..i];
    }
  }

  /** Sizes: every chunk but the last lies between the two limits, the last is
      nonempty and at most the upper one, and together they are the stream. */
  lemma ChunkSizes(c: Chunker, s: Bytes)
    requires c.Valid()
    ensures var pieces := Pieces(c.Cut(), s);
      && Flatten(pieces) == s
      && (forall i :: 0 <= i < |pieces| ==> 1 <= |pieces[i]| <= c.Greatest())
      && (forall i :: 0 <= i < |pieces| - 1 ==> c.Least() <= |pieces[i]|)
  {
    var cut := c.Cut();
    PiecesBounded(cut, s, if c.minSize < 0 then 0 else c.minSize, c.Greatest());
  }

  // --- Where chunks end ----------------------------------------------------------

  /** r is the one reduced residue of the closed form of the bytes read. */
  ghost predicate Residue(t: Table, w: nat, read: Bytes, r: nat) {
    r < Pow2(t.degree) && Congruent(r, ClosedForm(w, read), t.polynomial)
  }

  /** A chunk of n bytes may end after these bytes: it is long enough, and either
      the mask bits of the residue are zero or the chunk is as long as it may be. */
  ghost predicate MayEnd(c: Chunker, read: Bytes, n: nat) {
    n >= c.minSize
    && (n >= c.maxSize
        || exists r: nat :: Residue(c.table, c.windowSize, read, r) && r % Pow2(c.maskBits) == 0)
  }

  /** Part i ends where a chunk may end, and nowhere earlier; the last part may also
      end with the stream. */
  ghost predicate EndsFirst(c: Chunker, s: Bytes, parts: seq<Bytes>, i: nat)
    requires i < |parts|
  {
    var start := |Flatten(parts[..i])|;
    var end := start + |parts[i]|;
    && start < end <= |s|
    && (forall n :: start < n < end ==> !MayEnd(c, s[..n], n - start))
    && (i < |parts| - 1 ==> MayEnd(c, s[..end], end - start))
  }

  ghost predicate ContentDefined(c: Chunker, s: Bytes, parts: seq<Bytes>) {
    Flatten(parts) == s && forall i :: 0 <= i < |parts| ==> EndsFirst(c, s, parts, i)
  }

  lemma HalfRemainder(b: nat, m: nat)
    requires m > 0
    ensures b % (2 * m) == b % 2 + 2 * ((b / 2) % m)
  {
    var q, r := (b / 2) / m, (b / 2) % m;
    assert b / 2 == q * m + r;
    assert b == q * (2 * m) + (b % 2 + 2 * r);
    assert 0 <= b % 2 + 2 * r < 2 * m;
    RemainderIs(b, q, 2 * m, b % 2 + 2 * r);
  }

  lemma RemainderIs(a: nat, q: nat, m: nat, r: nat)
    requires a == q * m + r && r < m
    ensures a % m == r
  {
    var p, rest := a / m, a % m;
    assert p * m + rest == q * m + r;
    if p < q { Apart(p, q, m); }
    if p > q { Apart(q, p, m); }
  }

  lemma Apart(p: nat, q: nat, m: nat)
    requires p < q
    ensures q * m >= p * m + m
  {
    var k := q - p - 1;
    assert q * m == (p + 1 + k) * m == p * m + m + k * m;
    NotNegative(k, m);
  }

  lemma NotNegative(k: nat, m: nat)
    ensures k * m >= 0
  {}

  /** Masking the low bits is taking the remainder. */
  lemma {:induction false} LowRemainder(b: nat, n: nat)
    ensures Low(b, n) == b % Pow2(n)
  {
    if n > 0 {
      LowRemainder(b / 2, n - 1);
      HalfRemainder(b, Pow2(n - 1));
    }
  }

  lemma ResidueUnique(t: Table, w: nat, read: Bytes, r: nat)
    requires ValidTable(t, w) && w > 0 && Residue(t, w, read, r)
    ensures r == Fingerprint(t, w, read)
  {
    var fp, form := Fingerprint(t, w, read), ClosedForm(w, read);
    FingerprintClosedForm(t, w, read);
    CongruentSymm(fp, form, t.polynomial);
    CongruentTrans(r, form, fp, t.polynomial);
    CongruentUnique(r, fp, t.polynomial, t.degree);
  }

  lemma MayEndIs(c: Chunker, read: Bytes, n: nat)
    requires c.Valid() && ValidTable(c.table, c.windowSize)
    ensures c.Cut()(read, n) <==> MayEnd(c, read, n)
  {
    var fp := Fingerprint(c.table, c.windowSize, read);
    FingerprintClosedForm(c.table, c.windowSize, read);
    LowRemainder(fp, c.maskBits);
    assert Residue(c.table, c.windowSize, read, fp);
    forall r: nat | Residue(c.table, c.windowSize, read, r) ensures r == fp {
      ResidueUnique(c.table, c.windowSize, read, r);
    }
  }

  lemma EndsFirstIs(c: Chunker, s: Bytes, parts: seq<Bytes>, i: nat)
    requires c.Valid() && ValidTable(c.table, c.windowSize) && i < |parts|
    ensures GreedyPart(c.Cut(), s, parts, i) <==> EndsFirst(c, s, parts, i)
  {
    var start := |Flatten(parts[..i])|;
    var end := start + |parts[i]|;
    forall n | start < n <= end && n <= |s| ensures CutAt(c.Cut(), s, start, n) <==> MayEnd(c, s[..n], n - start) {
      MayEndIs(c, s[..n], n - start);
    }
  }

  /** Main result on boundaries: the chunks of a stream are the one way to divide it
      so that every chunk ends at the first place where its length and the residue
      of the bytes read so far allow it. */
  lemma CutByContent(c: Chunker, s: Bytes, parts: seq<Bytes>)
    requires c.Valid() && ValidTable(c.table, c.windowSize)
    ensures parts == Pieces(c.Cut(), s) <==> ContentDefined(c, s, parts)
  {
    PiecesGreedy(c.Cut(), s);
    forall i | 0 <= i < |parts| ensures GreedyPart(c.Cut(), s, parts, i) <==> EndsFirst(c, s, parts, i) {
      EndsFirstIs(c, s, parts, i);
    }
    if ContentDefined(c, s, parts) { GreedyUnique(c.Cut(), s, parts, Pieces(c.Cut(), s), 0); }
  }

  // --- What the infos say ----------------------------------------------------------

  predicate Stretch(sha: Bytes -> Hash, s: Bytes, info: ChunkInfo) {
    info.offset + info.size <= |s| && info.hash == sha(s[info.offset..info.offset + info.size])
  }

  /** Where the next stretch starts. */
  function EndOf(infos: seq<ChunkInfo>, length: nat, i: nat): nat {
    if i + 1 < |infos| then infos[i + 1].offset else length
  }

  /** The infos give the places, lengths and digests of stretches of the stream that
      follow each other without gaps from its start to its end. */
  ghost predicate Tiles(sha: Bytes -> Hash, s: Bytes, infos: seq<ChunkInfo>) {
    && (infos != [] ==> infos[0].offset == 0)
    && forall i :: 0 <= i < |infos| ==> TilesAt(sha, s, infos, i)
  }

  ghost predicate TilesAt(sha: Bytes -> Hash, s: Bytes, infos: seq<ChunkInfo>, i: nat)
    requires i < |infos|
  {
    Stretch(sha, s, infos[i]) && infos[i].offset + infos[i].size == EndOf(infos, |s|, i)
  }

  lemma InfosTile(sha: Bytes -> Hash, pieces: seq<Bytes>)
    ensures Tiles(sha, Flatten(pieces), Infos(sha, pieces))
  {
    forall i | 0 <= i < |pieces| ensures TilesAt(sha, Flatten(pieces), Infos(sha, pieces), i) {
      InfoTiles(sha, pieces, i);
    }
  }

  lemma InfoTiles(sha: Bytes -> Hash, pieces: seq<Bytes>, i: nat)
    requires i < |pieces|
    ensures TilesAt(sha, Flatten(pieces), Infos(sha, pieces), i)
  {
    var before, after := Flatten(pieces[..i]), Flatten(pieces[..i + 1]);
    FlattenPrefix(pieces, i);
    NextTile(sha, pieces, i);
    TileAt(sha, Flatten(pieces), Infos(sha, pieces), i, pieces[i], |before|, |after|);
  }

  lemma NextTile(sha: Bytes -> Hash, pieces: seq<Bytes>, i: nat)
    requires i < |pieces|
    ensures EndOf(Infos(sha, pieces), |Flatten(pieces)|, i) == |Flatten(pieces[..i + 1])|
  {
    if i + 1 == |pieces| { assert pieces[..i + 1] == pieces; }
  }

  lemma TileAt(sha: Bytes -> Hash, s: Bytes, infos: seq<ChunkInfo>, i: nat, piece: Bytes, start: nat, end: nat)
    requires i < |infos| && infos[i] == ChunkInfo(sha(piece), start, |piece|)
    requires end == start + |piece| <= |s| && s[start..start + |piece|] == piece && EndOf(infos, |s|, i) == end
    ensures TilesAt(sha, s, infos, i)
  {}

  // --- The reading loops -------------------------------------------------------

  lemma FingerprintNext(t: Table, size: nat, s: Bytes, b: Byte)
    requires |t.outTable| == 256 && size > 0
    ensures Fingerprint(t, size, s + [b]) ==
      if |s| < size then PushByte(t, Fingerprint(t, size, s), b)
      else SlideFingerprint(t, Fingerprint(t, size, s), s[|s| - size], b)
  {
    assert (s + [b])[..|s|] == s;
  }

  lemma WindowSlides(s: Bytes, w: Bytes, b: Byte)
    requires 0 < |w| <= |s| && forall i :: 0 <= i < |w| ==> w[i] == s[|s| - |w| + i]
    ensures var moved, next := w[1..] + [b], s + [b];
      forall i :: 0 <= i < |w| ==> moved[i] == next[|next| - |w| + i]
  {
    var moved, next := w[1..] + [b], s + [b];
    forall i | 0 <= i < |w| ensures moved[i] == next[|next| - |w| + i] {
      if i < |w| - 1 { assert moved[i] == w[i + 1]; }
    }
  }

  /** The window of the last bytes read, its fill state and the fingerprint. */
  class RollingWindow {
    const table: Table
    const size: nat
    var window: array<Byte>
    var windowPos: nat
    var windowFilled: bool
    var fingerprint: nat
    ghost var seen: Bytes

    ghost predicate Valid()
      reads this, window
    {
      && |table.outTable| == 256
      && window.Length == size > 0
      && windowPos == (if |seen| < size then |seen| else size)
      && windowFilled == (windowPos == size)
      && (forall i :: 0 <= i < windowPos ==> window[i] == seen[|seen| - windowPos + i])
      && fingerprint == Fingerprint(table, size, seen)
    }

    constructor (c: Chunker)
      requires c.Valid()
      ensures Valid() && fresh(window) && seen == [] && table == c.table && size == c.windowSize
    {
      table, size := c.table, c.windowSize;
      window := new Byte[c.windowSize];
      windowPos, windowFilled, fingerprint := 0, false, 0;
      seen := [];
    }

    method Roll(b: Byte)
      requires Valid()
      modifies this, window
      ensures Valid() && window == old(window) && seen == old(seen) + [b]
    {
      if windowFilled || windowPos >= size { Slide(b); } else { Fill(b); }
    }

    /** The window is full: its first byte makes room for the new one. */
    method Slide(b: Byte)
      requires Valid() && windowPos >= size
      modifies this, window
      ensures Valid() && window == old(window) && seen == old(seen) + [b]
    {
      FingerprintNext(table, size, seen, b);
      WindowSlides(seen, window[..], b);
      var oldByte := window[0];
      fingerprint := SlideFingerprint(table, fingerprint, oldByte, b);
      Shift(b);
      seen := seen + [b];
    }

    /** Drops the first byte and appends a new one. */
    method Shift(b: Byte)
      requires window.Length > 0
      modifies window
      ensures window[..] == old(window[..])[1..] + [b]
      ensures forall i :: 0 <= i < window.Length ==> window[i] == (old(window[..])[1..] + [b])[i]
    {
      forall i | 0 <= i < window.Length - 1 { window[i] := window[i + 1]; }
      window[window.Length - 1] := b;
    }

    method Fill(b: Byte)
      requires Valid() && windowPos < size
      modifies this, window
      ensures Valid() && window == old(window) && seen == old(seen) + [b]
    {
      FingerprintNext(table, size, seen, b);
      window[windowPos] := b;
      windowPos := windowPos + 1;
      fingerprint := PushByte(table, fingerprint, b);
      seen := seen + [b];
      if windowPos == size {
        windowFilled := true;
      }
    }
  }

  /** One pass over a stream: the rolling window and the bytes buffered since
      the last cut.  `done` lists the chunks cut so far. */
  class Splitter {
    const c: Chunker
    const window: RollingWindow
    var chunkBuf: Bytes
    ghost var done: seq<Bytes>
    ghost const Repr: set<object>

    ghost predicate Valid()
      reads this, Repr
    {
      && this in Repr && window in Repr && window.window in Repr
      && window as object != this
      && c.Valid() && window.Valid()
      && window.table == c.table && window.size == c.windowSize
      && Scanned(c, window.seen, done, chunkBuf)
    }

    constructor (c: Chunker)
      requires c.Valid()
      ensures Valid() && fresh(Repr) && this.c == c
      ensures window.seen == [] && chunkBuf == [] && done == []
    {
      this.c := c;
      var w := new RollingWindow(c);
      window := w;
      chunkBuf, done := [], [];
      Repr := {this, w, w.window};
    }

    /** Takes one byte; returns the finished chunk, or nothing. */
    method Feed(b: Byte) returns (piece: Bytes)
      requires Valid()
      modifies Repr
      ensures Valid()
      ensures window.seen == old(window.seen) + [b]
      ensures piece == [] ==> done == old(done) && chunkBuf == old(chunkBuf) + [b]
      ensures piece != [] ==> done == old(done) + [piece] && piece == old(chunkBuf) + [b] && chunkBuf == []
    {
      ScanNext(c, window.seen, done, chunkBuf, b);
      chunkBuf := chunkBuf + [b];
      window.Roll(b);
      piece := [];
      if c.AtBoundary(window.fingerprint, |chunkBuf|) {
        piece := chunkBuf;
        done := done + [piece];
        chunkBuf := [];
      }
    }
  }

  /** What a reader delivers: any sequence of reads, then end of file or an error. */
  datatype Reader = Reader(batches: seq<Bytes>, failed: bool)

  lemma ReadAppend(batches: seq<Bytes>, k: nat, i: nat)
    requires k < |batches| && i <= |batches[k]|
    ensures Flatten(batches[..k + 1]) == Flatten(batches[..k]) + batches[k]
    ensures i < |batches[k]| ==> batches[k][..i + 1] == batches[k][..i] + [batches[k][i]]
  {
    assert batches[..k + 1] == batches[..k] + [batches[k]];
    FlattenSnoc(batches[..k], batches[k]);
  }

  lemma ScanSnoc(c: Chunker, s: Bytes, b: Byte)
    requires c.Valid()
    ensures ScanOf(c.Cut(), s + [b]) ==
            var buffer := ScanOf(c.Cut(), s).open + [b];
            if c.AtBoundary(Fingerprint(c.table, c.windowSize, s + [b]), |buffer|)
            then Scan(ScanOf(c.Cut(), s).done + [buffer], [])
            else Scan(ScanOf(c.Cut(), s).done, buffer)
  {
    assert (s + [b])[..|s|] == s;
  }

  /** These pieces were finished and this one is open after the bytes read. */
  ghost predicate Scanned(c: Chunker, read: Bytes, done: seq<Bytes>, open: Bytes)
    requires c.Valid()
  {
    ScanOf(c.Cut(), read) == Scan(done, open)
  }

  lemma ScanNext(c: Chunker, read: Bytes, done: seq<Bytes>, open: Bytes, b: Byte)
    requires c.Valid() && Scanned(c, read, done, open)
    ensures if c.AtBoundary(Fingerprint(c.table, c.windowSize, read + [b]), |open + [b]|)
            then Scanned(c, read + [b], done + [open + [b]], [])
            else Scanned(c, read + [b], done, open + [b])
  {
    ScanSnoc(c, read, b);
  }

  method ChunkWithData(c: Chunker, sha: Bytes -> Hash, r: Reader)
    returns (result: Option<(seq<ChunkInfo>, seq<Bytes>)>)
    requires c.Usable()
    ensures r.failed ==> result == None
    ensures !r.failed ==>
      var pieces := Pieces(c.Cut(), Flatten(r.batches));
      result == Some((Infos(sha, pieces), pieces))
  {
    var chunks: seq<ChunkInfo>, data: seq<Bytes>, offset, chunkOffset := [], [], 0, 0;
    var splitter := new Splitter(c);
    for k := 0 to |r.batches|
      invariant splitter.Valid() && fresh(splitter.Repr) && splitter.c == c
      invariant splitter.window.seen == Flatten(r.batches[..k])
      invariant data == splitter.done && chunks == Infos(sha, data)
      invariant chunkOffset == |Flatten(data)| && offset == chunkOffset + |splitter.chunkBuf|
    {
      var buf := r.batches[k];
      for i := 0 to |buf|
        invariant splitter.Valid() && fresh(splitter.Repr) && splitter.c == c
        invariant splitter.window.seen == Flatten(r.batches[..k]) + buf[..i]
        invariant data == splitter.done && chunks == Infos(sha, data)
        invariant chunkOffset == |Flatten(data)| && offset == chunkOffset + |splitter.chunkBuf|
      {
        ReadAppend(r.batches, k, i);
        var piece := splitter.Feed(buf[i]);
        offset := offset + 1;
        if piece != [] {
          InfosSnoc(sha, data, piece);
          FlattenSnoc(data, piece);
          chunks := chunks + [ChunkInfo(sha(piece), chunkOffset, |piece|)];
          data := data + [piece];
          chunkOffset := offset;
        }
      }
      ReadAppend(r.batches, k, |buf|);
      assert buf[..|buf|] == buf;
    }
    if r.failed { return None; }
    assert r.batches[..|r.batches|] == r.batches;
    if |splitter.chunkBuf| > 0 {
      InfosSnoc(sha, data, splitter.chunkBuf);
      chunks := chunks + [ChunkInfo(sha(splitter.chunkBuf), chunkOffset, |splitter.chunkBuf|)];
      data := data + [splitter.chunkBuf];
    }
    result := Some((chunks, data));
  }

  method Chunk(c: Chunker, sha: Bytes -> Hash, r: Reader) returns (result: Option<seq<ChunkInfo>>)
    requires c.Usable()
    ensures result == if r.failed then None else Some(Infos(sha, Pieces(c.Cut(), Flatten(r.batches))))
  {
    var chunks: seq<ChunkInfo>, offset, chunkOffset := [], 0, 0;
    var splitter := new Splitter(c);
    for k := 0 to |r.batches|
      invariant splitter.Valid() && fresh(splitter.Repr) && splitter.c == c
      invariant splitter.window.seen == Flatten(r.batches[..k])
      invariant chunks == Infos(sha, splitter.done)
      invariant chunkOffset == |Flatten(splitter.done)| && offset == chunkOffset + |splitter.chunkBuf|
    {
      var buf := r.batches[k];
      for i := 0 to |buf|
        invariant splitter.Valid() && fresh(splitter.Repr) && splitter.c == c
        invariant splitter.window.seen == Flatten(r.batches[..k]) + buf[..i]
        invariant chunks == Infos(sha, splitter.done)
        invariant chunkOffset == |Flatten(splitter.done)| && offset == chunkOffset + |splitter.chunkBuf|
      {
        ReadAppend(r.batches, k, i);
        ghost var done := splitter.done;
        var piece := splitter.Feed(buf[i]);
        offset := offset + 1;
        if piece != [] {
          InfosSnoc(sha, done, piece);
          FlattenSnoc(done, piece);
          chunks := chunks + [ChunkInfo(sha(piece), chunkOffset, |piece|)];
          chunkOffset := offset;
        }
      }
      ReadAppend(r.batches, k, |buf|);
      assert buf[..|buf|] == buf;
    }
    if r.failed { return None; }
    assert r.batches[..|r.batches|] == r.batches;
    if |splitter.chunkBuf| > 0 {
      InfosSnoc(sha, splitter.done, splitter.chunkBuf);
      chunks := chunks + [ChunkInfo(sha(splitter.chunkBuf), chunkOffset, |splitter.chunkBuf|)];
    }
    result := Some(chunks);
  }

  /** One call of the stream callback. */
  datatype Event = Event(offset: nat, size: nat, hash: Hash, data: Bytes)

  /** The calls for a list of pieces.  The running offset is advanced after the
      buffer is emptied, so every call reports offset 0. */
  function Events(sha: Bytes -> Hash, pieces: seq<Bytes>): (r: seq<Event>)
    ensures |r| == |pieces|
  {
    seq(|pieces|, i requires 0 <= i < |pieces| => Event(0, |pieces[i]|, sha(pieces[i]), pieces[i]))
  }

  /** The calls up to and including the first one that reports an error. */
  function UntilRejected(events: seq<Event>, accepts: Event -> bool): seq<Event> {
    if events == [] then []
    else if accepts(events[0]) then [events[0]] + UntilRejected(events[1..], accepts)
    else [events[0]]
  }

  ghost predicate AllAccepted(events: seq<Event>, accepts: Event -> bool) {
    forall i :: 0 <= i < |events| ==> accepts(events[i])
  }

  lemma {:induction false} UntilRejectedAppend(xs: seq<Event>, ys: seq<Event>, accepts: Event -> bool)
    requires AllAccepted(xs, accepts)
    ensures UntilRejected(xs + ys, accepts) == xs + UntilRejected(ys, accepts)
  {
    if xs == [] {
      assert xs + ys == ys;
    } else {
      UntilRejectedAppend(xs[1..], ys, accepts);
      assert (xs + ys)[1..] == xs[1..] + ys;
    }
  }

  /** The pieces a stream run reports: a failing reader never gets to the rest. */
  ghost function Reported(c: Chunker, r: Reader): seq<Bytes>
    requires c.Valid()
  {
    if r.failed then ScanOf(c.Cut(), Flatten(r.batches)).done else Pieces(c.Cut(), Flatten(r.batches))
  }

  /** A rejected call is the last one whatever the rest of the stream holds. */
  lemma {:induction false} StreamStops(c: Chunker, sha: Bytes -> Hash, r: Reader, accepts: Event -> bool,
                    seen: Bytes, rest: Bytes, done: seq<Bytes>)
    requires c.Valid() && Flatten(r.batches) == seen + rest
    requires ScanOf(c.Cut(), seen).done == done
    requires var sent := Events(sha, done);
             |sent| > 0 && AllAccepted(sent[..|sent| - 1], accepts) && !accepts(sent[|sent| - 1])
    ensures UntilRejected(Events(sha, Reported(c, r)), accepts) == Events(sha, done)
    ensures !AllAccepted(Events(sha, Reported(c, r)), accepts)
  {
    AppendStable(c.Cut(), seen, rest);
    var all, sent := Events(sha, Reported(c, r)), Events(sha, done);
    var n := |sent| - 1;
    assert done <= Reported(c, r);
    assert all[n] == sent[n];
    assert all == sent[..n] + all[n..];
    UntilRejectedAppend(sent[..n], all[n..], accepts);
    assert sent == sent[..n] + [sent[n]];
  }

  /** The end of the stream: one last call when bytes are left and the reader
      did not fail. */
  lemma StreamEnds(c: Chunker, sha: Bytes -> Hash, r: Reader, accepts: Event -> bool,
                   done: seq<Bytes>, open: Bytes)
    requires c.Valid() && ScanOf(c.Cut(), Flatten(r.batches)) == Scan(done, open)
    requires AllAccepted(Events(sha, done), accepts)
    ensures var last := if r.failed || open == [] then [] else [Event(0, |open|, sha(open), open)];
            && UntilRejected(Events(sha, Reported(c, r)), accepts) == Events(sha, done) + last
            && (AllAccepted(Events(sha, Reported(c, r)), accepts) <==> last == [] || accepts(last[0]))
  {
    var last := if r.failed || open == [] then [] else [Event(0, |open|, sha(open), open)];
    UntilRejectedAppend(Events(sha, done), last, accepts);
    assert Events(sha, Reported(c, r)) == Events(sha, done) + last;
    assert last != [] ==> (Events(sha, done) + last)[|done|] == last[0];
  }

  lemma AcceptedSnoc(sent: seq<Event>, event: Event, accepts: Event -> bool)
    requires AllAccepted(sent, accepts)
    ensures (sent + [event])[..|sent|] == sent
    ensures AllAccepted(sent + [event], accepts) <==> accepts(event)
  {
    assert (sent + [event])[|sent|] == event;
  }

  /** One byte of ChunkStream.  The offset is advanced by the emptied buffer. */
  method StreamByte(splitter: Splitter, sha: Bytes -> Hash, accepts: Event -> bool, b: Byte,
                    sent: seq<Event>, hashed: Bytes, offset: nat)
    returns (events: seq<Event>, hasher: Bytes, chunkOffset: nat, rejected: bool)
    requires splitter.Valid() && hashed == splitter.chunkBuf && offset == 0
    requires sent == Events(sha, splitter.done) && AllAccepted(sent, accepts)
    modifies splitter.Repr
    ensures splitter.Valid() && splitter.window.seen == old(splitter.window.seen) + [b] && chunkOffset == 0
    ensures hasher == splitter.chunkBuf && events == Events(sha, splitter.done)
    ensures !rejected ==> AllAccepted(events, accepts)
    ensures rejected ==> |events| > 0 && AllAccepted(events[..|events| - 1], accepts) && !accepts(events[|events| - 1])
  {
    events, chunkOffset, rejected := sent, offset, false;
    ghost var done := splitter.done;
    var piece := splitter.Feed(b);
    hasher := hashed + [b];
    if piece != [] {
      var event := Event(chunkOffset, |piece|, sha(hasher), piece);
      EventsSnoc(sha, done, piece);
      AcceptedSnoc(sent, event, accepts);
      events := events + [event];
      hasher := [];
      rejected := !accepts(event);
      if !rejected { chunkOffset := chunkOffset + |splitter.chunkBuf|; }
    }
  }

  /** One read of ChunkStream; stops at the first rejected call, having consumed
      `used` bytes of the read. */
  method StreamRead(splitter: Splitter, sha: Bytes -> Hash, accepts: Event -> bool, buf: Bytes,
                    sent: seq<Event>, hashed: Bytes)
    returns (events: seq<Event>, hasher: Bytes, rejected: bool, ghost used: nat)
    requires splitter.Valid() && hashed == splitter.chunkBuf
    requires sent == Events(sha, splitter.done) && AllAccepted(sent, accepts)
    modifies splitter.Repr
    ensures splitter.Valid() && used <= |buf| && (!rejected ==> used == |buf|)
    ensures splitter.window.seen == old(splitter.window.seen) + buf[..used]
    ensures hasher == splitter.chunkBuf && events == Events(sha, splitter.done)
    ensures !rejected ==> AllAccepted(events, accepts)
    ensures rejected ==> |events| > 0 && AllAccepted(events[..|events| - 1], accepts) && !accepts(events[|events| - 1])
  {
    events, hasher, rejected, used := sent, hashed, false, |buf|;
    var chunkOffset := 0;
    for i := 0 to |buf|
      invariant splitter.Valid() && chunkOffset == 0
      invariant splitter.window.seen == old(splitter.window.seen) + buf[..i]
      invariant hasher == splitter.chunkBuf && events == Events(sha, splitter.done)
      invariant AllAccepted(events, accepts)
    {
      assert buf[..i + 1] == buf[..i] + [buf[i]];
      events, hasher, chunkOffset, rejected := StreamByte(splitter, sha, accepts, buf[i], events, hasher, chunkOffset);
      if rejected { return events, hasher, true, i + 1; }
    }
    assert buf[..|buf|] == buf;
  }

  method ChunkStream(c: Chunker, sha: Bytes -> Hash, r: Reader, accepts: Event -> bool)
    returns (events: seq<Event>, ok: bool)
    requires c.Usable()
    ensures events == UntilRejected(Events(sha, Reported(c, r)), accepts)
    ensures ok <==> !r.failed && AllAccepted(Events(sha, Reported(c, r)), accepts)
  {
    events := [];
    var hasher: Bytes := [];
    var splitter := new Splitter(c);
    for k := 0 to |r.batches|
      invariant splitter.Valid() && fresh(splitter.Repr) && splitter.c == c
      invariant splitter.window.seen == Flatten(r.batches[..k])
      invariant hasher == splitter.chunkBuf
      invariant events == Events(sha, splitter.done) && AllAccepted(events, accepts)
    {
      var rejected: bool;
      ghost var used: nat;
      events, hasher, rejected, used := StreamRead(splitter, sha, accepts, r.batches[k], events, hasher);
      ghost var rest := ReadRest(r.batches, k, used);
      if rejected {
        StreamStops(c, sha, r, accepts, splitter.window.seen, rest, splitter.done);
        return events, false;
      }
      assert r.batches[k][..used] == r.batches[k];
      ReadAppend(r.batches, k, 0);
    }
    assert r.batches[..|r.batches|] == r.batches;
    StreamEnds(c, sha, r, accepts, splitter.done, splitter.chunkBuf);
    if r.failed { return events, false; }
    if |splitter.chunkBuf| > 0 {
      var event := Event(0, |splitter.chunkBuf|, sha(hasher), splitter.chunkBuf);
      events := events + [event];
      return events, accepts(event);
    }
    ok := true;
  }

  lemma EventsSnoc(sha: Bytes -> Hash, pieces: seq<Bytes>, p: Bytes)
    ensures Events(sha, pieces + [p]) == Events(sha, pieces) + [Event(0, |p|, sha(p), p)]
  {}

  /** What is still unread after i bytes of read k. */
  lemma ReadRest(batches: seq<Bytes>, k: nat, i: nat) returns (rest: Bytes)
    requires k < |batches| && i <= |batches[k]|
    ensures Flatten(batches) == Flatten(batches[..k]) + batches[k][..i] + rest
  {
    rest := batches[k][i..] + Flatten(batches[k + 1..]);
    assert batches == batches[..k] + batches[k..];
    FlattenAppend(batches[..k], batches[k..]);
    assert batches[k..] == [batches[k]] + batches[k + 1..];
    assert Flatten(batches[k..]) == batches[k] + Flatten(batches[k + 1..]);
    assert batches[k] == batches[k][..i] + batches[k][i..];
  }
}
