/** The greedy partition of a stream. */
module Greedy {
  // The reference for content-defined chunking, for any cut test.

  import opened Common

  /** A cut test: the bytes read so far and the number buffered since the last cut. */
  type Cut = (Bytes, nat) -> bool

  /** Whether a chunk that started at `start` is cut before position `end`. */
  ghost predicate CutAt(cut: Cut, s: Bytes, start: nat, end: nat)
    requires start < end <= |s|
  {
    cut(s[..end], end - start)
  }

  // --- The specification: one greedy scan ------------------------------------

  /** The chunks cut so far and the bytes still buffered. */
  datatype Scan = Scan(done: seq<Bytes>, open: Bytes)

  ghost function ScanOf(cut: Cut, s: Bytes): Scan
  {
    if s == [] then Scan([], []) else
      var before := ScanOf(cut, s[..|s| - 1]);
      var buffer := before.open + [s[|s| - 1]];
      if cut(s, |buffer|)
      then Scan(before.done + [buffer], [])
      else Scan(before.done, buffer)
  }

  /** The chunks of a whole stream: a nonempty remainder is the last chunk. */
  ghost function Pieces(cut: Cut, s: Bytes): seq<Bytes>
  {
    var scan := ScanOf(cut, s);
    if scan.open == [] then scan.done else scan.done + [scan.open]
  }

  // --- What the partition is --------------------------------------------------

  /** parts splits s, every part but the last ends at the first cut after its
      start, and the last contains no cut before its end. */
  ghost predicate Greedy(cut: Cut, s: Bytes, parts: seq<Bytes>)
  {
    && Flatten(parts) == s
    && forall i :: 0 <= i < |parts| ==> GreedyPart(cut, s, parts, i)
  }

  ghost predicate GreedyPart(cut: Cut, s: Bytes, parts: seq<Bytes>, i: nat)
    requires i < |parts|
  {
    var start := |Flatten(parts[..i])|;
    var end := start + |parts[i]|;
    && start < end <= |s|
    && (forall n :: start < n < end ==> !CutAt(cut, s, start, n))
    && (i < |parts| - 1 ==> CutAt(cut, s, start, end))
  }

  lemma FlattenPrefix<T>(parts: seq<seq<T>>, i: nat)
    requires i < |parts|
    ensures Flatten(parts[..i + 1]) == Flatten(parts[..i]) + parts[i]
    ensures |Flatten(parts[..i + 1])| <= |Flatten(parts)|
    ensures Flatten(parts)[|Flatten(parts[..i])|..|Flatten(parts[..i])| + |parts[i]|] == parts[i]
  {
    assert parts[..i + 1] == parts[..i] + [parts[i]];
    FlattenSnoc(parts[..i], parts[i]);
    assert parts == parts[..i + 1] + parts[i + 1..];
    FlattenAppend(parts[..i + 1], parts[i + 1..]);
  }

  /** A cut within a prefix is a cut of the longer stream. */
  lemma CutAtStable(cut: Cut, s: Bytes, t: Bytes, start: nat, end: nat)
    requires start < end <= |s|
    ensures CutAt(cut, s + t, start, end) == CutAt(cut, s, start, end)
  {
    assert (s + t)[..end] == s[..end];
  }

  /** The scan's invariant: finished chunks end at their first cut, and the
      buffered bytes contain none. */
  ghost predicate ScanInv(cut: Cut, s: Bytes, scan: Scan)
  {
    && Flatten(scan.done) + scan.open == s
    && (forall i :: 0 <= i < |scan.done| ==> DonePart(cut, s, scan.done, i))
    && (forall n :: |Flatten(scan.done)| < n <= |s| ==> !CutAt(cut, s, |Flatten(scan.done)|, n))
  }

  ghost predicate DonePart(cut: Cut, s: Bytes, done: seq<Bytes>, i: nat)
    requires i < |done|
  {
    var start := |Flatten(done[..i])|;
    var end := start + |done[i]|;
    && start < end <= |s|
    && (forall n :: start < n < end ==> !CutAt(cut, s, start, n))
    && CutAt(cut, s, start, end)
  }

  lemma DonePartStable(cut: Cut, s: Bytes, t: Bytes, done: seq<Bytes>, extra: seq<Bytes>, i: nat)
    requires i < |done| && DonePart(cut, s, done, i)
    ensures DonePart(cut, s + t, done + extra, i)
  {
    assert (done + extra)[..i] == done[..i];
    var start := |Flatten(done[..i])|;
    CutAtStable(cut, s, t, start, start + |done[i]|);
    forall n | start < n < start + |done[i]| ensures !CutAt(cut, s + t, start, n) {
      CutAtStable(cut, s, t, start, n);
    }
  }

  lemma {:induction false} ScanMeaning(cut: Cut, s: Bytes)
    ensures ScanInv(cut, s, ScanOf(cut, s))
  {
    if s != [] {
      var pre, b := s[..|s| - 1], s[|s| - 1];
      ScanMeaning(cut, pre);
      var before, after := ScanOf(cut, pre), ScanOf(cut, s);
      assert s == pre + [b] && s[..|s|] == s;
      var start := |Flatten(before.done)|;
      assert CutAt(cut, s, start, |s|) <==> after.open == [];
      forall n | start < n < |s| ensures !CutAt(cut, s, start, n) {
        CutAtStable(cut, pre, [b], start, n);
      }
      var extra := after.done[|before.done|..];
      assert after.done == before.done + extra;
      forall i | 0 <= i < |before.done| ensures DonePart(cut, s, after.done, i) {
        DonePartStable(cut, pre, [b], before.done, extra, i);
      }
      if after.open == [] {
        FlattenSnoc(before.done, extra[0]);
        assert after.done[..|before.done|] == before.done;
        assert DonePart(cut, s, after.done, |before.done|);
      }
    }
  }

  /** Main result: the chunks of any stream are its greedy partition. */
  lemma PiecesGreedy(cut: Cut, s: Bytes)
    ensures Greedy(cut, s, Pieces(cut, s))
  {
    ScanMeaning(cut, s);
    var scan, parts := ScanOf(cut, s), Pieces(cut, s);
    if scan.open != [] { FlattenSnoc(scan.done, scan.open); }
    forall i | 0 <= i < |parts| ensures GreedyPart(cut, s, parts, i) {
      if i < |scan.done| {
        assert parts[..i] == scan.done[..i];
        assert DonePart(cut, s, scan.done, i);
      } else {
        assert parts[..i] == scan.done;
      }
    }
  }

  lemma StartsInside(cut: Cut, s: Bytes, parts: seq<Bytes>, i: nat)
    requires Greedy(cut, s, parts) && i < |parts|
    ensures |Flatten(parts[..i])| < |s|
  {
    assert GreedyPart(cut, s, parts, i);
  }

  /** After equal parts comes an equal part. */
  lemma SamePart(cut: Cut, s: Bytes, p: seq<Bytes>, q: seq<Bytes>, i: nat)
    requires Greedy(cut, s, p) && Greedy(cut, s, q) && i < |p| && i < |q| && p[..i] == q[..i]
    ensures p[i] == q[i]
  {
    assert GreedyPart(cut, s, p, i) && GreedyPart(cut, s, q, i);
    FlattenPrefix(p, i); FlattenPrefix(q, i);
    if i == |p| - 1 { assert p[..i + 1] == p; }
    if i == |q| - 1 { assert q[..i + 1] == q; }
    var start := |Flatten(p[..i])|;
    assert start + |p[i]| == start + |q[i]|;
  }

  /** The greedy partition is unique, so it determines the chunks. */
  lemma {:induction false} GreedyUnique(cut: Cut, s: Bytes, p: seq<Bytes>, q: seq<Bytes>, i: nat)
    requires Greedy(cut, s, p) && Greedy(cut, s, q)
    requires i <= |p| && i <= |q|
    ensures i == 0 || p[..i] == q[..i] ==> p == q
    decreases |p| - i
  {
    if i == 0 || p[..i] == q[..i] {
      assert p[..i] == q[..i];
      if i < |p| { StartsInside(cut, s, p, i); }
      if i < |q| { StartsInside(cut, s, q, i); }
      if i < |p| && i < |q| {
        SamePart(cut, s, p, q, i);
        assert p[..i + 1] == p[..i] + [p[i]] && q[..i + 1] == q[..i] + [q[i]];
        GreedyUnique(cut, s, p, q, i + 1);
      } else {
        assert p[..|p|] == p && q[..|q|] == q;
      }
    }
  }

  /** A cut test that never fires below `least` and always fires at `greatest`
      bounds the chunks; together they are the stream. */
  lemma PiecesBounded(cut: Cut, s: Bytes, least: nat, greatest: nat)
    requires forall s: Bytes, n: nat :: cut(s, n) ==> n >= least
    requires forall s: Bytes :: cut(s, greatest)
    requires greatest > 0
    ensures Flatten(Pieces(cut, s)) == s
    ensures forall i :: 0 <= i < |Pieces(cut, s)| ==> 1 <= |Pieces(cut, s)[i]| <= greatest
    ensures forall i :: 0 <= i < |Pieces(cut, s)| - 1 ==> least <= |Pieces(cut, s)[i]|
  {
    PiecesGreedy(cut, s);
    var parts := Pieces(cut, s);
    forall i | 0 <= i < |parts|
      ensures 1 <= |parts[i]| <= greatest
      ensures i < |parts| - 1 ==> least <= |parts[i]|
    {
      assert GreedyPart(cut, s, parts, i);
      var start := |Flatten(parts[..i])|;
      assert |parts[i]| <= greatest || !CutAt(cut, s, start, start + greatest);
    }
  }

  /** Append stability: whatever is cut before the end of s is cut at the same
      place in every continuation of s. */
  lemma {:induction false} AppendStable(cut: Cut, s: Bytes, t: Bytes)
    ensures ScanOf(cut, s).done <= ScanOf(cut, s + t).done
    ensures ScanOf(cut, s).done <= Pieces(cut, s + t)
  {
    if t == [] {
      assert s + t == s;
    } else {
      var k := |t| - 1;
      AppendStable(cut, s, t[..k]);
      assert (s + t)[..|s + t| - 1] == s + t[..k];
    }
  }
}
