/** Serving files. */
module Download {
  // The Range header and the streaming loops of
  // internal/server/handlers_download.go.

  import opened Common
  import opened Text
  import StoreModel
  import StoreDurability

  type Hash = string

  // --- Numbers -----------------------------------------------------------------

  const MAX_INT64: nat := 0x7FFF_FFFF_FFFF_FFFF

  predicate IsDigit(c: char) { '0' <= c <= '9' }

  predicate AllDigits(s: string) { forall i :: 0 <= i < |s| ==> IsDigit(s[i]) }

  function Value(s: string): nat
    requires AllDigits(s)
  {
    if s == "" then 0 else 10 * Value(s[..|s| - 1]) + (s[|s| - 1] - '0') as nat
  }

  /** strconv.ParseInt in base 10 for 64 bits: an optional sign, then digits. */
  function ParseInt(s: string): Option<int> {
    if s == "" then None else
      var signed := s[0] == '+' || s[0] == '-';
      var digits := if signed then s[1..] else s;
      if digits == "" || !AllDigits(digits) then None else
        var v: int := Value(digits);
        if s[0] == '-' then (if v <= MAX_INT64 + 1 then Some(-v) else None)
        else if v <= MAX_INT64 then Some(v) else None
  }

  // --- The Range header ----------------------------------------------------------

  const UNIT: string := "bytes="

  /** The byte range a header selects from a file of the given size; None is the
      answer 416. */
  function ParseRange(header: string, size: nat): (r: Option<(int, int)>)
    ensures r.Some? ==> 0 <= r.value.0 <= r.value.1 < size
  {
    if !(UNIT <= header) then None else
      var ranges := Split(header[|UNIT|..], ',');
      if |ranges| > 1 then None else
        var parts := Split(ranges[0], '-');
        if |parts| != 2 then None else FromFields(parts[0], parts[1], size)
  }

  /** The range for the texts before and after the dash. */
  function FromFields(a: string, b: string, size: nat): (r: Option<(int, int)>)
    ensures r.Some? ==> 0 <= r.value.0 <= r.value.1 < size
  {
    if a == "" then
      var suffix := ParseInt(b);
      if suffix.None? then None else
        var start := size - suffix.value;
        Checked(if start < 0 then 0 else start, size - 1, size)
    else
      var start := ParseInt(a);
      if start.None? then None
      else if b == "" then Checked(start.value, size - 1, size)
      else
        var end := ParseInt(b);
        if end.None? then None else Checked(start.value, end.value, size)
  }

  function Checked(start: int, end: int, size: nat): Option<(int, int)> {
    if start < 0 || start >= size || start > end then None
    else Some((start, if end >= size then size - 1 else end))
  }

  /** The range specifiers of section 14.1.2 of RFC 9110. */
  datatype RangeSpec = FromTo(first: nat, last: nat) | From(first: nat) | Suffix(length: nat)

  function Digits(n: nat): string {
    if n < 10 then ['0' + n as char] else Digits(n / 10) + ['0' + (n % 10) as char]
  }

  function Render(spec: RangeSpec): string {
    UNIT + match spec
           case FromTo(first, last) => Digits(first) + "-" + Digits(last)
           case From(first) => Digits(first) + "-"
           case Suffix(length) => "-" + Digits(length)
  }

  /** The bytes the RFC says a specifier selects, if it is satisfiable. */
  function Selected(spec: RangeSpec, size: nat): Option<(int, int)> {
    match spec
    case FromTo(first, last) =>
      if first <= last && first < size then Some((first, if last < size then last else size - 1)) else None
    case From(first) => if first < size then Some((first, size - 1)) else None
    case Suffix(length) =>
      if length > 0 && size > 0 then Some((if length < size then size - length else 0, size - 1)) else None
  }

  /** Whether every number of a specifier fits the handler's 64-bit parser. */
  predicate Fits(spec: RangeSpec) {
    match spec
    case FromTo(first, last) => first <= MAX_INT64 && last <= MAX_INT64
    case From(first) => first <= MAX_INT64
    case Suffix(length) => length <= MAX_INT64
  }

  lemma {:induction false} DigitsMeaning(n: nat)
    ensures Digits(n) != "" && AllDigits(Digits(n)) && Value(Digits(n)) == n
  {
    if n >= 10 {
      DigitsMeaning(n / 10);
      assert Digits(n)[..|Digits(n)| - 1] == Digits(n / 10);
    } else {
      assert Digits(n)[..0] == "";
      assert Value(Digits(n)) == 10 * Value("") + n;
    }
  }

  lemma ParseDigits(n: nat)
    ensures ParseInt(Digits(n)) == if n <= MAX_INT64 then Some(n) else None
  {
    DigitsMeaning(n);
    assert IsDigit(Digits(n)[0]);
  }

  /** A specifier is taken apart at its dash. */
  lemma FieldsOf(a: string, b: string, size: nat)
    requires ',' !in a && ',' !in b && '-' !in a && '-' !in b
    ensures ParseRange(UNIT + (a + "-" + b), size) == FromFields(a, b, size)
  {
    var spec := a + "-" + b;
    assert UNIT <= UNIT + spec && (UNIT + spec)[|UNIT|..] == spec;
    assert ',' !in spec;
    SplitNone(spec, ',');
    SplitAt(a, '-', b);
    SplitNone(b, '-');
  }

  lemma RenderedFields(a: string, b: string, size: nat)
    requires AllDigits(a) && AllDigits(b)
    ensures ParseRange(UNIT + (a + "-" + b), size) == FromFields(a, b, size)
  {
    FieldsOf(a, b, size);
  }

  lemma {:induction false} FromToAgrees(first: nat, last: nat, size: nat)
    requires size <= MAX_INT64
    ensures FromFields(Digits(first), Digits(last), size)
      == if Fits(FromTo(first, last)) then Selected(FromTo(first, last), size) else None
  {
    ParseDigits(first); ParseDigits(last);
    DigitsMeaning(first); DigitsMeaning(last);
  }

  lemma FromAgrees(first: nat, size: nat)
    requires size <= MAX_INT64
    ensures FromFields(Digits(first), "", size) == if Fits(From(first)) then Selected(From(first), size) else None
  {
    ParseDigits(first);
    DigitsMeaning(first);
  }

  lemma SuffixAgrees(length: nat, size: nat)
    requires size <= MAX_INT64
    ensures FromFields("", Digits(length), size) == if Fits(Suffix(length)) then Selected(Suffix(length), size)
      else None
  {
    ParseDigits(length);
  }

  /** Every specifier the RFC allows is served as the RFC says, except that one
      with a number beyond 64 bits is refused. */
  lemma RangeAgreesWithRfc(spec: RangeSpec, size: nat)
    requires size <= MAX_INT64
    ensures ParseRange(Render(spec), size) == if Fits(spec) then Selected(spec, size) else None
  {
    match spec
    case FromTo(first, last) =>
      DigitsMeaning(first); DigitsMeaning(last);
      RenderedFields(Digits(first), Digits(last), size);
      FromToAgrees(first, last, size);
    case From(first) =>
      DigitsMeaning(first);
      RenderedFields(Digits(first), "", size);
      assert Digits(first) + "-" + "" == Digits(first) + "-";
      FromAgrees(first, size);
    case Suffix(length) =>
      DigitsMeaning(length);
      RenderedFields("", Digits(length), size);
      assert "" + "-" + Digits(length) == "-" + Digits(length);
      SuffixAgrees(length, size);
  }

  /** Nothing but a single pair of numbers, one of which may be missing, is
      accepted.  The numbers are plain digits, as the RFC wants them, exactly when
      the header holds no plus sign. */
  lemma {:induction false} AcceptedShape(header: string, size: nat) returns (a: string, b: string)
    requires ParseRange(header, size).Some?
    ensures header == UNIT + a + "-" + b
    ensures a == "" ==> b != ""
    ensures (a == "" || ParseInt(a).Some?) && (b == "" || ParseInt(b).Some?)
    ensures AllDigits(a) && AllDigits(b) <==> '+' !in header
  {
    a, b := SpecShape(header[|UNIT|..]);
    assert header == UNIT + header[|UNIT|..];
    PlainIff(a);
    PlainIff(b);
    PlusIn(header, a, b);
  }

  /** The two fields of a single specifier. */
  lemma SpecShape(spec: string) returns (a: string, b: string)
    requires |Split(spec, ',')| == 1 && |Split(Split(spec, ',')[0], '-')| == 2
    ensures [a, b] == Split(Split(spec, ',')[0], '-')
    ensures spec == a + "-" + b && '-' !in a && '-' !in b
  {
    SplitJoinsOne(spec, ',');
    SplitTwo(spec, '-');
    SplitParts(spec, '-', 0);
    SplitParts(spec, '-', 1);
    a, b := Split(spec, '-')[0], Split(spec, '-')[1];
  }

  lemma PlusIn(header: string, a: string, b: string)
    requires header == UNIT + a + "-" + b
    ensures '+' in header <==> '+' in a || '+' in b
  {
    assert '+' !in UNIT && '+' !in "-";
  }

  /** A number without a minus sign is plain digits unless it starts with a plus. */
  lemma PlainIff(s: string)
    requires s == "" || (ParseInt(s).Some? && '-' !in s)
    ensures AllDigits(s) <==> '+' !in s
  {
    if s != "" && s[0] == '+' {
      assert !IsDigit(s[0]);
    } else if s != "" {
      assert s[0] in s;
      forall i | 0 <= i < |s| ensures s[i] != '+' { assert IsDigit(s[i]); }
    }
  }

  /** A plus sign is accepted and changes nothing, here in the header "bytes=+1-2". */
  lemma PlusAccepted(size: nat)
    requires size > 2
    ensures ParseRange(UNIT + ("+1" + "-" + "2"), size) == Some((1, 2)) == ParseRange(UNIT + ("1" + "-" + "2"), size)
  {
    FieldsOf("+1", "2", size);
    FieldsOf("1", "2", size);
    SmallNumbers();
  }

  lemma SmallNumbers()
    ensures ParseInt("+1") == ParseInt("1") == Some(1) && ParseInt("2") == Some(2)
  {
    assert "+1"[1..] == "1" && "1"[..0] == "" && "2"[..0] == "";
    assert Value("1") == 10 * Value("") + 1 && Value("2") == 10 * Value("") + 2;
  }

  // --- Streaming -------------------------------------------------------------------

  /** Where chunk bytes come from; None is a failed read or decryption. */
  type Source = Hash -> Option<Bytes>

  /** How many leading chunks can be read. */
  ghost function Readable(source: Source, hashes: seq<Hash>): (n: nat)
    ensures n <= |hashes|
    ensures forall i :: 0 <= i < n ==> source(hashes[i]).Some?
    ensures n < |hashes| ==> source(hashes[n]).None?
  {
    if hashes == [] then 0 else
      var k := |hashes| - 1;
      var n := Readable(source, hashes[..k]);
      if n < k then n else if source(hashes[k]).Some? then k + 1 else k
  }

  /** The bytes of a list of readable chunks. */
  ghost function Joined(source: Source, hashes: seq<Hash>): Bytes
    requires forall i :: 0 <= i < |hashes| ==> source(hashes[i]).Some?
  {
    if hashes == [] then [] else
      var k := |hashes| - 1;
      Joined(source, hashes[..k]) + source(hashes[k]).value
  }

  /** Everything before the first chunk that cannot be read. */
  ghost function Reachable(source: Source, hashes: seq<Hash>): Bytes {
    Joined(source, hashes[..Readable(source, hashes)])
  }

  /** data[lo..hi] cut off at the end of the data. */
  ghost function Clip(data: Bytes, lo: nat, hi: nat): Bytes
    requires lo <= hi
  {
    data[if lo <= |data| then lo else |data|..if hi <= |data| then hi else |data|]
  }

  lemma {:induction false} JoinedPrefix(source: Source, hashes: seq<Hash>, n: nat)
    requires n <= |hashes| && forall i :: 0 <= i < |hashes| ==> source(hashes[i]).Some?
    ensures Joined(source, hashes[..n]) <= Joined(source, hashes)
  {
    if n < |hashes| {
      var k := |hashes| - 1;
      JoinedPrefix(source, hashes[..k], n);
      assert hashes[..k][..n] == hashes[..n];
    } else {
      assert hashes[..n] == hashes;
    }
  }

  lemma JoinedSnoc(source: Source, hashes: seq<Hash>, i: nat)
    requires i < |hashes| && forall k :: 0 <= k <= i ==> source(hashes[k]).Some?
    ensures Joined(source, hashes[..i + 1]) == Joined(source, hashes[..i]) + source(hashes[i]).value
  {
    assert hashes[..i + 1][..i] == hashes[..i];
  }

  /** Appending past the end of the range changes nothing; appending across it
      adds the part of the new data that falls inside. */
  lemma ClipAppend(before: Bytes, data: Bytes, lo: nat, hi: nat)
    requires lo <= hi && |before| <= hi
    ensures |before| + |data| <= lo ==> Clip(before + data, lo, hi) == Clip(before, lo, hi) == []
    ensures |before| + |data| > lo ==>
      var from := if |before| < lo then lo - |before| else 0;
      var to := if |before| + |data| > hi then hi - |before| else |data|;
      from <= to <= |data| && Clip(before + data, lo, hi) == Clip(before, lo, hi) + data[from..to]
  {
    if |before| + |data| > lo {
      var from := if |before| < lo then lo - |before| else 0;
      var to := if |before| + |data| > hi then hi - |before| else |data|;
      var all := before + data;
      if |before| < lo {
        assert all[lo..|before| + to] == data[from..to];
      } else {
        assert all[lo..|before| + to] == before[lo..] + data[..to];
      }
    }
  }

  /** The part of a chunk inside the range, and whether it meets the range. */
  method SliceChunk(data: Bytes, chunkStart: nat, start: nat, end: nat, ghost before: Bytes)
    returns (inside: bool, slice: Bytes)
    requires start <= end && chunkStart == |before| <= end
    ensures Clip(before + data, start, end + 1) == Clip(before, start, end + 1) + slice
    ensures inside <==> chunkStart + |data| > start
    ensures !inside ==> slice == [] && Clip(before, start, end + 1) == []
  {
    ClipAppend(before, data, start, end + 1);
    var chunkSize := |data|;
    var chunkEnd := chunkStart + chunkSize;
    if chunkEnd <= start || chunkStart >= end + 1 { return false, []; }
    var sliceStart: nat := 0;
    var sliceEnd: nat := chunkSize;
    if chunkStart < start { sliceStart := start - chunkStart; }
    if chunkEnd > end + 1 { sliceEnd := end - chunkStart + 1; }
    return true, data[sliceStart..sliceEnd];
  }

  lemma ClipLength(data: Bytes, lo: nat, hi: nat)
    requires lo <= hi
    ensures |Clip(data, lo, hi)| == (if |data| >= hi then hi - lo else if |data| >= lo then |data| - lo else 0)
  {}

  /** The parts of readable chunks that fall into a range, one for each chunk that
      meets it: what the loop writes, call by call. */
  ghost function Slices(source: Source, hashes: seq<Hash>, start: nat, end: nat): seq<Bytes>
    requires start <= end && forall i :: 0 <= i < |hashes| ==> source(hashes[i]).Some?
  {
    if hashes == [] then [] else
      var k := |hashes| - 1;
      var before, data := Joined(source, hashes[..k]), source(hashes[k]).value;
      Slices(source, hashes[..k], start, end)
      + if |before| + |data| > start && |before| <= end then [SliceOf(before, data, start, end)] else []
  }

  ghost function SliceOf(before: Bytes, data: Bytes, start: nat, end: nat): Bytes
    requires start <= end && |before| + |data| > start && |before| <= end
  {
    data[if |before| < start then start - |before| else 0..
         if |before| + |data| > end + 1 then end + 1 - |before| else |data|]
  }

  /** Together the slices are the range. */
  lemma {:induction false} SlicesMakeRange(source: Source, hashes: seq<Hash>, start: nat, end: nat)
    requires start <= end && forall i :: 0 <= i < |hashes| ==> source(hashes[i]).Some?
    ensures Flatten(Slices(source, hashes, start, end)) == Clip(Joined(source, hashes), start, end + 1)
  {
    if hashes != [] {
      var k := |hashes| - 1;
      var before, data := Joined(source, hashes[..k]), source(hashes[k]).value;
      SlicesMakeRange(source, hashes[..k], start, end);
      if |before| <= end {
        ClipAppend(before, data, start, end + 1);
        if |before| + |data| > start {
          FlattenSnoc(Slices(source, hashes[..k], start, end), SliceOf(before, data, start, end));
        } else {
          assert Slices(source, hashes[..k], start, end) + [] == Slices(source, hashes[..k], start, end);
        }
      } else {
        assert Slices(source, hashes[..k], start, end) + [] == Slices(source, hashes[..k], start, end);
        assert (before + data)[start..end + 1] == before[start..end + 1];
      }
    }
  }

  lemma SlicesSnoc(source: Source, hashes: seq<Hash>, i: nat, start: nat, end: nat)
    requires start <= end && i < |hashes| && forall k :: 0 <= k <= i ==> source(hashes[k]).Some?
    ensures var before, data := Joined(source, hashes[..i]), source(hashes[i]).value;
      Slices(source, hashes[..i + 1], start, end) == Slices(source, hashes[..i], start, end)
        + if |before| + |data| > start && |before| <= end then [SliceOf(before, data, start, end)] else []
  {
    assert hashes[..i + 1][..i] == hashes[..i];
  }

  lemma {:induction false} SlicesPrefix(source: Source, hashes: seq<Hash>, n: nat, start: nat, end: nat)
    requires start <= end && n <= |hashes| && forall i :: 0 <= i < |hashes| ==> source(hashes[i]).Some?
    ensures Slices(source, hashes[..n], start, end) <= Slices(source, hashes, start, end)
    ensures |Joined(source, hashes[..n])| > end ==>
      Slices(source, hashes[..n], start, end) == Slices(source, hashes, start, end)
  {
    if n < |hashes| {
      var k := |hashes| - 1;
      SlicesPrefix(source, hashes[..k], n, start, end);
      assert hashes[..k][..n] == hashes[..n];
      JoinedPrefix(source, hashes[..k], n);
    } else {
      assert hashes[..n] == hashes;
    }
  }

  /** What reaches the output: the slices of the readable chunks, up to the first
      write that fails. */
  ghost predicate Streamed(source: Source, hashes: seq<Hash>, start: nat, end: nat, w: Writer, written: Bytes, ok: bool)
    requires start <= end
  {
    var n := Readable(source, hashes);
    var slices := Slices(source, hashes[..n], start, end);
    var m := Accepted(w, |slices|);
    && written == Flatten(slices[..m])
    && (ok <==> m == |slices| && (n == |hashes| || |Reachable(source, hashes)| > end))
  }

  lemma StopsAtWrite(source: Source, hashes: seq<Hash>, i: nat, start: nat, end: nat, w: Writer, slices: seq<Bytes>)
    requires start <= end && i <= Readable(source, hashes)
    requires slices == Slices(source, hashes[..i], start, end) && |slices| > 0
    requires !w(|slices| - 1) && forall k :: 0 <= k < |slices| - 1 ==> w(k)
    ensures Streamed(source, hashes, start, end, w, Flatten(slices[..|slices| - 1]), false)
  {
    var n := Readable(source, hashes);
    SlicesPrefix(source, hashes[..n], i, start, end);
    assert hashes[..n][..i] == hashes[..i];
    var all := Slices(source, hashes[..n], start, end);
    AcceptedIs(w, |all|, |slices| - 1);
    assert all[..|slices| - 1] == slices[..|slices| - 1];
  }

  lemma StopsAtEnd(source: Source, hashes: seq<Hash>, i: nat, start: nat, end: nat, w: Writer, slices: seq<Bytes>)
    requires start <= end && i <= Readable(source, hashes)
    requires slices == Slices(source, hashes[..i], start, end) && forall k :: 0 <= k < |slices| ==> w(k)
    requires i == Readable(source, hashes) || |Joined(source, hashes[..i])| > end
    ensures Streamed(source, hashes, start, end, w, Flatten(slices),
                     i == |hashes| || |Joined(source, hashes[..i])| > end)
  {
    var n := Readable(source, hashes);
    SlicesPrefix(source, hashes[..n], i, start, end);
    assert hashes[..n][..i] == hashes[..i];
    JoinedPrefix(source, hashes[..n], i);
    AcceptedIs(w, |slices|, |slices|);
    assert slices[..|slices|] == slices;
    if i == n { assert hashes[..n] == hashes[..i]; }
  }

  /** The first i chunks have been read, and their slices written. */
  ghost predicate Sending(source: Source, hashes: seq<Hash>, i: nat, start: nat, end: nat, w: Writer, calls: nat,
                          written: Bytes)
    requires start <= end && i <= |hashes|
  {
    && i <= Readable(source, hashes) && |Joined(source, hashes[..i])| <= end
    && calls == |Slices(source, hashes[..i], start, end)| && (forall k :: 0 <= k < calls ==> w(k))
    && written == Flatten(Slices(source, hashes[..i], start, end))
  }

  /** What a chunk adds. */
  lemma ChunkSlices(source: Source, hashes: seq<Hash>, i: nat, start: nat, end: nat, slice: Bytes, inside: bool)
    requires start <= end && i < |hashes| && forall k :: 0 <= k <= i ==> source(hashes[k]).Some?
    requires |Joined(source, hashes[..i])| <= end
    requires var before, data := Joined(source, hashes[..i]), source(hashes[i]).value;
      && (inside <==> |before| + |data| > start)
      && Clip(before + data, start, end + 1) == Clip(before, start, end + 1) + slice
    ensures Joined(source, hashes[..i + 1]) == Joined(source, hashes[..i]) + source(hashes[i]).value
    ensures Slices(source, hashes[..i + 1], start, end)
      == Slices(source, hashes[..i], start, end) + if inside then [slice] else []
    ensures |Joined(source, hashes[..i + 1])| > end ==>
      |Flatten(Slices(source, hashes[..i + 1], start, end))| == end - start + 1
    ensures |Joined(source, hashes[..i + 1])| <= end ==>
      |Flatten(Slices(source, hashes[..i + 1], start, end))| <= end - start
  {
    JoinedSnoc(source, hashes, i);
    SlicesSnoc(source, hashes, i, start, end);
    SlicesMakeRange(source, hashes[..i + 1], start, end);
    ClipLength(Joined(source, hashes[..i + 1]), start, end + 1);
    if inside {
      var before, data := Joined(source, hashes[..i]), source(hashes[i]).value;
      ClipAppend(before, data, start, end + 1);
      Cancel(Clip(before, start, end + 1), slice, SliceOf(before, data, start, end));
    }
  }

  /** One chunk of the range loop; `done` when the loop is left. */
  method RangeStep(source: Source, hashes: seq<Hash>, i: nat, start: nat, end: nat, w: Writer,
                   currentOffset: nat, calls: nat, written: Bytes)
    returns (done: bool, ok: bool, offset: nat, called: nat, output: Bytes)
    requires start <= end && i < |hashes| && Sending(source, hashes, i, start, end, w, calls, written)
    requires currentOffset == |Joined(source, hashes[..i])|
    ensures done ==> Streamed(source, hashes, start, end, w, output, ok)
    ensures !done ==> Sending(source, hashes, i + 1, start, end, w, called, output)
    ensures !done ==> offset == |Joined(source, hashes[..i + 1])|
  {
    done, ok, offset, called, output := true, false, currentOffset, calls, written;
    ghost var slices := Slices(source, hashes[..i], start, end);
    var fetched := source(hashes[i]);
    if fetched.None? {
      StopsAtEnd(source, hashes, i, start, end, w, slices);
      return;
    }
    var inside, slice := SliceChunk(fetched.value, currentOffset, start, end, Joined(source, hashes[..i]));
    ChunkSlices(source, hashes, i, start, end, slice, inside);
    if inside {
      FlattenSnoc(slices, slice);
      if !w(calls) {
        assert (slices + [slice])[..calls] == slices;
        StopsAtWrite(source, hashes, i + 1, start, end, w, slices + [slice]);
        return;
      }
      called, output := calls + 1, written + slice;
      if |output| >= end - start + 1 {
        StopsAtEnd(source, hashes, i + 1, start, end, w, slices + [slice]);
        ok := true;
        return;
      }
    } else {
      assert slices + [] == slices;
    }
    done, offset := false, currentOffset + |fetched.value|;
  }

  /** The range loop: writes the requested bytes as far as they can be read and
      written, and fails exactly when a chunk it still needs cannot be read or one
      of its writes fails. */
  method WriteRange(source: Source, hashes: seq<Hash>, start: nat, end: nat, w: Writer)
    returns (written: Bytes, ok: bool)
    requires start <= end
    ensures Streamed(source, hashes, start, end, w, written, ok)
  {
    var currentOffset, calls := 0, 0;
    written := [];
    for i := 0 to |hashes|
      invariant Sending(source, hashes, i, start, end, w, calls, written)
      invariant currentOffset == |Joined(source, hashes[..i])|
    {
      var done;
      done, ok, currentOffset, calls, written :=
        RangeStep(source, hashes, i, start, end, w, currentOffset, calls, written);
      if done { return; }
    }
    StopsAtEnd(source, hashes, |hashes|, start, end, w, Slices(source, hashes[..|hashes|], start, end));
    ok := true;
  }

  function FromBlobs(blobs: map<Hash, Bytes>): Source {
    (h: Hash) => if h in blobs then Some(blobs[h]) else None
  }

  function Decrypted(blobs: map<Hash, Bytes>, decrypt: Bytes -> Option<Bytes>): Source {
    (h: Hash) => if h in blobs then decrypt(blobs[h]) else None
  }

  method StreamRange(blobs: map<Hash, Bytes>, hashes: seq<Hash>, start: nat, end: nat, w: Writer)
    returns (written: Bytes, ok: bool)
    requires start <= end
    ensures Streamed(FromBlobs(blobs), hashes, start, end, w, written, ok)
  {
    written, ok := WriteRange(FromBlobs(blobs), hashes, start, end, w);
  }

  /** The file key may fail to unwrap; without one nothing is written. */
  method StreamDecryptedRange(blobs: map<Hash, Bytes>, fileKey: Option<Bytes>, decrypt: (Bytes, Bytes) -> Option<Bytes>,
                              hashes: seq<Hash>, start: nat, end: nat, w: Writer) returns (written: Bytes, ok: bool)
    requires start <= end
    ensures fileKey.None? ==> written == [] && !ok
    ensures fileKey.Some? ==>
      Streamed(Decrypted(blobs, data => decrypt(data, fileKey.value)), hashes, start, end, w, written, ok)
  {
    if fileKey.None? { return [], false; }
    written, ok := WriteRange(Decrypted(blobs, data => decrypt(data, fileKey.value)), hashes, start, end, w);
  }

  /** The whole file, one write for each chunk. */
  method StreamContent(blobs: map<Hash, Bytes>, hashes: seq<Hash>, w: Writer) returns (written: Bytes, ok: bool)
    ensures var n := Readable(FromBlobs(blobs), hashes);
      && written == Joined(FromBlobs(blobs), hashes[..Accepted(w, n)])
      && (ok <==> n == |hashes| && Accepted(w, n) == n)
  {
    var source := FromBlobs(blobs);
    written := [];
    for i := 0 to |hashes|
      invariant i <= Readable(source, hashes) && written == Joined(source, hashes[..i])
      invariant forall k :: 0 <= k < i ==> w(k)
    {
      var fetched := source(hashes[i]);
      if fetched.None? {
        AcceptedIs(w, i, i);
        return written, false;
      }
      if !w(i) {
        AcceptedIs(w, Readable(source, hashes), i);
        return written, false;
      }
      JoinedSnoc(source, hashes, i);
      written := written + fetched.value;
    }
    AcceptedIs(w, |hashes|, |hashes|);
    ok := true;
  }

  lemma {:induction false} JoinedIsContent(blobs: map<Hash, Bytes>, hashes: seq<Hash>)
    requires StoreDurability.Available(blobs, hashes)
    ensures Joined(FromBlobs(blobs), hashes) == StoreDurability.Content(blobs, hashes)
  {
    if hashes != [] { JoinedIsContent(blobs, hashes[..|hashes| - 1]); }
  }

  lemma {:induction false} AllReadable(source: Source, hashes: seq<Hash>)
    requires forall i :: 0 <= i < |hashes| ==> source(hashes[i]).Some?
    ensures Readable(source, hashes) == |hashes| && Reachable(source, hashes) == Joined(source, hashes)
  {
    var n := Readable(source, hashes);
    assert n == |hashes|;
    assert hashes[..n] == hashes;
  }

  /** When every chunk can be read, every write succeeds and the range ends inside
      the data, exactly the slice is written, as many bytes as announced, whatever
      the chunk boundaries. */
  lemma {:induction false} WholeRange(source: Source, hashes: seq<Hash>, data: Bytes, start: nat, end: nat, w: Writer,
                                      written: Bytes, ok: bool)
    requires forall i :: 0 <= i < |hashes| ==> source(hashes[i]).Some?
    requires data == Joined(source, hashes) && start <= end < |data|
    requires Streamed(source, hashes, start, end, w, written, ok) && forall k :: w(k)
    ensures ok && written == data[start..end + 1] && |written| == end - start + 1
  {
    AllReadable(source, hashes);
    assert hashes[..|hashes|] == hashes;
    var slices := Slices(source, hashes, start, end);
    AcceptedIs(w, |slices|, |slices|);
    assert slices[..|slices|] == slices;
    SlicesMakeRange(source, hashes, start, end);
  }

  /** What is written of a range is always the beginning of what was asked for. */
  lemma StreamedPrefix(source: Source, hashes: seq<Hash>, start: nat, end: nat, w: Writer, written: Bytes, ok: bool)
    requires start <= end && Streamed(source, hashes, start, end, w, written, ok)
    ensures written <= Clip(Reachable(source, hashes), start, end + 1)
    ensures ok ==> written == Clip(Reachable(source, hashes), start, end + 1)
  {
    var n := Readable(source, hashes);
    var slices := Slices(source, hashes[..n], start, end);
    var m := Accepted(w, |slices|);
    SlicesMakeRange(source, hashes[..n], start, end);
    FlattenAppend(slices[..m], slices[m..]);
    assert slices == slices[..m] + slices[m..];
    assert m == |slices| ==> slices[..m] == slices;
  }

  /** A download of a stored file, whole or by range, to an output that takes
      everything: the stream is the content, the range is exactly its slice, and
      neither fails. */
  lemma RangeIsSlice(s: StoreModel.Store, f: string, start: nat, end: nat, w: Writer, written: Bytes, ok: bool)
    requires StoreDurability.Download(s, f).Some?
    requires start <= end < |StoreDurability.Download(s, f).value|
    requires var hashes := s.manifests[s.files[f].manifest.value].chunks;
      Streamed(FromBlobs(s.blobs), hashes, start, end, w, written, ok)
    requires forall k :: w(k)
    ensures ok && written == StoreDurability.Download(s, f).value[start..end + 1]
    ensures var hashes := s.manifests[s.files[f].manifest.value].chunks;
      && Readable(FromBlobs(s.blobs), hashes) == |hashes|
      && Joined(FromBlobs(s.blobs), hashes) == StoreDurability.Download(s, f).value
  {
    var hashes := s.manifests[s.files[f].manifest.value].chunks;
    JoinedIsContent(s.blobs, hashes);
    AllReadable(FromBlobs(s.blobs), hashes);
    WholeRange(FromBlobs(s.blobs), hashes, StoreDurability.Download(s, f).value, start, end, w, written, ok);
  }
}
