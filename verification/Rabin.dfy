/** The rolling fingerprint. */
module Rabin {
  // internal/chunk/chunker.go: table construction and the two update steps, on
  // 64-bit words written as naturals below 2^64.

  import opened Common
  import opened Gf2

  const WORD: nat := 0x1_0000_0000_0000_0000

  /** Bit i of a word. */
  predicate Bit(a: nat, i: nat) {
    if i == 0 then a % 2 == 1 else Bit(a / 2, i - 1)
  }

  /** The word a << n: the bits shifted past position 63 are lost. */
  function ShiftLeft(a: nat, n: nat): (r: nat)
    ensures r < WORD
  {
    Shift(a, n) % WORD
  }

  datatype Table = Table(polynomial: nat, degree: nat, outTable: seq<nat>, modTable: seq<nat>)

  /** What the table has to hold for a window of w bytes. */
  ghost predicate Correct(t: Table, w: nat) {
    && HasDegree(t.polynomial, t.degree)
    && |t.outTable| == 256
    && forall b: Byte :: OutEntry(t, b, w)
  }

  /** A correct table whose fingerprints have room for a byte. */
  ghost predicate ValidTable(t: Table, w: nat) {
    8 <= t.degree <= 63 && Correct(t, w)
  }

  /** Entry b is the remainder of b·x^w modulo the polynomial. */
  ghost predicate OutEntry(t: Table, b: Byte, w: nat)
    requires |t.outTable| == 256
  {
    && t.outTable[b] < Pow2(t.degree)
    && Congruent(t.outTable[b], Shift(b, w), t.polynomial)
  }

  lemma {:induction false} BitIsLeading(a: nat, i: nat)
    requires a < Pow2(i + 1)
    ensures Bit(a, i) <==> a >= Pow2(i)
  {
    if i > 0 { BitIsLeading(a / 2, i - 1); }
  }

  lemma WordIsPow2()
    ensures Pow2(64) == WORD && Pow2(8) == 256
  {
    Pow2Next8(0); Pow2Next8(8); Pow2Next8(16); Pow2Next8(24);
    Pow2Next8(32); Pow2Next8(40); Pow2Next8(48); Pow2Next8(56);
  }

  lemma Pow2Next8(n: nat)
    ensures Pow2(n + 8) == 256 * Pow2(n)
  {
    assert Pow2(n + 4) == 16 * Pow2(n) by {
      assert Pow2(n + 4) == 2 * Pow2(n + 3) == 4 * Pow2(n + 2) == 8 * Pow2(n + 1);
    }
    assert Pow2(n + 8) == 2 * Pow2(n + 7) == 4 * Pow2(n + 6) == 8 * Pow2(n + 5) == 16 * Pow2(n + 4);
  }

  /** Words below 2^m shift by n without loss while m + n <= 64. */
  lemma ShiftLeftExact(a: nat, m: nat, n: nat)
    requires a < Pow2(m) && m + n <= 64
    ensures ShiftLeft(a, n) == Shift(a, n) < Pow2(m + n)
  {
    ShiftDegree(a, m, n);
    Pow2Mono(m + n, 64);
    WordIsPow2();
  }

  /** One step "shift left, subtract the polynomial when the top bit is set". */
  function TimesX(fp: nat, poly: nat, degree: nat): nat {
    var shifted := ShiftLeft(fp, 1);
    if Bit(shifted, degree) then Xor(shifted, poly) else shifted
  }

  lemma {:induction false} TimesXMeaning(fp: nat, poly: nat, d: nat)
    requires d <= 63 && HasDegree(poly, d) && fp < Pow2(d)
    ensures TimesX(fp, poly, d) < Pow2(d)
    ensures Congruent(TimesX(fp, poly, d), 2 * fp, poly)
  {
    ShiftLeftExact(fp, d, 1);
    assert Shift(fp, 1) == 2 * Shift(fp, 0) == 2 * fp;
    BitIsLeading(2 * fp, d);
    if Bit(2 * fp, d) {
      XorLeading(2 * fp, poly, d);
      CongruentAddMultiple(2 * fp, 0, poly);
    } else {
      CongruentRefl(2 * fp, poly);
    }
  }

  // --- Table construction ---------------------------------------------------

  /** The sum of f·x^j over the set bits j < n of b. */
  ghost function BitProduct(b: nat, n: nat, f: nat): nat {
    if n == 0 then 0
    else Xor(BitProduct(b, n - 1, f), if Bit(b, n - 1) then Shift(f, n - 1) else 0)
  }

  lemma {:induction false} BitProductCongruent(b: nat, n: nat, f: nat, g: nat, p: nat)
    requires Congruent(f, g, p)
    ensures Congruent(BitProduct(b, n, f), BitProduct(b, n, g), p)
  {
    if n == 0 {
      CongruentRefl(0, p);
    } else {
      BitProductCongruent(b, n - 1, f, g, p);
      CongruentShift(f, g, n - 1, p);
      CongruentRefl(0, p);
      CongruentXor(BitProduct(b, n - 1, f), BitProduct(b, n - 1, g),
                   if Bit(b, n - 1) then Shift(f, n - 1) else 0,
                   if Bit(b, n - 1) then Shift(g, n - 1) else 0, p);
    }
  }

  lemma {:induction false} BitProductZero(b: nat, n: nat)
    ensures BitProduct(b, n, 0) == 0
  {
    if n > 0 { BitProductZero(b, n - 1); ShiftZero(n - 1); }
  }

  /** The low n bits of b. */
  function Low(b: nat, n: nat): nat {
    if n == 0 then 0 else b % 2 + 2 * Low(b / 2, n - 1)
  }

  lemma {:induction false} LowSnoc(b: nat, n: nat)
    ensures Low(b, n) < Pow2(n)
    ensures Low(b, n + 1) == Low(b, n) + if Bit(b, n) then Pow2(n) else 0
  {
    if n == 0 {
      assert Low(b, 1) == b % 2 + 2 * Low(b / 2, 0);
    } else {
      LowSnoc(b / 2, n - 1);
    }
  }

  lemma {:induction false} LowAll(b: nat, n: nat)
    requires b < Pow2(n)
    ensures Low(b, n) == b
  {
    if n > 0 { LowAll(b / 2, n - 1); }
  }

  /** Setting bit m of a number below 2^m, seen after a shift by w. */
  lemma ShiftSetBit(low: nat, m: nat, w: nat)
    requires low < Pow2(m)
    ensures Xor(Shift(low, w), Shift(Shift(1, w), m)) == Shift(low + Pow2(m), w)
  {
    ShiftShift(1, w, m); ShiftShift(1, m, w);
    ShiftOne(w + m); ShiftOne(m);
    ShiftDegree(low, m, w);
    XorSetBit(Shift(low, w), w + m);
    ShiftAdd(low, Pow2(m), w);
  }

  /** Multiplying by x^w bit by bit is shifting by w. */
  lemma {:induction false} BitProductShift(b: nat, n: nat, w: nat)
    ensures BitProduct(b, n, Shift(1, w)) == Shift(Low(b, n), w)
  {
    if n == 0 {
      ShiftZero(w);
    } else {
      BitProductShift(b, n - 1, w);
      LowSnoc(b, n - 1);
      XorZero(Shift(Low(b, n - 1), w));
      ShiftSetBit(Low(b, n - 1), n - 1, w);
    }
  }

  /** The first inner loop of table construction: the carry-less product, as long
      as no bit is shifted out of the word. */
  method SumBits(b: Byte, factor: nat) returns (result: nat)
    ensures result < WORD
    ensures factor < Pow2(57) ==> result == BitProduct(b, 8, factor)
  {
    result := 0;
    WordIsPow2();
    for i := 0 to 8
      invariant result < WORD
      invariant factor < Pow2(57) ==> result == BitProduct(b, i, factor)
    {
      if Bit(b, i) {
        if factor < Pow2(57) { ShiftLeftExact(factor, 57, i); }
        XorBound(result, ShiftLeft(factor, i), 64);
        result := Xor(result, ShiftLeft(factor, i));
      } else {
        XorZero(result);
      }
    }
  }

  /** The second inner loop: reduction from bit 63 down to the degree. */
  method Reduce(product: nat, poly: nat, degree: nat) returns (result: nat)
    requires 1 <= degree <= 63 && HasDegree(poly, degree) && product < WORD
    ensures result < Pow2(degree) && Congruent(result, product, poly)
  {
    result := product;
    CongruentRefl(product, poly);
    WordIsPow2();
    var i := 63;
    while i >= degree
      invariant degree - 1 <= i <= 63
      invariant result < Pow2(i + 1)
      invariant Congruent(result, product, poly)
    {
      ReduceStep(result, product, poly, degree, i);
      if Bit(result, i) {
        result := Xor(result, ShiftLeft(poly, i - degree));
      }
      i := i - 1;
    }
  }

  lemma ReduceStep(r: nat, product: nat, poly: nat, d: nat, i: nat)
    requires d <= i <= 63 && HasDegree(poly, d) && r < Pow2(i + 1) && Congruent(r, product, poly)
    ensures var r' := if Bit(r, i) then Xor(r, ShiftLeft(poly, i - d)) else r;
            r' < Pow2(i) && Congruent(r', product, poly)
  {
    BitIsLeading(r, i);
    if Bit(r, i) {
      ShiftLeftExact(poly, d + 1, i - d);
      ShiftDegree(poly, d, i - d);
      XorLeading(r, Shift(poly, i - d), i);
      CongruentAddMultiple(r, i - d, poly);
      CongruentTrans(Xor(r, Shift(poly, i - d)), r, product, poly);
    }
  }

  method TableEntry(b: Byte, factor: nat, poly: nat, degree: nat) returns (result: nat)
    requires 1 <= degree <= 63 && HasDegree(poly, degree)
    ensures result < Pow2(degree)
    ensures factor < Pow2(57) ==> Congruent(result, BitProduct(b, 8, factor), poly)
  {
    var product := SumBits(b, factor);
    result := Reduce(product, poly, degree);
  }

  method FindDegree(poly: nat) returns (degree: nat)
    requires 2 <= poly < WORD
    ensures 1 <= degree <= 63 && HasDegree(poly, degree)
  {
    WordIsPow2();
    degree := 63;
    BitIsLeading(poly, 63);
    while degree > 0 && !Bit(poly, degree)
      invariant 0 <= degree <= 63
      invariant poly < Pow2(degree + 1)
    {
      BitIsLeading(poly, degree);
      degree := degree - 1;
    }
    BitIsLeading(poly, degree);
  }

  lemma EntryMeaning(result: nat, b: Byte, factor: nat, poly: nat, degree: nat, w: nat)
    requires Congruent(result, BitProduct(b, 8, factor), poly)
    requires Congruent(factor, Shift(1, w), poly)
    ensures Congruent(result, Shift(b, w), poly)
  {
    BitProductCongruent(b, 8, factor, Shift(1, w), poly);
    BitProductShift(b, 8, w);
    WordIsPow2();
    LowAll(b, 8);
    CongruentTrans(result, BitProduct(b, 8, factor), Shift(b, w), poly);
  }

  /** Multiples of the polynomial reduce to zero. */
  lemma EntryOfModulus(result: nat, b: Byte, poly: nat, degree: nat)
    requires HasDegree(poly, degree) && result < Pow2(degree)
    requires Congruent(result, BitProduct(b, 8, poly), poly)
    ensures result == 0
  {
    CongruentAddMultiple(0, 0, poly);
    XorZero(poly);
    BitProductCongruent(b, 8, poly, 0, poly);
    BitProductZero(b, 8);
    CongruentTrans(result, BitProduct(b, 8, poly), 0, poly);
    CongruentUnique(result, 0, poly, degree);
  }

  /** x^windowSize reduced, one doubling at a time. */
  method PowerOfX(poly: nat, degree: nat, windowSize: nat) returns (outPoly: nat)
    requires 1 <= degree <= 63 && HasDegree(poly, degree)
    ensures outPoly < Pow2(degree) && Congruent(outPoly, Shift(1, windowSize), poly)
  {
    outPoly := 1;
    CongruentRefl(1, poly);
    Pow2Mono(1, degree);
    for i := 0 to windowSize
      invariant outPoly < Pow2(degree) && Congruent(outPoly, Shift(1, i), poly)
    {
      TimesXMeaning(outPoly, poly, degree);
      CongruentDouble(outPoly, Shift(1, i), poly);
      CongruentTrans(TimesX(outPoly, poly, degree), 2 * outPoly, Shift(1, i + 1), poly);
      outPoly := ShiftLeft(outPoly, 1);
      if Bit(outPoly, degree) {
        outPoly := Xor(outPoly, poly);
      }
    }
  }

  /** The reduced power leaves room for eight shifts when the degree or the window
      does. */
  lemma PowerFits(outPoly: nat, poly: nat, degree: nat, windowSize: nat)
    requires HasDegree(poly, degree) && outPoly < Pow2(degree) && Congruent(outPoly, Shift(1, windowSize), poly)
    requires degree <= 57 || windowSize <= 56
    ensures outPoly < Pow2(57)
  {
    if degree <= 57 {
      Pow2Mono(degree, 57);
    } else {
      ShiftOne(windowSize);
      assert Pow2(windowSize + 1) == 2 * Pow2(windowSize);
      Pow2Mono(windowSize + 1, 57);
      Pow2Mono(57, degree);
      CongruentUnique(outPoly, Shift(1, windowSize), poly, degree);
    }
  }

  /** One table: reduced words, and the products of all bytes with a factor that
      leaves room for them. */
  ghost predicate Products(entries: seq<nat>, factor: nat, poly: nat, degree: nat) {
    forall b: Byte :: b < |entries| ==>
      entries[b] < Pow2(degree) && (factor < Pow2(57) ==> Congruent(entries[b], BitProduct(b, 8, factor), poly))
  }

  method FillTable(factor: nat, poly: nat, degree: nat) returns (entries: seq<nat>)
    requires 1 <= degree <= 63 && HasDegree(poly, degree)
    ensures |entries| == 256 && Products(entries, factor, poly, degree)
  {
    var table := new nat[256];
    for b := 0 to 256
      invariant Products(table[..b], factor, poly, degree)
    {
      ghost var before := table[..b];
      table[b] := TableEntry(b, factor, poly, degree);
      assert table[..b + 1] == before + [table[b]];
    }
    entries := table[..];
  }

  /** The tables of a polynomial; on a constant the reduction never ends.  The out
      table is correct unless both the degree and the window are too large for
      eight shifts to stay in the word. */
  method CreateRabinTable(poly: nat, windowSize: nat) returns (t: Table)
    requires 2 <= poly < WORD
    ensures t.polynomial == poly && 1 <= t.degree <= 63 && HasDegree(poly, t.degree)
      && |t.outTable| == |t.modTable| == 256
    ensures t.degree <= 57 || windowSize <= 56 ==> Correct(t, windowSize)
    ensures t.degree <= 56 ==> t.modTable == seq(256, _ => 0)
  {
    var degree := FindDegree(poly);
    var outPoly := PowerOfX(poly, degree, windowSize);
    var outTable := FillTable(outPoly, poly, degree);
    var modTable := FillTable(poly, poly, degree);
    t := Table(poly, degree, outTable, modTable);
    if degree <= 57 || windowSize <= 56 {
      PowerFits(outPoly, poly, degree, windowSize);
      OutEntries(t, outPoly, windowSize);
    }
    if degree <= 56 { ModEntries(t); }
  }

  lemma OutEntries(t: Table, outPoly: nat, w: nat)
    requires HasDegree(t.polynomial, t.degree) && |t.outTable| == 256 && outPoly < Pow2(57)
    requires Products(t.outTable, outPoly, t.polynomial, t.degree) && Congruent(outPoly, Shift(1, w), t.polynomial)
    ensures Correct(t, w)
  {
    forall b: Byte ensures OutEntry(t, b, w) {
      EntryMeaning(t.outTable[b], b, outPoly, t.polynomial, t.degree, w);
    }
  }

  lemma ModEntries(t: Table)
    requires HasDegree(t.polynomial, t.degree) && t.degree <= 56 && |t.modTable| == 256
    requires Products(t.modTable, t.polynomial, t.polynomial, t.degree)
    ensures t.modTable == seq(256, _ => 0)
  {
    Pow2Mono(t.degree + 1, 57);
    forall b: Byte ensures t.modTable[b] == 0 {
      EntryOfModulus(t.modTable[b], b, t.polynomial, t.degree);
    }
  }

  /** Being a correct table leaves no freedom: any two agree on every entry. */
  lemma OutTableUnique(t: Table, u: Table, w: nat)
    requires Correct(t, w) && Correct(u, w)
    requires t.polynomial == u.polynomial && t.degree == u.degree
    ensures t.outTable == u.outTable
  {
    forall b: Byte ensures t.outTable[b] == u.outTable[b] {
      assert OutEntry(t, b, w) && OutEntry(u, b, w);
      CongruentSymm(u.outTable[b], Shift(b, w), u.polynomial);
      CongruentTrans(t.outTable[b], Shift(b, w), u.outTable[b], t.polynomial);
      CongruentUnique(t.outTable[b], u.outTable[b], t.polynomial, t.degree);
    }
  }

  // --- The rolling update ---------------------------------------------------

  function PushByte(t: Table, fp: nat, b: Byte): nat {
    Xor(TimesX(fp, t.polynomial, t.degree), b)
  }

  function SlideFingerprint(t: Table, fp: nat, oldByte: Byte, newByte: Byte): nat
    requires |t.outTable| == 256
  {
    Xor(TimesX(Xor(fp, t.outTable[oldByte]), t.polynomial, t.degree), newByte)
  }

  /** While the window fills: F' = F·x + b. */
  lemma PushByteMeaning(t: Table, w: nat, fp: nat, b: Byte)
    requires ValidTable(t, w) && fp < Pow2(t.degree)
    ensures PushByte(t, fp, b) < Pow2(t.degree)
    ensures Congruent(PushByte(t, fp, b), Xor(2 * fp, b), t.polynomial)
  {
    TimesXMeaning(fp, t.polynomial, t.degree);
    WordIsPow2(); Pow2Mono(8, t.degree);
    XorBound(TimesX(fp, t.polynomial, t.degree), b, t.degree);
    CongruentRefl(b, t.polynomial);
    CongruentXor(TimesX(fp, t.polynomial, t.degree), 2 * fp, b, b, t.polynomial);
  }

  /** Once the window is full: F' = (F + gone·x^w)·x + new. */
  lemma SlideMeaning(t: Table, w: nat, fp: nat, oldByte: Byte, newByte: Byte)
    requires ValidTable(t, w) && fp < Pow2(t.degree)
    ensures SlideFingerprint(t, fp, oldByte, newByte) < Pow2(t.degree)
    ensures Congruent(SlideFingerprint(t, fp, oldByte, newByte),
                      Xor(2 * Xor(fp, Shift(oldByte, w)), newByte), t.polynomial)
  {
    assert OutEntry(t, oldByte, w);
    var p, out, removed := t.polynomial, t.outTable[oldByte], Xor(fp, t.outTable[oldByte]);
    XorBound(fp, out, t.degree);
    PushByteMeaning(t, w, removed, newByte);
    CongruentRefl(fp, p);
    CongruentXor(fp, fp, out, Shift(oldByte, w), p);
    CongruentDouble(removed, Xor(fp, Shift(oldByte, w)), p);
    CongruentRefl(newByte, p);
    CongruentXor(2 * removed, 2 * Xor(fp, Shift(oldByte, w)), newByte, newByte, p);
    CongruentTrans(SlideFingerprint(t, fp, oldByte, newByte), Xor(2 * removed, newByte),
                   Xor(2 * Xor(fp, Shift(oldByte, w)), newByte), p);
  }

  /** The fingerprint after a stream, for a window of w bytes. */
  function Fingerprint(t: Table, w: nat, s: Bytes): nat
    requires |t.outTable| == 256
  {
    if s == [] then 0 else
      var n := |s| - 1;
      var fp := Fingerprint(t, w, s[..n]);
      if n < w then PushByte(t, fp, s[n]) else SlideFingerprint(t, fp, s[n - w], s[n])
  }

  /** The stream as one polynomial: byte j has weight x^(|s| - 1 - j). */
  ghost function StreamPoly(s: Bytes): nat {
    if s == [] then 0 else Xor(2 * StreamPoly(s[..|s| - 1]), s[|s| - 1])
  }

  /** What the table-driven updates add up to: every byte that has left the
      window stays in, with weight x^a + x^(a+1) at age a. */
  ghost function ClosedForm(w: nat, s: Bytes): nat {
    if |s| <= w then StreamPoly(s)
    else Xor(StreamPoly(s), Shift(StreamPoly(s[..|s| - w]), w + 1))
  }

  /** A full-window step moves the closed form forward. */
  lemma ClosedFormStep(w: nat, s: Bytes)
    requires 0 < w < |s|
    ensures ClosedForm(w, s) ==
            Xor(2 * Xor(ClosedForm(w, s[..|s| - 1]), Shift(s[|s| - 1 - w], w)), s[|s| - 1])
  {
    var n := |s| - 1;
    var pre, gone, entered := s[..n], s[n - w], s[n];
    var a := StreamPoly(pre);
    var k := n + 1 - w;
    assert s[..k][..k - 1] == pre[..n - w] == s[..n - w];
    var q := StreamPoly(s[..n - w]);
    assert StreamPoly(s[..k]) == Xor(2 * q, gone);
    var lost := Shift(Xor(2 * q, gone), w + 1);
    ShiftXor(2 * q, gone, w + 1);
    ShiftShift(q, 1, w + 1); ShiftShift(q, w + 1, 1);
    assert Shift(q, 1) == 2 * Shift(q, 0);
    assert Shift(Shift(q, w + 1), 1) == 2 * Shift(Shift(q, w + 1), 0);
    assert lost == Xor(2 * Shift(q, w + 1), 2 * Shift(gone, w));
    calc {
      Xor(2 * Xor(ClosedForm(w, pre), Shift(gone, w)), entered);
      { if n == w { assert q == 0; ShiftZero(w + 1); XorZero(a); } }
      Xor(2 * Xor(Xor(a, Shift(q, w + 1)), Shift(gone, w)), entered);
      { XorAssoc(a, Shift(q, w + 1), Shift(gone, w)); XorDouble(Shift(q, w + 1), Shift(gone, w));
        XorDouble(a, Xor(Shift(q, w + 1), Shift(gone, w))); }
      Xor(Xor(2 * a, lost), entered);
      { XorAssoc(2 * a, lost, entered); XorComm(lost, entered); XorAssoc(2 * a, entered, lost); }
      Xor(Xor(2 * a, entered), lost);
    }
  }

  /** Main result on the fingerprint: for every stream it is the reduced residue
      of the closed form. */
  lemma {:induction false} FingerprintClosedForm(t: Table, w: nat, s: Bytes)
    requires ValidTable(t, w) && w > 0
    ensures Fingerprint(t, w, s) < Pow2(t.degree)
    ensures Congruent(Fingerprint(t, w, s), ClosedForm(w, s), t.polynomial)
  {
    var p := t.polynomial;
    if s == [] {
      CongruentRefl(0, p);
    } else {
      var n := |s| - 1;
      var pre := s[..n];
      FingerprintClosedForm(t, w, pre);
      var fp, form, b := Fingerprint(t, w, pre), ClosedForm(w, pre), s[n];
      CongruentRefl(b, p);
      if n < w {
        PushByteMeaning(t, w, fp, b);
        CongruentDouble(fp, form, p);
        CongruentXor(2 * fp, 2 * form, b, b, p);
        CongruentTrans(Fingerprint(t, w, s), Xor(2 * fp, b), Xor(2 * form, b), p);
      } else {
        var gone := s[n - w];
        SlideMeaning(t, w, fp, gone, b);
        ClosedFormStep(w, s);
        CongruentRefl(Shift(gone, w), p);
        CongruentXor(fp, form, Shift(gone, w), Shift(gone, w), p);
        CongruentDouble(Xor(fp, Shift(gone, w)), Xor(form, Shift(gone, w)), p);
        CongruentXor(2 * Xor(fp, Shift(gone, w)), 2 * Xor(form, Shift(gone, w)), b, b, p);
        CongruentTrans(Fingerprint(t, w, s), Xor(2 * Xor(fp, Shift(gone, w)), b), ClosedForm(w, s), p);
      }
    }
  }

  /** What the bytes before the window still contribute. */
  ghost function Leftover(w: nat, prefix: Bytes): nat {
    Xor(Shift(StreamPoly(prefix), w), Shift(StreamPoly(prefix), w + 1))
  }

  lemma {:induction false} StreamPolyConcat(a: Bytes, b: Bytes)
    ensures StreamPoly(a + b) == Xor(Shift(StreamPoly(a), |b|), StreamPoly(b))
  {
    if b == [] {
      assert a + b == a;
      XorZero(StreamPoly(a));
    } else {
      var k := |b| - 1;
      StreamPolyConcat(a, b[..k]);
      assert (a + b)[..|a| + k] == a + b[..k];
      XorDouble(Shift(StreamPoly(a), k), StreamPoly(b[..k]));
      XorAssoc(Shift(StreamPoly(a), |b|), 2 * StreamPoly(b[..k]), b[k]);
    }
  }

  /** The fingerprint is a function of the window alone exactly on the streams
      whose earlier bytes leave a zero residue. */
  lemma WindowLocality(t: Table, prefix: Bytes, window: Bytes)
    requires |window| > 0 && ValidTable(t, |window|)
    ensures Fingerprint(t, |window|, prefix + window) == Fingerprint(t, |window|, window)
            <==> Congruent(Leftover(|window|, prefix), 0, t.polynomial)
  {
    var w, p, s := |window|, t.polynomial, prefix + window;
    FingerprintClosedForm(t, w, s);
    FingerprintClosedForm(t, w, window);
    var f, g, left := Fingerprint(t, w, s), Fingerprint(t, w, window), Leftover(w, prefix);
    var body := StreamPoly(window);
    assert ClosedForm(w, s) == Xor(body, left) by {
      StreamPolyConcat(prefix, window);
      var up, up2 := Shift(StreamPoly(prefix), w), Shift(StreamPoly(prefix), w + 1);
      XorComm(up, body);
      XorAssoc(body, up, up2);
      if prefix == [] {
        assert s == window;
        ShiftZero(w); ShiftZero(w + 1); XorZero(body); XorZero(0);
      } else {
        assert s[..|s| - w] == prefix;
      }
    }
    XorComm(body, left);
    XorAssoc(left, body, body); XorSelf(body); XorZero(left); XorZero(body);
    CongruentSymm(f, ClosedForm(w, s), p);
    CongruentSymm(g, body, p);
    CongruentRefl(body, p);
    if f == g {
      CongruentTrans(Xor(left, body), f, body, p);
      CongruentXor(Xor(left, body), body, body, body, p);
    } else if Congruent(left, 0, p) {
      CongruentXor(left, 0, body, body, p);
      CongruentTrans(f, Xor(left, body), body, p);
      CongruentTrans(f, body, g, p);
      CongruentUnique(f, g, p, t.degree);
    }
  }

  lemma {:induction false} StreamPolyBound(s: Bytes)
    ensures StreamPoly(s) < Pow2(|s| + 7)
  {
    if s == [] {
      assert Pow2(7) >= 1;
    } else {
      var n := |s|;
      StreamPolyBound(s[..n - 1]);
      WordIsPow2();
      Pow2Mono(8, n + 7);
      XorBound(2 * StreamPoly(s[..n - 1]), s[n - 1], n + 7);
    }
  }

  /** What stays of the earlier bytes is their polynomial times (x + 1)·x^w. */
  lemma LeftoverIs(w: nat, prefix: Bytes)
    ensures Leftover(w, prefix) == Shift(Xor(StreamPoly(prefix), 2 * StreamPoly(prefix)), w)
  {
    var s := StreamPoly(prefix);
    ShiftShift(s, 1, w);
    assert Shift(s, 1) == 2 * Shift(s, 0) == 2 * s;
    ShiftXor(s, 2 * s, w);
  }

  /** The window never forgets up to 45 earlier bytes, for the polynomial the
      chunker uses: the fingerprint is that of the window alone exactly when the
      polynomial of those bytes is zero. */
  lemma WindowNotLocal(t: Table, prefix: Bytes, window: Bytes)
    requires |window| > 0 && ValidTable(t, |window|)
    requires t.polynomial % 2 == 1 && |prefix| + 8 <= t.degree
    ensures Fingerprint(t, |window|, prefix + window) == Fingerprint(t, |window|, window) <==> StreamPoly(prefix) == 0
  {
    var s, w, p := StreamPoly(prefix), |window|, t.polynomial;
    var left := Xor(s, 2 * s);
    WindowLocality(t, prefix, window);
    LeftoverIs(w, prefix);
    StreamPolyBound(prefix);
    XorOwnDouble(s, |prefix| + 7);
    Pow2Mono(|prefix| + 8, t.degree);
    if Congruent(Shift(left, w), 0, p) {
      ShiftCancels(left, w, p);
      CongruentUnique(left, 0, p, t.degree);
    }
    if s == 0 {
      ShiftZero(w);
      CongruentRefl(0, p);
    }
  }

  /** In particular no nonzero byte ahead of a full window is ever forgotten. */
  lemma ByteStays(t: Table, b: Byte, window: Bytes)
    requires |window| > 0 && ValidTable(t, |window|) && t.polynomial % 2 == 1 && t.degree >= 9 && b != 0
    ensures Fingerprint(t, |window|, [b] + window) != Fingerprint(t, |window|, window)
  {
    WindowNotLocal(t, [b], window);
    assert [b][..0] == [];
    assert StreamPoly([b]) == Xor(2 * StreamPoly([]), b);
    XorZero(b);
  }
}
