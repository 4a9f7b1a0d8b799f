/** Polynomials over the two-element field. */
module Gf2 {
  // A polynomial is a natural number whose bit i is the coefficient of x^i.
  // Addition is exclusive or, multiplication by x is doubling.

  function Pow2(n: nat): (r: nat)
    ensures r >= 1
  {
    if n == 0 then 1 else 2 * Pow2(n - 1)
  }

  /** a times x^n. */
  function Shift(a: nat, n: nat): nat {
    if n == 0 then a else 2 * Shift(a, n - 1)
  }

  /** Bitwise exclusive or; the sum of two polynomials. */
  function Xor(a: nat, b: nat): nat
    decreases a + b
  {
    if a == 0 && b == 0 then 0
    else (if a % 2 == b % 2 then 0 else 1) + 2 * Xor(a / 2, b / 2)
  }

  /** The carry-less product of two polynomials. */
  function Mul(q: nat, p: nat): nat
    decreases q
  {
    if q == 0 then 0
    else Xor(if q % 2 == 1 then p else 0, 2 * Mul(q / 2, p))
  }

  /** a and b leave the same remainder modulo p. */
  ghost predicate Congruent(a: nat, b: nat, p: nat) {
    exists q: nat :: Xor(a, b) == Mul(q, p)
  }

  /** p has degree d. */
  ghost predicate HasDegree(p: nat, d: nat) {
    Pow2(d) <= p < Pow2(d + 1)
  }

  lemma {:induction false} Pow2Mono(m: nat, n: nat)
    requires m <= n
    ensures Pow2(m) <= Pow2(n)
  {
    if m < n { Pow2Mono(m, n - 1); }
  }

  lemma {:induction false} ShiftDegree(a: nat, d: nat, n: nat)
    ensures a < Pow2(d) ==> Shift(a, n) < Pow2(d + n)
    ensures a >= Pow2(d) ==> Shift(a, n) >= Pow2(d + n)
  {
    if n > 0 { ShiftDegree(a, d, n - 1); }
  }

  lemma {:induction false} ShiftZero(n: nat)
    ensures Shift(0, n) == 0
  {
    if n > 0 { ShiftZero(n - 1); }
  }

  lemma {:induction false} ShiftShift(a: nat, m: nat, n: nat)
    ensures Shift(Shift(a, m), n) == Shift(a, m + n)
  {
    if n > 0 { ShiftShift(a, m, n - 1); }
  }

  lemma {:induction false} ShiftOne(n: nat)
    ensures Shift(1, n) == Pow2(n)
  {
    if n > 0 { ShiftOne(n - 1); }
  }

  lemma {:induction false} ShiftAdd(a: nat, b: nat, n: nat)
    ensures Shift(a + b, n) == Shift(a, n) + Shift(b, n)
  {
    if n > 0 { ShiftAdd(a, b, n - 1); }
  }

  lemma {:induction false} ShiftXor(a: nat, b: nat, n: nat)
    ensures Shift(Xor(a, b), n) == Xor(Shift(a, n), Shift(b, n))
  {
    if n > 0 {
      ShiftXor(a, b, n - 1);
      XorDouble(Shift(a, n - 1), Shift(b, n - 1));
    }
  }

  // --- Addition -------------------------------------------------------------

  lemma {:induction false} XorZero(a: nat)
    ensures Xor(a, 0) == a == Xor(0, a)
  {
    if a > 0 { XorZero(a / 2); }
  }

  lemma {:induction false} XorSelf(a: nat)
    ensures Xor(a, a) == 0
  {
    if a > 0 { XorSelf(a / 2); }
  }

  lemma {:induction false} XorComm(a: nat, b: nat)
    ensures Xor(a, b) == Xor(b, a)
    decreases a + b
  {
    if a + b > 0 { XorComm(a / 2, b / 2); }
  }

  lemma XorHalf(a: nat, b: nat)
    ensures Xor(a, b) / 2 == Xor(a / 2, b / 2)
    ensures Xor(a, b) % 2 == if a % 2 == b % 2 then 0 else 1
  {}

  lemma {:induction false} XorAssoc(a: nat, b: nat, c: nat)
    ensures Xor(Xor(a, b), c) == Xor(a, Xor(b, c))
    decreases a + b + c
  {
    if a + b + c > 0 {
      XorAssoc(a / 2, b / 2, c / 2);
      XorHalf(a, b); XorHalf(b, c);
      XorHalf(Xor(a, b), c); XorHalf(a, Xor(b, c));
    }
  }

  /** Four summands regroup crosswise. */
  lemma {:induction false} XorCross(a: nat, b: nat, c: nat, d: nat)
    ensures Xor(Xor(a, b), Xor(c, d)) == Xor(Xor(a, c), Xor(b, d))
  {
    calc {
      Xor(Xor(a, b), Xor(c, d));
      { XorAssoc(a, b, Xor(c, d)); XorAssoc(b, c, d); }
      Xor(a, Xor(Xor(b, c), d));
      { XorComm(b, c); XorAssoc(c, b, d); XorAssoc(a, c, Xor(b, d)); }
      Xor(Xor(a, c), Xor(b, d));
    }
  }

  lemma {:induction false} XorEqualsZero(a: nat, b: nat)
    requires Xor(a, b) == 0
    ensures a == b
    decreases a + b
  {
    if a + b > 0 { XorEqualsZero(a / 2, b / 2); }
  }

  lemma XorDouble(a: nat, b: nat)
    ensures Xor(2 * a, 2 * b) == 2 * Xor(a, b)
  {}

  /** The sum of polynomials of degree below n has degree below n. */
  lemma {:induction false} XorBound(a: nat, b: nat, n: nat)
    requires a < Pow2(n) && b < Pow2(n)
    ensures Xor(a, b) < Pow2(n)
    decreases n
  {
    if n > 0 && a + b > 0 { XorBound(a / 2, b / 2, n - 1); }
  }

  /** Two polynomials of the same degree cancel their leading terms. */
  lemma {:induction false} XorLeading(a: nat, b: nat, n: nat)
    requires HasDegree(a, n) && HasDegree(b, n)
    ensures Xor(a, b) < Pow2(n)
  {
    if n > 0 { XorLeading(a / 2, b / 2, n - 1); }
  }

  /** A lower-degree summand cannot cancel a higher-degree one. */
  lemma {:induction false} XorHigh(a: nat, b: nat, n: nat)
    requires a < Pow2(n) <= b
    ensures Xor(a, b) >= Pow2(n)
  {
    if n > 0 { XorHigh(a / 2, b / 2, n - 1); } else { XorZero(b); }
  }

  /** Adding x^n to a polynomial of degree below n sets bit n. */
  lemma {:induction false} XorSetBit(a: nat, n: nat)
    requires a < Pow2(n)
    ensures Xor(a, Pow2(n)) == a + Pow2(n)
  {
    if n > 0 { XorSetBit(a / 2, n - 1); }
  }

  // --- Multiplication -------------------------------------------------------

  lemma MulDouble(q: nat, p: nat)
    ensures Mul(2 * q, p) == 2 * Mul(q, p)
  {
    XorZero(2 * Mul(q, p));
  }

  lemma MulOne(p: nat)
    ensures Mul(1, p) == p
  {
    XorZero(p);
    assert Mul(0, p) == 0;
  }

  lemma {:induction false} MulDistributes(q: nat, r: nat, p: nat)
    ensures Mul(Xor(q, r), p) == Xor(Mul(q, p), Mul(r, p))
    decreases q + r
  {
    if q + r > 0 {
      MulDistributes(q / 2, r / 2, p);
      var ql, rl := if q % 2 == 1 then p else 0, if r % 2 == 1 then p else 0;
      XorHalf(q, r);
      XorDouble(Mul(q / 2, p), Mul(r / 2, p));
      XorCross(ql, 2 * Mul(q / 2, p), rl, 2 * Mul(r / 2, p));
      XorZero(p); XorSelf(p);
      XorZero(2 * Mul(q / 2, p)); XorZero(2 * Mul(r / 2, p)); XorZero(2 * Mul(Xor(q / 2, r / 2), p));
      assert Mul(q, p) == Xor(ql, 2 * Mul(q / 2, p));
      assert Mul(r, p) == Xor(rl, 2 * Mul(r / 2, p));
    }
  }

  /** A nonzero multiple of p has at least p's degree. */
  lemma {:induction false} MulDegree(q: nat, p: nat, d: nat)
    requires q > 0 && HasDegree(p, d)
    ensures Mul(q, p) >= Pow2(d)
    decreases q
  {
    if q == 1 {
      MulOne(p);
    } else {
      MulDegree(q / 2, p, d);
      XorHigh(if q % 2 == 1 then p else 0, 2 * Mul(q / 2, p), d + 1);
    }
  }

  // --- Congruence -----------------------------------------------------------

  lemma CongruentRefl(a: nat, p: nat)
    ensures Congruent(a, a, p)
  {
    XorSelf(a);
    assert Mul(0, p) == 0;
  }

  lemma CongruentSymm(a: nat, b: nat, p: nat)
    requires Congruent(a, b, p)
    ensures Congruent(b, a, p)
  {
    XorComm(a, b);
  }

  /** Congruences may be added. */
  lemma {:induction false} CongruentXor(a: nat, b: nat, c: nat, d: nat, p: nat)
    requires Congruent(a, b, p) && Congruent(c, d, p)
    ensures Congruent(Xor(a, c), Xor(b, d), p)
  {
    var q: nat :| Xor(a, b) == Mul(q, p);
    var r: nat :| Xor(c, d) == Mul(r, p);
    XorCross(a, c, b, d);
    MulDistributes(q, r, p);
    assert Xor(Xor(a, c), Xor(b, d)) == Mul(Xor(q, r), p);
  }

  lemma CongruentTrans(a: nat, b: nat, c: nat, p: nat)
    requires Congruent(a, b, p) && Congruent(b, c, p)
    ensures Congruent(a, c, p)
  {
    CongruentXor(a, b, b, c, p);
    var q: nat :| Xor(Xor(a, b), Xor(b, c)) == Mul(q, p);
    calc {
      Xor(Xor(a, b), Xor(b, c));
      { XorAssoc(a, b, Xor(b, c)); XorAssoc(b, b, c); XorSelf(b); XorZero(c); }
      Xor(a, c);
    }
  }

  /** Congruences may be multiplied by x. */
  lemma CongruentDouble(a: nat, b: nat, p: nat)
    requires Congruent(a, b, p)
    ensures Congruent(2 * a, 2 * b, p)
  {
    var q: nat :| Xor(a, b) == Mul(q, p);
    XorDouble(a, b);
    MulDouble(q, p);
    assert Xor(2 * a, 2 * b) == Mul(2 * q, p);
  }

  lemma {:induction false} CongruentShift(a: nat, b: nat, n: nat, p: nat)
    requires Congruent(a, b, p)
    ensures Congruent(Shift(a, n), Shift(b, n), p)
  {
    if n > 0 {
      CongruentShift(a, b, n - 1, p);
      CongruentDouble(Shift(a, n - 1), Shift(b, n - 1), p);
    }
  }

  /** Adding a shifted copy of the modulus changes nothing. */
  lemma CongruentAddMultiple(a: nat, n: nat, p: nat)
    ensures Congruent(Xor(a, Shift(p, n)), a, p)
  {
    MulOne(p); XorZero(p);
    assert Xor(p, 0) == Mul(1, p);
    assert Congruent(p, 0, p);
    CongruentShift(p, 0, n, p);
    CongruentRefl(a, p);
    ShiftZero(n);
    CongruentXor(a, a, Shift(p, n), 0, p);
    XorZero(a);
  }

  /** Reduced residues are unique. */
  lemma CongruentUnique(a: nat, b: nat, p: nat, d: nat)
    requires HasDegree(p, d) && a < Pow2(d) && b < Pow2(d)
    requires Congruent(a, b, p)
    ensures a == b
  {
    var q: nat :| Xor(a, b) == Mul(q, p);
    XorBound(a, b, d);
    if q > 0 {
      MulDegree(q, p, d);
    } else {
      XorEqualsZero(a, b);
    }
  }

  /** Multiplying by an odd polynomial keeps the constant term. */
  lemma MulParity(q: nat, p: nat)
    requires p % 2 == 1
    ensures Mul(q, p) % 2 == q % 2
  {
    if q > 0 { XorHalf(if q % 2 == 1 then p else 0, 2 * Mul(q / 2, p)); }
  }

  /** Powers of x cancel modulo an odd polynomial. */
  lemma {:induction false} ShiftCancels(a: nat, n: nat, p: nat)
    requires p % 2 == 1 && Congruent(Shift(a, n), 0, p)
    ensures Congruent(a, 0, p)
  {
    if n > 0 {
      var q: nat :| Xor(Shift(a, n), 0) == Mul(q, p);
      XorZero(Shift(a, n));
      MulParity(q, p);
      MulDouble(q / 2, p);
      XorZero(Shift(a, n - 1));
      assert Xor(Shift(a, n - 1), 0) == Mul(q / 2, p);
      ShiftCancels(a, n - 1, p);
    }
  }

  /** Multiplying by x + 1 loses nothing. */
  lemma XorOwnDouble(a: nat, n: nat)
    requires a < Pow2(n)
    ensures Xor(a, 2 * a) < Pow2(n + 1)
    ensures Xor(a, 2 * a) == 0 <==> a == 0
  {
    XorBound(a, 2 * a, n + 1);
    if Xor(a, 2 * a) == 0 { XorEqualsZero(a, 2 * a); }
  }
}
