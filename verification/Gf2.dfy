/**
 Polynomials over GF(2) of degree at most 13, as 16-bit words, multiplied modulo the
 characteristic polynomial of a shift register. Every fact about words is proved here, so
 that the algebra that uses them can treat the operations as opaque.
 */
module Gf2 {
  type Poly = bv16

  function Add(q: Poly, r: Poly): Poly { q ^ r }

  function Twice(q: Poly): Poly { q << 1 }

  function Half(q: Poly): Poly { q >> 1 }

  predicate Odd(q: Poly) { q & 1 == 1 }

  predicate Has(q: Poly, bit: Poly) { q & bit != 0 }

  predicate Within(q: Poly, mask: Poly) { q & mask == q }

  /** The monomial x^k. */
  function Monomial(k: nat): Poly
    requires k < 16
  {
    if k == 0 then 1 else Twice(Monomial(k - 1))
  }

  /**
   The characteristic polynomial of a register of n <= 14 bits: `top` is x^(n-1), `mask`
   holds the n coefficients of a reduced polynomial and `low` is x^n reduced.
   */
  datatype Modulus = Modulus(top: Poly, mask: Poly, low: Poly) {
    predicate Ok() {
      && top & (top - 1) == 0
      && mask & 0xC000 == 0
      && low & mask == low
      && top & mask == top
      && ((mask ^ top) << 1) & mask == (mask ^ top) << 1
    }
  }

  /** `x * q` reduced. */
  function MulX(p: Modulus, q: Poly): Poly
  {
    if Has(q, p.top) then Add(Twice(Add(q, p.top)), p.low) else Twice(q)
  }

  /** One step of Horner's rule for `a * b`, at the coefficient of `a` that `bit` selects. */
  function Horner(p: Modulus, a: Poly, b: Poly, bit: Poly, acc: Poly): Poly
  {
    if Has(a, bit) then Add(b, MulX(p, acc)) else MulX(p, acc)
  }

  /** Four steps of Horner's rule, from `bit` down. */
  function Horner4(p: Modulus, a: Poly, b: Poly, bit: Poly, acc: Poly): Poly
  {
    var h := Horner(p, a, b, bit, acc);
    var h := Horner(p, a, b, bit >> 1, h);
    var h := Horner(p, a, b, bit >> 2, h);
    Horner(p, a, b, bit >> 3, h)
  }

  function Horner8(p: Modulus, a: Poly, b: Poly, bit: Poly, acc: Poly): Poly
  {
    Horner4(p, a, b, bit >> 4, Horner4(p, a, b, bit, acc))
  }

  /** `a * b` reduced. */
  function Mul(p: Modulus, a: Poly, b: Poly): Poly
  {
    Horner8(p, a, b, 0x0080, Horner8(p, a, b, 0x8000, 0))
  }

  lemma AddHalves(q: Poly, r: Poly)
    ensures Half(Add(q, r)) == Add(Half(q), Half(r))
    ensures Odd(Add(q, r)) <==> Odd(q) != Odd(r)
  {
  }

  lemma AddZero(r: Poly)
    ensures Add(0, r) == r
  {
  }

  lemma Monomials()
    ensures Monomial(0) == 1 && Monomial(1) == 2 && Monomial(2) == 4 && Monomial(3) == 8
    ensures Monomial(4) == 0x10 && Monomial(5) == 0x20 && Monomial(6) == 0x40 && Monomial(7) == 0x80
    ensures Monomial(8) == 0x100 && Monomial(9) == 0x200 && Monomial(10) == 0x400 && Monomial(11) == 0x800
    ensures Monomial(12) == 0x1000 && Monomial(13) == 0x2000 && Monomial(14) == 0x4000 && Monomial(15) == 0x8000
  {
  }

  lemma MonomialHalf(k: nat)
    requires 0 < k < 16
    ensures Monomial(k) != 0 && !Odd(Monomial(k)) && Half(Monomial(k)) == Monomial(k - 1)
  {
    var m: seq<Poly> := [1, 2, 4, 8, 0x10, 0x20, 0x40, 0x80, 0x100, 0x200, 0x400, 0x800, 0x1000, 0x2000, 0x4000, 0x8000];
    var j := 1;
    while j < k
      invariant 1 <= j <= k && Monomial(j) == m[j] && Monomial(j - 1) == m[j - 1]
    {
      j := j + 1;
    }
  }

  lemma TwiceHalf(p: Modulus, q: Poly)
    requires p.Ok() && Within(q, p.mask)
    ensures Half(Twice(q)) == q && !Odd(Twice(q))
  {
  }

  lemma SplitTop(p: Modulus, q: Poly)
    ensures Twice(q) == Add(Twice(Add(q, p.top)), Twice(p.top))
  {
  }

  lemma OneBit(top: Poly, q: Poly)
    requires top & (top - 1) == 0
    ensures q & top == 0 || q & top == top
  {
  }

  lemma TwiceWithin(top: Poly, mask: Poly, q: Poly)
    requires Within(q, mask) && Within(top, mask) && ((mask ^ top) << 1) & mask == (mask ^ top) << 1
    requires q & top == 0 || q & top == top
    ensures !Has(q, top) ==> Within(Twice(q), mask)
    ensures Has(q, top) ==> Within(Twice(Add(q, top)), mask)
  {
  }

  lemma MulXWithin(p: Modulus, q: Poly)
    requires p.Ok() && Within(q, p.mask)
    ensures Within(MulX(p, q), p.mask)
  {
    assert Within(p.top, p.mask) && Within(p.low, p.mask);
    hide Within, Add, Twice, Has;
    OneBit(p.top, q);
    TwiceWithin(p.top, p.mask, q);
    if Has(q, p.top) {
      AddWithin(Twice(Add(q, p.top)), p.low, p.mask);
    }
  }

  lemma AddWithin(q: Poly, r: Poly, mask: Poly)
    requires Within(q, mask) && Within(r, mask)
    ensures Within(Add(q, r), mask)
  {
  }

  lemma ZeroWithin(mask: Poly)
    ensures Within(0, mask)
  {
  }

  /** `a` without its `k` lowest coefficients. */
  function Drop(a: Poly, k: nat): Poly
  {
    if k == 0 then a else Half(Drop(a, k - 1))
  }

  /** `bit` selects the coefficient of `a` that becomes the lowest once `k` are dropped. */
  predicate Selects(a: Poly, bit: Poly, k: nat)
  {
    Odd(Drop(a, k)) <==> Has(a, bit)
  }

  predicate Selects4(a: Poly, bit: Poly, k: nat)
  {
    Selects(a, bit, k + 3) && Selects(a, bit >> 1, k + 2) && Selects(a, bit >> 2, k + 1) && Selects(a, bit >> 3, k)
  }

  predicate Selects8(a: Poly, bit: Poly, k: nat)
  {
    Selects4(a, bit, k + 4) && Selects4(a, bit >> 4, k)
  }

  lemma DropShifts(a: Poly)
    ensures Drop(a, 0) == a && Drop(a, 1) == a >> 1 && Drop(a, 2) == a >> 2 && Drop(a, 3) == a >> 3
    ensures Drop(a, 4) == a >> 4 && Drop(a, 5) == a >> 5 && Drop(a, 6) == a >> 6 && Drop(a, 7) == a >> 7
    ensures Drop(a, 8) == a >> 8 && Drop(a, 9) == a >> 9 && Drop(a, 10) == a >> 10 && Drop(a, 11) == a >> 11
    ensures Drop(a, 12) == a >> 12 && Drop(a, 13) == a >> 13 && Drop(a, 14) == a >> 14 && Drop(a, 15) == a >> 15
    ensures Drop(a, 16) == 0
  {
  }

  lemma ShiftedLowBits(a: Poly)
    ensures (Has(a, 0x0001) <==> Odd(a)) && (Has(a, 0x0002) <==> Odd(a >> 1))
    ensures (Has(a, 0x0004) <==> Odd(a >> 2)) && (Has(a, 0x0008) <==> Odd(a >> 3))
    ensures (Has(a, 0x0010) <==> Odd(a >> 4)) && (Has(a, 0x0020) <==> Odd(a >> 5))
    ensures (Has(a, 0x0040) <==> Odd(a >> 6)) && (Has(a, 0x0080) <==> Odd(a >> 7))
  {
  }

  lemma ShiftedHighBits(a: Poly)
    ensures (Has(a, 0x0100) <==> Odd(a >> 8)) && (Has(a, 0x0200) <==> Odd(a >> 9))
    ensures (Has(a, 0x0400) <==> Odd(a >> 10)) && (Has(a, 0x0800) <==> Odd(a >> 11))
    ensures (Has(a, 0x1000) <==> Odd(a >> 12)) && (Has(a, 0x2000) <==> Odd(a >> 13))
    ensures (Has(a, 0x4000) <==> Odd(a >> 14)) && (Has(a, 0x8000) <==> Odd(a >> 15))
  {
  }

  /** The coefficients Horner's rule selects are those met by repeated halving. */
  lemma Coefficients(a: Poly)
    ensures Drop(a, 16) == 0
    ensures Selects8(a, 0x8000, 8) && Selects8(a, 0x0080, 0)
  {
    hide Drop, Has, Odd;
    DropShifts(a);
    ShiftedLowBits(a);
    ShiftedHighBits(a);
  }
}
