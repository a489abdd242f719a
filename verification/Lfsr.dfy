/**
 The feedback shift registers behind the cell and frequency interleavers, for any degree and
 any set of taps: the step is an injective GF(2)-linear map, and polynomials over GF(2) act
 on its states, as many steps as a register has bits acting as its tap polynomial.
 */
module Lfsr {
  import opened Bits
  import opened Gf2

  /** Register of `n` bits; `taps` lists the positions fed back, as in the source's `logic` tables. */
  datatype Reg = Reg(n: nat, taps: seq<nat>) {
    predicate Ok() {
      && n > 0
      && |taps| > 0
      && taps[0] == 0
      && (forall k :: 0 < k < |taps| ==> 0 < taps[k] < n)
    }

    function Size(): nat { Pow2(n) }
  }

  /** The exclusive or of the tapped bits of `s`. */
  function Feedback(taps: seq<nat>, s: nat): (b: nat)
    ensures b < 2
  {
    if taps == [] then 0 else (Feedback(taps[..|taps| - 1], s) + BitAt(s, taps[|taps| - 1])) % 2
  }

  function Step(g: Reg, s: nat): (t: nat)
    requires g.Ok() && s < g.Size()
    ensures t < g.Size()
  {
    s / 2 + Feedback(g.taps, s) * Pow2(g.n - 1)
  }

  function Run(g: Reg, s: nat, k: nat): (t: nat)
    requires g.Ok() && s < g.Size()
    ensures t < g.Size()
  {
    if k == 0 then s else Step(g, Run(g, s, k - 1))
  }

  lemma {:induction false} RunAdds(g: Reg, s: nat, j: nat, k: nat)
    requires g.Ok() && s < g.Size()
    ensures Run(g, Run(g, s, j), k) == Run(g, s, j + k)
  {
    if k > 0 {
      RunAdds(g, s, j, k - 1);
    }
  }

  // ---- Injectivity ----

  /** With tap 0 present, the low bit is the feedback corrected by the other taps. */
  lemma {:induction false} FeedbackSeesLowBit(taps: seq<nat>, s: nat, t: nat)
    requires |taps| > 0 && taps[0] == 0 && forall k :: 0 < k < |taps| ==> 0 < taps[k]
    requires s / 2 == t / 2
    ensures Feedback(taps, s) == Feedback(taps, t) <==> s % 2 == t % 2
  {
    var last := |taps| - 1;
    if last == 0 {
      assert taps[..last] == [] && Feedback([], s) == Feedback([], t) == 0;
    } else {
      hide BitAt;
      FeedbackSeesLowBit(taps[..last], s, t);
      SameHigherBit(s, t, taps[last]);
    }
  }

  lemma SameHigherBit(s: nat, t: nat, k: nat)
    requires s / 2 == t / 2 && k > 0
    ensures BitAt(s, k) == BitAt(t, k)
  {
  }

  lemma TopBitSplits(a: nat, b: nat, c: nat, d: nat, m: nat)
    requires a < m && b < m && c < 2 && d < 2
    requires a + c * m == b + d * m
    ensures a == b && c == d
  {
    if c == 0 {
      assert d * m < m;
    } else {
      assert d * m > 0;
    }
  }

  lemma StepInjective(g: Reg, s: nat, t: nat)
    requires g.Ok() && s < g.Size() && t < g.Size()
    requires Step(g, s) == Step(g, t)
    ensures s == t
  {
    TopBitSplits(s / 2, t / 2, Feedback(g.taps, s), Feedback(g.taps, t), Pow2(g.n - 1));
    FeedbackSeesLowBit(g.taps, s, t);
  }

  lemma {:induction false} RunInjective(g: Reg, s: nat, t: nat, k: nat)
    requires g.Ok() && s < g.Size() && t < g.Size()
    requires Run(g, s, k) == Run(g, t, k)
    ensures s == t
  {
    if k > 0 {
      StepInjective(g, Run(g, s, k - 1), Run(g, t, k - 1));
      RunInjective(g, s, t, k - 1);
    }
  }

  // ---- Linearity ----

  lemma {:induction false} FeedbackLinear(taps: seq<nat>, s: nat, t: nat)
    ensures Feedback(taps, Xor(s, t)) == (Feedback(taps, s) + Feedback(taps, t)) % 2
  {
    hide Xor, BitAt;
    if taps != [] {
      var last := |taps| - 1;
      FeedbackLinear(taps[..last], s, t);
      BitOfXor(s, t, taps[last]);
      ParityInterchange(Feedback(taps[..last], s), Feedback(taps[..last], t), BitAt(s, taps[last]), BitAt(t, taps[last]));
    }
  }

  lemma ParityInterchange(a: nat, b: nat, c: nat, d: nat)
    requires a < 2 && b < 2 && c < 2 && d < 2
    ensures ((a + b) % 2 + (c + d) % 2) % 2 == ((a + c) % 2 + (b + d) % 2) % 2
  {
  }

  lemma HalfBelow(g: Reg, s: nat)
    requires g.Ok() && s < g.Size()
    ensures s / 2 < Pow2(g.n - 1)
  {
  }

  lemma StepLinear(g: Reg, s: nat, t: nat)
    requires g.Ok() && s < g.Size() && t < g.Size()
    ensures Xor(s, t) < g.Size()
    ensures Step(g, Xor(s, t)) == Xor(Step(g, s), Step(g, t))
  {
    hide Xor, Pow2, Feedback;
    HalfBelow(g, s);
    HalfBelow(g, t);
    XorBelow(s, t, g.n);
    XorHalf(s, t);
    FeedbackLinear(g.taps, s, t);
    XorTop(s / 2, t / 2, Feedback(g.taps, s), Feedback(g.taps, t), g.n - 1);
  }

  lemma {:induction false} FeedbackOfZero(taps: seq<nat>)
    ensures Feedback(taps, 0) == 0
  {
    if taps != [] {
      FeedbackOfZero(taps[..|taps| - 1]);
      BitOfZero(taps[|taps| - 1]);
    }
  }

  lemma StepOfZero(g: Reg)
    requires g.Ok()
    ensures Step(g, 0) == 0
  {
    FeedbackOfZero(g.taps);
  }

  lemma {:induction false} RunOfZero(g: Reg, k: nat)
    requires g.Ok()
    ensures Run(g, 0, k) == 0
  {
    StepOfZero(g);
    if k > 0 {
      RunOfZero(g, k - 1);
    }
  }

  // ---- Polynomials in the step ----

  /** The polynomial `r` evaluated at the step, applied to `s`. */
  function Act(g: Reg, r: Poly, s: nat): (t: nat)
    requires g.Ok() && s < g.Size()
    ensures t < g.Size()
    decreases r
  {
    if r == 0 then 0
    else
      var rest := Act(g, Half(r), Step(g, s));
      XorBelow(s, rest, g.n);
      if Odd(r) then Xor(s, rest) else rest
  }

  lemma ActUnfold(g: Reg, r: Poly, s: nat)
    requires g.Ok() && s < g.Size()
    ensures Act(g, r, s) == Xor(if Odd(r) then s else 0, Act(g, Half(r), Step(g, s)))
  {
    XorZero(Act(g, Half(r), Step(g, s)));
    if r == 0 {
      XorZero(0);
    }
  }

  lemma {:induction false} ActCommutesWithStep(g: Reg, r: Poly, s: nat)
    requires g.Ok() && s < g.Size()
    ensures Act(g, r, Step(g, s)) == Step(g, Act(g, r, s))
    decreases r
  {
    StepOfZero(g);
    if r != 0 {
      ActCommutesWithStep(g, Half(r), Step(g, s));
      StepLinear(g, s, Act(g, Half(r), Step(g, s)));
    }
  }

  lemma {:induction false} ActAddsPolynomials(g: Reg, q: Poly, r: Poly, s: nat)
    requires g.Ok() && s < g.Size()
    ensures Act(g, Add(q, r), s) == Xor(Act(g, q, s), Act(g, r, s))
    decreases q
  {
    if q == 0 {
      AddZero(r);
      XorZero(Act(g, r, s));
    } else {
      assert Half(q) < q;
      hide Act, Xor, Half, Odd, Add;
      var t := Step(g, s);
      ActUnfold(g, q, s);
      ActUnfold(g, r, s);
      ActUnfold(g, Add(q, r), s);
      AddHalves(q, r);
      ActAddsPolynomials(g, Half(q), Half(r), t);
      var q0, r0 := if Odd(q) then s else 0, if Odd(r) then s else 0;
      XorInterchange(q0, Act(g, Half(q), t), r0, Act(g, Half(r), t));
      XorZero(s);
      XorSelf(s);
      XorZero(0);
    }
  }

  lemma {:induction false} ActOfMonomial(g: Reg, k: nat, s: nat)
    requires g.Ok() && s < g.Size() && k < 16
    ensures Act(g, Monomial(k), s) == Run(g, s, k)
    decreases k
  {
    if k == 0 {
      XorZero(s);
      assert Act(g, Half(1), Step(g, s)) == 0;
    } else {
      MonomialHalf(k);
      ActOfMonomial(g, k - 1, Step(g, s));
      RunAdds(g, s, 1, k - 1);
    }
  }

  // ---- The characteristic polynomial ----

  /** Bit `j` of a state is the low bit of the state `j` steps later. */
  lemma {:induction false} BitIsLaterLowBit(g: Reg, s: nat, j: nat)
    requires g.Ok() && s < g.Size() && j < g.n
    ensures BitAt(s, j) == Run(g, s, j) % 2
    decreases j
  {
    hide BitAt, Pow2, Feedback, Run;
    RunsFrom(g, s);
    LowBit(s, j);
    if j > 0 {
      var t := Step(g, s);
      BitIsLaterLowBit(g, t, j - 1);
      RunAdds(g, s, 1, j - 1);
      HalfInside(g, s);
      BitBelowTop(s / 2, Feedback(g.taps, s), g.n - 1, j - 1);
    }
  }

  lemma RunsFrom(g: Reg, s: nat)
    requires g.Ok() && s < g.Size()
    ensures Run(g, s, 0) == s && Run(g, s, 1) == Step(g, s)
  {
    hide Step;
    assert Run(g, s, 0) == s;
  }

  lemma LowBit(s: nat, j: nat)
    ensures BitAt(s, 0) == s % 2 && (j > 0 ==> BitAt(s, j) == BitAt(s / 2, j - 1))
  {
  }

  lemma HalfInside(g: Reg, s: nat)
    requires g.Ok() && s < g.Size()
    ensures s / 2 < Pow2(g.n - 1)
  {
  }

  lemma {:induction false} BitBelowTop(x: nat, b: nat, m: nat, k: nat)
    requires x < Pow2(m) && b < 2
    ensures k < m ==> BitAt(x + b * Pow2(m), k) == BitAt(x, k)
    ensures k == m ==> BitAt(x + b * Pow2(m), k) == b
    decreases m
  {
    if m > 0 {
      Even(x, b, m);
      if k > 0 {
        BitBelowTop(x / 2, b, m - 1, k - 1);
      }
    }
  }

  /** The exclusive or of the states reached after each tap's number of steps. */
  function TapSum(g: Reg, taps: seq<nat>, s: nat): (t: nat)
    requires g.Ok() && s < g.Size()
    ensures t < g.Size()
  {
    if taps == [] then 0
    else
      var t, u := TapSum(g, taps[..|taps| - 1], s), Run(g, s, taps[|taps| - 1]);
      XorBelow(t, u, g.n);
      Xor(t, u)
  }

  function TapPolynomial(taps: seq<nat>): Poly
    requires forall k :: 0 <= k < |taps| ==> taps[k] < 16
  {
    if taps == [] then 0 else Add(TapPolynomial(taps[..|taps| - 1]), Monomial(taps[|taps| - 1]))
  }

  lemma TapPolynomialPlus(taps: seq<nat>, t: nat, q: Poly, m: Poly)
    requires t < 16 && forall k :: 0 <= k < |taps| ==> taps[k] < 16
    requires TapPolynomial(taps) == q && Monomial(t) == m
    ensures TapPolynomial(taps + [t]) == q ^ m
  {
    assert (taps + [t])[..|taps|] == taps;
  }

  lemma {:induction false} ActOfTapPolynomial(g: Reg, taps: seq<nat>, s: nat)
    requires g.Ok() && s < g.Size()
    requires forall k :: 0 <= k < |taps| ==> taps[k] < 16
    ensures Act(g, TapPolynomial(taps), s) == TapSum(g, taps, s)
  {
    if taps != [] {
      var last := |taps| - 1;
      ActOfTapPolynomial(g, taps[..last], s);
      ActOfMonomial(g, taps[last], s);
      ActAddsPolynomials(g, TapPolynomial(taps[..last]), Monomial(taps[last]), s);
    }
  }

  lemma {:induction false} BitOfTapSum(g: Reg, taps: seq<nat>, s: nat, j: nat)
    requires g.Ok() && s < g.Size() && j < g.n
    requires forall k :: 0 <= k < |taps| ==> taps[k] < g.n
    ensures BitAt(TapSum(g, taps, s), j) == Feedback(taps, Run(g, s, j))
  {
    if taps == [] {
      BitOfZero(j);
    } else {
      var last := |taps| - 1;
      var k := taps[last];
      BitOfTapSum(g, taps[..last], s, j);
      BitOfXor(TapSum(g, taps[..last], s), Run(g, s, k), j);
      BitIsLaterLowBit(g, Run(g, s, k), j);
      BitIsLaterLowBit(g, Run(g, s, j), k);
      RunAdds(g, s, k, j);
      RunAdds(g, s, j, k);
    }
  }

  /** Bit `j` of the state `n` steps on is the feedback of the state `j` steps on. */
  lemma BitOfFullRun(g: Reg, s: nat, j: nat)
    requires g.Ok() && s < g.Size() && j < g.n
    ensures BitAt(Run(g, s, g.n), j) == Feedback(g.taps, Run(g, s, j))
  {
    hide BitAt, Feedback, Step, Pow2, Run;
    var t := Run(g, s, j);
    FedBack(g, t);
    RunsFrom(g, t);
    RunAdds(g, s, j, 1);
    BitIsLaterLowBit(g, Run(g, s, g.n), j);
    RunAdds(g, s, g.n, j);
    RunAdds(g, s, j + 1, g.n - 1);
    BitIsLaterLowBit(g, Step(g, t), g.n - 1);
  }

  /** The top bit after a step is what was fed back. */
  lemma FedBack(g: Reg, t: nat)
    requires g.Ok() && t < g.Size()
    ensures BitAt(Step(g, t), g.n - 1) == Feedback(g.taps, t)
  {
    hide BitAt, Feedback, Pow2;
    HalfInside(g, t);
    BitBelowTop(t / 2, Feedback(g.taps, t), g.n - 1, g.n - 1);
  }

  /** The step satisfies its own characteristic polynomial: x^n acts as the sum of the tapped powers. */
  lemma CharacteristicPolynomial(g: Reg, s: nat)
    requires g.Ok() && g.n <= 16 && s < g.Size()
    ensures Run(g, s, g.n) == Act(g, TapPolynomial(g.taps), s)
  {
    hide Run, BitAt, Act, TapSum, TapPolynomial;
    forall j: nat | j < g.n ensures BitAt(Run(g, s, g.n), j) == BitAt(TapSum(g, g.taps, s), j) {
      BitOfFullRun(g, s, j);
      BitOfTapSum(g, g.taps, s, j);
    }
    SameBits(Run(g, s, g.n), TapSum(g, g.taps, s), g.n);
    ActOfTapPolynomial(g, g.taps, s);
  }

  // ---- Multiplication modulo the characteristic polynomial ----

  /** `p` describes the characteristic polynomial of `g`. */
  predicate Describes(p: Modulus, g: Reg)
    requires g.Ok()
  {
    g.n <= 14 && p.Ok() && Drop(p.mask, g.n) == 0 && p.top == Monomial(g.n - 1) && p.low == TapPolynomial(g.taps)
  }

  lemma ActOfDouble(g: Reg, p: Modulus, q: Poly, s: nat)
    requires g.Ok() && Describes(p, g) && s < g.Size() && Within(q, p.mask)
    ensures Act(g, Twice(q), s) == Step(g, Act(g, q, s))
  {
    assert p.Ok();
    hide *;
    TwiceHalf(p, q);
    ActUnfold(g, Twice(q), s);
    XorZero(Act(g, q, Step(g, s)));
    ActCommutesWithStep(g, q, s);
  }

  lemma ActOfMulX(g: Reg, p: Modulus, q: Poly, s: nat)
    requires g.Ok() && Describes(p, g) && s < g.Size() && Within(q, p.mask)
    ensures Act(g, MulX(p, q), s) == Step(g, Act(g, q, s))
  {
    ActOfDouble(g, p, q, s);
    if Has(q, p.top) {
      var d := Twice(Add(q, p.top));
      assert MulX(p, q) == Add(d, p.low) && g.n <= 14 && p.low == TapPolynomial(g.taps);
      assert Monomial(g.n) == Twice(p.top);
      hide *;
      SplitTop(p, q);
      ActAddsPolynomials(g, d, Monomial(g.n), s);
      ActAddsPolynomials(g, d, p.low, s);
      CharacteristicPolynomial(g, s);
      ActOfMonomial(g, g.n, s);
    } else {
      assert MulX(p, q) == Twice(q);
    }
  }

  /** Horner's rule brings one more coefficient of `a` into the action. */
  lemma ActOfHorner(g: Reg, p: Modulus, a: Poly, b: Poly, bit: Poly, acc: Poly, k: nat, s: nat)
    requires g.Ok() && Describes(p, g) && s < g.Size() && Within(b, p.mask) && Within(acc, p.mask)
    requires Selects(a, bit, k)
    requires Act(g, acc, s) == Act(g, Drop(a, k + 1), Act(g, b, s))
    ensures Act(g, Horner(p, a, b, bit, acc), s) == Act(g, Drop(a, k), Act(g, b, s))
    ensures Within(Horner(p, a, b, bit, acc), p.mask)
  {
    var t, m, lo := Act(g, b, s), MulX(p, acc), Drop(a, k);
    assert p.Ok() && Drop(a, k + 1) == Half(lo);
    assert Horner(p, a, b, bit, acc) == if Has(a, bit) then Add(b, m) else m;
    hide *;
    ActOfMulX(g, p, acc, s);
    MulXWithin(p, acc);
    ActCommutesWithStep(g, Half(lo), t);
    ActUnfold(g, lo, t);
    XorZero(Act(g, m, s));
    if Has(a, bit) {
      AddWithin(b, m, p.mask);
      ActAddsPolynomials(g, b, m, s);
    }
  }

  lemma ActOfHorner4(g: Reg, p: Modulus, a: Poly, b: Poly, bit: Poly, acc: Poly, k: nat, s: nat)
    requires g.Ok() && Describes(p, g) && s < g.Size() && Within(b, p.mask) && Within(acc, p.mask)
    requires Selects4(a, bit, k)
    requires Act(g, acc, s) == Act(g, Drop(a, k + 4), Act(g, b, s))
    ensures Act(g, Horner4(p, a, b, bit, acc), s) == Act(g, Drop(a, k), Act(g, b, s))
    ensures Within(Horner4(p, a, b, bit, acc), p.mask)
  {
    hide Act, Horner, Drop, Selects, Within, Describes, Modulus.Ok;
    var h := Horner(p, a, b, bit, acc);
    ActOfHorner(g, p, a, b, bit, acc, k + 3, s);
    ActOfHorner(g, p, a, b, bit >> 1, h, k + 2, s);
    h := Horner(p, a, b, bit >> 1, h);
    ActOfHorner(g, p, a, b, bit >> 2, h, k + 1, s);
    h := Horner(p, a, b, bit >> 2, h);
    ActOfHorner(g, p, a, b, bit >> 3, h, k, s);
  }

  lemma ActOfHorner8(g: Reg, p: Modulus, a: Poly, b: Poly, bit: Poly, acc: Poly, k: nat, s: nat)
    requires g.Ok() && Describes(p, g) && s < g.Size() && Within(b, p.mask) && Within(acc, p.mask)
    requires Selects8(a, bit, k)
    requires Act(g, acc, s) == Act(g, Drop(a, k + 8), Act(g, b, s))
    ensures Act(g, Horner8(p, a, b, bit, acc), s) == Act(g, Drop(a, k), Act(g, b, s))
    ensures Within(Horner8(p, a, b, bit, acc), p.mask)
  {
    hide Act, Horner4, Drop, Selects4, Within, Describes, Modulus.Ok;
    ActOfHorner4(g, p, a, b, bit, acc, k + 4, s);
    ActOfHorner4(g, p, a, b, bit >> 4, Horner4(p, a, b, bit, acc), k, s);
  }

  /** Multiplying polynomials composes their actions. */
  lemma ActOfMul(g: Reg, p: Modulus, a: Poly, b: Poly, s: nat)
    requires g.Ok() && Describes(p, g) && s < g.Size() && Within(b, p.mask)
    ensures Act(g, Mul(p, a, b), s) == Act(g, a, Act(g, b, s))
    ensures Within(Mul(p, a, b), p.mask)
  {
    assert Act(g, 0, s) == 0 && Act(g, 0, Act(g, b, s)) == 0 && Drop(a, 0) == a;
    hide Act, Horner8, Drop, Selects8, Within, Describes, Modulus.Ok;
    Coefficients(a);
    ZeroWithin(p.mask);
    ActOfHorner8(g, p, a, b, 0x8000, 0, 8, s);
    ActOfHorner8(g, p, a, b, 0x0080, Horner8(p, a, b, 0x8000, 0), 0, s);
  }
}
