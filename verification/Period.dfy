/**
 The period of a shift register, from certificates: powers of x modulo its characteristic
 polynomial and the prime factors of 2^n - 1.
 */
module Period {
  import opened Bits
  import opened Gf2
  import opened Lfsr
  import opened Primes

  /** State 1 comes back after `k` steps. */
  predicate Returns(g: Reg, k: nat)
    requires g.Ok()
  {
    Run(g, 1, k) == 1
  }

  /** State 1 visits 2^n - 1 different states before it comes back. */
  ghost predicate Maximal(g: Reg)
    requires g.Ok()
  {
    && Returns(g, g.Size() - 1)
    && forall k: nat :: 0 < k < g.Size() - 1 ==> !Returns(g, k)
  }

  // ---- Powers of x as polynomials ----

  /** x^k, reduced, is `r`. */
  ghost predicate PowerOfX(g: Reg, p: Modulus, k: nat, r: Poly)
  {
    g.Ok() && Describes(p, g) && Within(r, p.mask) && forall s: nat :: s < g.Size() ==> Run(g, s, k) == Act(g, r, s)
  }

  lemma PowerOne(g: Reg, p: Modulus)
    requires g.Ok() && Describes(p, g) && Within(2, p.mask)
    ensures PowerOfX(g, p, 1, 2)
  {
    assert Monomial(1) == 2;
    forall s: nat | s < g.Size() ensures Run(g, s, 1) == Act(g, 2, s) {
      ActOfMonomial(g, 1, s);
    }
  }

  lemma PowersMultiply(g: Reg, p: Modulus, j: nat, q: Poly, k: nat, r: Poly, qr: Poly)
    requires PowerOfX(g, p, j, q) && PowerOfX(g, p, k, r) && Mul(p, q, r) == qr
    ensures PowerOfX(g, p, j + k, qr)
  {
    assert g.Ok() && Describes(p, g) && Within(r, p.mask);
    hide Act, Run, Mul, Within, Describes;
    forall s: nat | s < g.Size() ensures Run(g, s, j + k) == Act(g, qr, s) {
      RunAdds(g, s, k, j);
      ActOfMul(g, p, q, r, s);
    }
    ActOfMul(g, p, q, r, 0);
  }

  /** x^(2^n) == x brings state 1 back after 2^n - 1 steps. */
  lemma Closes(g: Reg, p: Modulus)
    requires PowerOfX(g, p, g.Size(), 2)
    ensures Returns(g, g.Size() - 1)
  {
    PowerOne(g, p);
    assert Run(g, 1, g.Size()) == Act(g, 2, 1) == Run(g, 1, 1) == Step(g, Run(g, 1, 0));
    StepInjective(g, Run(g, 1, g.Size() - 1), 1);
  }

  // ---- Telling state 1 from its successors ----

  lemma {:induction false} HalvesVanish(r: Poly, mask: Poly, m: nat)
    requires Within(r, mask) && Drop(mask, m) == 0
    ensures Drop(r, m) == 0
  {
    DropWithin(r, mask, m);
  }

  lemma {:induction false} DropWithin(r: Poly, mask: Poly, m: nat)
    requires Within(r, mask)
    ensures Within(Drop(r, m), Drop(mask, m))
  {
    if m > 0 {
      DropWithin(r, mask, m - 1);
    }
  }

  lemma {:induction false} DropOfHalf(r: Poly, m: nat)
    ensures Drop(Half(r), m) == Drop(r, m + 1)
  {
    if m > 0 {
      DropOfHalf(r, m - 1);
    }
  }

  /** A step halves the number of clear low bits known of a state. */
  lemma StepOfMultiple(g: Reg, s: nat, m: nat, c: nat) returns (d: nat)
    requires g.Ok() && s < g.Size() && 0 < m <= g.n && s == Pow2(m) * c
    ensures Step(g, s) == Pow2(m - 1) * d && s % 2 == 0
  {
    var h, k, b := Pow2(m - 1), Pow2(g.n - m), Feedback(g.taps, s);
    assert Pow2(m) == 2 * h && Step(g, s) == s / 2 + b * Pow2(g.n - 1);
    Pow2Sum(m - 1, g.n - m);
    d := c + b * k;
    hide *;
    Regroup(h, c, b, k);
  }

  lemma Regroup(h: nat, c: nat, b: nat, k: nat)
    ensures ((2 * h) * c) % 2 == 0
    ensures ((2 * h) * c) / 2 + b * (h * k) == h * (c + b * k)
  {
    assert (2 * h) * c == 2 * (h * c);
    assert h * (c + b * k) == h * c + h * (b * k);
    assert h * (b * k) == b * (h * k);
  }

  /** A polynomial of degree below `m` keeps even a state whose `m` low bits are clear. */
  lemma {:induction false} ActStaysEven(g: Reg, r: Poly, s: nat, m: nat, c: nat)
    requires g.Ok() && s < g.Size() && m <= g.n && Drop(r, m) == 0 && s == Pow2(m) * c
    ensures Act(g, r, s) % 2 == 0
    decreases m
  {
    if m == 0 {
      assert r == 0;
    } else {
      var d := StepOfMultiple(g, s, m, c);
      DropOfHalf(r, m - 1);
      hide Act, Xor, Step, Pow2, Drop;
      ActStaysEven(g, Half(r), Step(g, s), m - 1, d);
      ActUnfold(g, r, s);
      XorHalf(if Odd(r) then s else 0, Act(g, Half(r), Step(g, s)));
    }
  }

  /** The constant coefficient of x^k decides the low bit of the state `k` steps after 1. */
  lemma LowBitOfRun(g: Reg, p: Modulus, k: nat, r: Poly)
    requires PowerOfX(g, p, k, r)
    ensures Run(g, 1, k) % 2 == 1 <==> Odd(r)
  {
    var t := Step(g, 1);
    StepOfOne(g);
    HalvesVanish(r, p.mask, g.n);
    DropOfHalf(r, g.n - 1);
    ActStaysEven(g, Half(r), t, g.n - 1, 1);
    ActUnfold(g, r, 1);
    XorHalf(if Odd(r) then 1 else 0, Act(g, Half(r), t));
  }

  lemma {:induction false} FeedbackOfOne(taps: seq<nat>)
    requires |taps| > 0 && taps[0] == 0 && forall k :: 0 < k < |taps| ==> 0 < taps[k]
    ensures Feedback(taps, 1) == 1
  {
    var last := |taps| - 1;
    if last == 0 {
      assert taps[..0] == [];
    } else {
      FeedbackOfOne(taps[..last]);
      BitOfPow2(0, taps[last]);
    }
  }

  lemma StepOfOne(g: Reg)
    requires g.Ok()
    ensures Step(g, 1) == Pow2(g.n - 1)
  {
    FeedbackOfOne(g.taps);
  }

  /** An odd x^(k+i) with 0 < i < n, or an even x^k, shows that state 1 is not back after `k` steps. */
  lemma NotBackAfter(g: Reg, p: Modulus, k: nat, i: nat, r: Poly)
    requires PowerOfX(g, p, k + i, r) && i < g.n && (i > 0 <==> r & 1 == 1)
    ensures !Returns(g, k)
  {
    LowBitOfRun(g, p, k + i, r);
    RunAdds(g, 1, k, i);
    if i > 0 {
      LowBitOfMonomial(g, i);
    }
  }

  lemma LowBitOfMonomial(g: Reg, i: nat)
    requires g.Ok() && 0 < i < g.n
    ensures Run(g, 1, i) % 2 == 0
  {
    BitIsLaterLowBit(g, 1, i);
    BitOfPow2(0, i);
  }

  lemma NotBackAtOnce(g: Reg)
    requires g.Ok() && g.n > 1
    ensures !Returns(g, 1)
  {
    StepOfOne(g);
    assert Run(g, 1, 1) == Step(g, Run(g, 1, 0)) == 2 * Pow2(g.n - 2);
  }

  // ---- From the factors of 2^n - 1 to the period ----

  lemma ReturnsAdd(g: Reg, j: nat, k: nat)
    requires g.Ok() && Returns(g, j)
    ensures Returns(g, j + k) <==> Returns(g, k)
  {
    RunAdds(g, 1, j, k);
  }

  lemma {:induction false} ReturnsMultiple(g: Reg, d: nat, k: nat, r: nat)
    requires g.Ok() && Returns(g, d)
    ensures Returns(g, d * k + r) <==> Returns(g, r)
  {
    if k > 0 {
      ReturnsMultiple(g, d, k - 1, r);
      assert d * k == d + d * (k - 1);
      ReturnsAdd(g, d, d * (k - 1) + r);
    }
  }

  lemma {:induction false} LeastReturn(g: Reg, k: nat) returns (d: nat)
    requires g.Ok() && 0 < k && Returns(g, k)
    ensures 0 < d <= k && Returns(g, d) && forall j: nat :: 0 < j < d ==> !Returns(g, j)
  {
    if j: nat :| 0 < j < k && Returns(g, j) {
      d := LeastReturn(g, j);
    } else {
      d := k;
    }
  }

  lemma PeriodDivides(g: Reg, d: nat, n: nat)
    requires g.Ok() && 0 < d && Returns(g, d) && Returns(g, n)
    requires forall j: nat :: 0 < j < d ==> !Returns(g, j)
    ensures n == d * (n / d)
  {
    ReturnsMultiple(g, d, n / d, n % d);
    assert n == d * (n / d) + n % d;
  }

  /** A proper divisor of `n` divides `n` over one of the primes that make it up. */
  lemma DividesCofactor(d: nat, n: nat, qs: seq<nat>) returns (k: nat, c: nat)
    requires 0 < d < n && n == d * (n / d) && Product(qs) == n
    requires forall k :: 0 <= k < |qs| ==> Prime(qs[k])
    ensures k < |qs| && qs[k] > 0 && n / qs[k] == d * c
  {
    hide Product, Prime;
    var e := n / d;
    AboveOneQuotient(d, e);
    var q := SharesFactor(e, qs);
    c :| e == q * c;
    k :| k < |qs| && qs[k] == q;
    AtLeastTwo(q);
    Cancel(d, q, c);
  }

  lemma AtLeastTwo(q: nat)
    requires Prime(q)
    ensures q > 1
  {
  }

  lemma AboveOneQuotient(d: nat, e: nat)
    requires 0 < d < d * e
    ensures e > 1 && Divides(e, d * e)
  {
    assert d * 0 == 0 && d * 1 == d;
    assert d * e == e * d;
  }

  lemma Cancel(d: nat, q: nat, c: nat)
    requires q > 0
    ensures d * (q * c) / q == d * c
  {
    assert d * (q * c) == q * (d * c);
    QuotientIsUnique(q, d * c, 0);
  }

  /** A return time no prime factor of which can be left out is the period. */
  lemma PeriodFromFactors(g: Reg, qs: seq<nat>)
    requires g.Ok()
    requires Product(qs) == g.Size() - 1 && Returns(g, g.Size() - 1)
    requires forall k :: 0 <= k < |qs| ==> Prime(qs[k]) && !Returns(g, (g.Size() - 1) / qs[k])
    ensures Maximal(g)
  {
    var n := g.Size() - 1;
    hide Returns, Pow2, Product, Prime;
    forall k: nat | 0 < k < n ensures !Returns(g, k) {
      if Returns(g, k) {
        var d := LeastReturn(g, k);
        PeriodDivides(g, d, n);
        var i, c := DividesCofactor(d, n, qs);
        ReturnsMultiple(g, d, c, 0);
        ReturnsNow(g);
      }
    }
  }

  lemma ReturnsNow(g: Reg)
    requires g.Ok()
    ensures Returns(g, 0)
  {
  }
}
