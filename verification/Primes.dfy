/** The little number theory that turns the factors of 2^n - 1 into a period. */
module Primes {

  ghost predicate Divides(d: nat, n: nat)
  {
    exists k: nat :: n == d * k
  }

  ghost predicate Prime(q: nat)
  {
    q > 1 && forall d: nat :: 1 < d < q ==> !Divides(d, q)
  }

  function Product(qs: seq<nat>): nat
  {
    if qs == [] then 1 else qs[0] * Product(qs[1..])
  }

  /** No number in [lo, hi] divides `q`. */
  predicate NoDivisorIn(q: nat, lo: nat, hi: nat)
    requires lo > 0
    decreases hi + 1 - lo
  {
    lo > hi || (q % lo != 0 && NoDivisorIn(q, lo + 1, hi))
  }

  lemma {:induction false} NoDivisorAt(q: nat, lo: nat, hi: nat, d: nat)
    requires 0 < lo <= d <= hi && NoDivisorIn(q, lo, hi)
    ensures !Divides(d, q)
    decreases hi - lo
  {
    if d == lo {
      if k: nat :| q == d * k {
        Multiple(d, k);
      }
    } else {
      NoDivisorAt(q, lo + 1, hi, d);
    }
  }

  lemma Multiple(d: nat, k: nat)
    requires d > 0
    ensures (d * k) % d == 0
  {
    QuotientIsUnique(d, k, 0);
  }

  lemma QuotientIsUnique(d: nat, k: nat, r: nat)
    requires r < d
    ensures (d * k + r) / d == k && (d * k + r) % d == r
  {
    var n := d * k + r;
    var z := k - n / d;
    assert d * z == d * k - d * (n / d) == n % d - r;
    if z >= 1 {
      MulAtLeast(d, z);
    } else if z <= -1 {
      MulAtLeast(d, -z);
    }
  }

  lemma MulAtLeast(d: nat, z: int)
    requires z >= 1
    ensures d * z >= d
  {
  }

  lemma MulMonotone(a: nat, b: nat, m: nat)
    requires a <= b
    ensures a * m <= b * m
  {
    assert b * m == a * m + (b - a) * m;
  }

  lemma EmptyQuotient(x: nat, m: nat)
    requires m > 0
    ensures m * (x / m) + x % m == x
    ensures if x >= m then x / m > 0 else x / m == 0 && x % m == x
  {
    if x < m {
      QuotientIsUnique(m, 0, x);
    }
  }

  /** Row `r` of `n` rows of `m` lies inside them. */
  lemma RoomFor(r: nat, n: nat, m: nat)
    requires r < n
    ensures r * m + m <= n * m
  {
    assert n * m == r * m + (n - r) * m;
    MulAtLeast(m, n - r);
    assert (n - r) * m == m * (n - r);
  }

  /** Trial division up to a bound whose successor squared exceeds the number. */
  lemma PrimeByTrial(q: nat, bound: nat)
    requires q > 1 && NoDivisorIn(q, 2, bound) && q < (bound + 1) * (bound + 1)
    ensures Prime(q)
  {
    forall d: nat | 1 < d < q ensures !Divides(d, q) {
      if Divides(d, q) {
        var k: nat :| q == d * k;
        assert q == k * d;
        if d <= bound {
          NoDivisorAt(q, 2, bound, d);
        } else if k <= bound {
          if k == 0 || k == 1 { assert false; }
          NoDivisorAt(q, 2, bound, k);
        } else {
          SquareBelow(bound + 1, d, k);
        }
      }
    }
  }

  lemma SquareBelow(b: nat, d: nat, k: nat)
    requires b <= d && b <= k
    ensures b * b <= d * k
  {
    assert (d - b) * b >= 0 && (d - b) * b == d * b - b * b;
    assert d * (k - b) >= 0 && d * (k - b) == d * k - d * b;
  }

  /** Extended Euclid: a common divisor written as a combination. */
  lemma {:induction false} Bezout(a: nat, b: nat) returns (g: nat, x: int, y: int)
    requires a > 0
    ensures g > 0 && Divides(g, a) && Divides(g, b) && x * a + y * b == g
    decreases b
  {
    if b == 0 {
      g, x, y := a, 1, 0;
      assert a == a * 1 && b == a * 0;
    } else {
      var q, r := a / b, a % b;
      var x', y';
      g, x', y' := Bezout(b, r);
      x, y := y', x' - q * y';
      var kb: nat :| b == g * kb;
      var kr: nat :| r == g * kr;
      assert a == q * b + r;
      DivisorOfSum(g, q, kb, kr);
      BezoutStep(q, b, r, x', y');
    }
  }

  lemma DivisorOfSum(g: nat, q: nat, kb: nat, kr: nat)
    ensures Divides(g, q * (g * kb) + g * kr)
  {
    var k := q * kb + kr;
    assert q * (g * kb) == g * (q * kb);
    assert q * (g * kb) + g * kr == g * k;
  }

  lemma BezoutStep(q: int, b: int, r: int, x: int, y: int)
    ensures y * (q * b + r) + (x - q * y) * b == x * b + y * r
  {
    assert y * (q * b + r) == y * (q * b) + y * r;
    assert (x - q * y) * b == x * b - (q * y) * b;
    assert y * (q * b) == (q * y) * b;
  }

  lemma ProperDivisor(g: nat, q: nat)
    requires Prime(q) && Divides(g, q)
    ensures g == 1 || g == q
  {
    var k: nat :| q == g * k;
    if g > q {
      if k > 0 {
        MulAtLeast(g, k);
      }
    }
  }

  lemma Combination(m: int, x: int, q: int, y: int, e: int, t: int)
    requires x * q + y * e == 1 && q * m == e * t
    ensures m == e * (x * t + m * y)
  {
    assert m == m * (x * q + y * e) == m * (x * q) + m * (y * e);
    assert m * (x * q) == x * (q * m) == x * (e * t) == e * (x * t);
    assert m * (y * e) == e * (m * y);
    assert e * (x * t + m * y) == e * (x * t) + e * (m * y);
  }

  /** Euclid's lemma. */
  lemma Euclid(q: nat, e: nat, m: nat)
    requires Prime(q) && e > 0 && !Divides(q, e) && Divides(e, q * m)
    ensures Divides(e, m)
  {
    var g, x, y := Bezout(q, e);
    ProperDivisor(g, q);
    var t: nat :| q * m == e * t;
    Combination(m, x, q, y, e, t);
    var c := x * t + m * y;
    if c < 0 {
      MulAtLeast(e, -c);
    }
  }

  /** A divisor above one of a product of primes is a multiple of one of them. */
  lemma {:induction false} SharesFactor(e: nat, qs: seq<nat>) returns (q: nat)
    requires e > 1 && Divides(e, Product(qs))
    requires forall k :: 0 <= k < |qs| ==> Prime(qs[k])
    ensures q in qs && Divides(q, e)
  {
    if qs == [] {
      AboveOne(e);
    } else if Divides(qs[0], e) {
      q := qs[0];
    } else {
      Euclid(qs[0], e, Product(qs[1..]));
      q := SharesFactor(e, qs[1..]);
    }
  }

  lemma AboveOne(e: nat)
    requires e > 1
    ensures !Divides(e, 1)
  {
    if k: nat :| 1 == e * k {
      if k > 0 {
        MulAtLeast(e, k);
      }
    }
  }
}
