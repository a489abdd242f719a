/**
 Natural numbers seen as words of bits: the bitwise operators the receiver applies
 to its non-negative integers, and the facts that let a word be rebuilt from its bits.
 */
module Bits {

  function Pow2(n: nat): (p: nat)
    ensures p >= 1
  {
    if n == 0 then 1 else 2 * Pow2(n - 1)
  }

  /** Bit `k` of `x`, the value of `(x >> k) & 1`. */
  function BitAt(x: nat, k: nat): (b: nat)
    ensures b < 2
  {
    if k == 0 then x % 2 else BitAt(x / 2, k - 1)
  }

  /** `x ^ y` */
  function Xor(x: nat, y: nat): nat
    decreases x + y
  {
    if x == 0 && y == 0 then 0
    else (if x % 2 == y % 2 then 0 else 1) + 2 * Xor(x / 2, y / 2)
  }

  /** `x | y` */
  function Or(x: nat, y: nat): nat
    decreases x + y
  {
    if x == 0 && y == 0 then 0
    else (if x % 2 == 1 || y % 2 == 1 then 1 else 0) + 2 * Or(x / 2, y / 2)
  }

  lemma PowersOfTwo()
    ensures Pow2(9) == 512 && Pow2(10) == 1024 && Pow2(11) == 2048 && Pow2(12) == 4096
    ensures Pow2(13) == 8192 && Pow2(14) == 16384 && Pow2(15) == 32768
  {
    assert Pow2(0) == 1 && Pow2(1) == 2 && Pow2(2) == 4;
    assert Pow2(3) == 8 && Pow2(4) == 16 && Pow2(5) == 32;
    assert Pow2(6) == 64 && Pow2(7) == 128 && Pow2(8) == 256;
  }

  lemma {:induction false} Pow2Sum(m: nat, n: nat)
    ensures Pow2(m + n) == Pow2(m) * Pow2(n)
  {
    if m > 0 {
      Pow2Sum(m - 1, n);
    }
  }

  lemma {:induction false} Pow2Monotone(m: nat, n: nat)
    requires m <= n
    ensures Pow2(m) <= Pow2(n)
    decreases n
  {
    if m < n {
      Pow2Monotone(m, n - 1);
    }
  }

  lemma {:induction false} BitOfXor(x: nat, y: nat, k: nat)
    ensures BitAt(Xor(x, y), k) == (BitAt(x, k) + BitAt(y, k)) % 2
    decreases k
  {
    hide Xor;
    XorHalf(x, y);
    if k > 0 {
      BitOfXor(x / 2, y / 2, k - 1);
    }
  }

  lemma {:induction false} BitOfOr(x: nat, y: nat, k: nat)
    ensures BitAt(Or(x, y), k) == if BitAt(x, k) == 1 || BitAt(y, k) == 1 then 1 else 0
    decreases k
  {
    hide Or;
    OrHalf(x, y);
    if k > 0 {
      BitOfOr(x / 2, y / 2, k - 1);
    }
  }

  lemma {:induction false} BitOfPow2(n: nat, k: nat)
    ensures BitAt(Pow2(n), k) == if n == k then 1 else 0
    decreases k
  {
    if k == 0 {
      if n > 0 { assert Pow2(n) == 2 * Pow2(n - 1); }
    } else if n == 0 {
      BitOfZero(k - 1);
    } else {
      BitOfPow2(n - 1, k - 1);
    }
  }

  lemma {:induction false} BitOfZero(k: nat)
    ensures BitAt(0, k) == 0
  {
    if k > 0 {
      BitOfZero(k - 1);
    }
  }

  lemma {:induction false} NoBitAbove(x: nat, n: nat, k: nat)
    requires x < Pow2(n) && n <= k
    ensures BitAt(x, k) == 0
    decreases k
  {
    if n == 0 {
      BitOfZero(k);
    } else {
      NoBitAbove(x / 2, n - 1, k - 1);
    }
  }

  /** A word of `n` bits is determined by those bits. */
  lemma {:induction false} SameBits(x: nat, y: nat, n: nat)
    requires x < Pow2(n) && y < Pow2(n)
    requires forall k: nat :: k < n ==> BitAt(x, k) == BitAt(y, k)
    ensures x == y
    decreases n
  {
    if n > 0 {
      forall k: nat | k < n - 1 ensures BitAt(x / 2, k) == BitAt(y / 2, k) {
        assert BitAt(x, k + 1) == BitAt(y, k + 1);
      }
      SameBits(x / 2, y / 2, n - 1);
      assert BitAt(x, 0) == BitAt(y, 0);
    }
  }

  lemma {:induction false} OrBelow(x: nat, y: nat, n: nat)
    requires x < Pow2(n) && y < Pow2(n)
    ensures Or(x, y) < Pow2(n)
    decreases n
  {
    if n > 0 {
      OrBelow(x / 2, y / 2, n - 1);
    }
  }

  lemma {:induction false} XorBelow(x: nat, y: nat, n: nat)
    requires x < Pow2(n) && y < Pow2(n)
    ensures Xor(x, y) < Pow2(n)
    decreases n
  {
    if n > 0 {
      XorBelow(x / 2, y / 2, n - 1);
    }
  }

  /** Setting a bit above a word adds its weight. */
  lemma {:induction false} OrTop(x: nat, b: nat, n: nat)
    requires x < Pow2(n) && b < 2
    ensures Or(x, b * Pow2(n)) == x + b * Pow2(n)
    decreases n
  {
    if n == 0 {
      assert Or(0, 0) == 0 && Or(0, 1) == 1;
    } else {
      OrTop(x / 2, b, n - 1);
      assert b * Pow2(n) == 2 * (b * Pow2(n - 1));
    }
  }

  // `Xor` makes the naturals a group in which every element is its own inverse.

  lemma {:induction false} XorZero(x: nat)
    ensures Xor(x, 0) == x && Xor(0, x) == x
  {
    if x > 0 {
      XorZero(x / 2);
    }
  }

  lemma {:induction false} XorSelf(x: nat)
    ensures Xor(x, x) == 0
  {
    if x > 0 {
      XorSelf(x / 2);
    }
  }

  lemma {:induction false} XorCommutes(x: nat, y: nat)
    ensures Xor(x, y) == Xor(y, x)
    decreases x + y
  {
    if x > 0 || y > 0 {
      XorCommutes(x / 2, y / 2);
    }
  }

  lemma XorAssociates(x: nat, y: nat, z: nat)
    ensures Xor(Xor(x, y), z) == Xor(x, Xor(y, z))
  {
    hide Xor, BitAt, Pow2;
    var n := x + y + z;
    BelowOwnPower(x, n);
    BelowOwnPower(y, n);
    BelowOwnPower(z, n);
    XorBelow(x, y, n);
    XorBelow(y, z, n);
    XorBelow(Xor(x, y), z, n);
    XorBelow(x, Xor(y, z), n);
    forall k: nat | k < n ensures BitAt(Xor(Xor(x, y), z), k) == BitAt(Xor(x, Xor(y, z)), k) {
      BitAssociates(x, y, z, k);
    }
    SameBits(Xor(Xor(x, y), z), Xor(x, Xor(y, z)), n);
  }

  lemma BitAssociates(x: nat, y: nat, z: nat, k: nat)
    ensures BitAt(Xor(Xor(x, y), z), k) == BitAt(Xor(x, Xor(y, z)), k)
  {
    hide Xor, BitAt;
    BitOfXor(x, y, k);
    BitOfXor(y, z, k);
    BitOfXor(Xor(x, y), z, k);
    BitOfXor(x, Xor(y, z), k);
    ParityAssociates(BitAt(x, k), BitAt(y, k), BitAt(z, k));
  }

  lemma ParityAssociates(a: nat, b: nat, c: nat)
    ensures ((a + b) % 2 + c) % 2 == (a + (b + c) % 2) % 2
  {
  }

  lemma {:induction false} BelowOwnPower(x: nat, n: nat)
    requires x <= n
    ensures x < Pow2(n)
  {
    if n > 0 {
      BelowOwnPower(if x == 0 then 0 else x - 1, n - 1);
    }
  }

  lemma XorHalf(x: nat, y: nat)
    ensures Xor(x, y) / 2 == Xor(x / 2, y / 2)
    ensures Xor(x, y) % 2 == if x % 2 == y % 2 then 0 else 1
  {
    if x == 0 && y == 0 {
      XorZero(0);
    } else {
      Join(if x % 2 == y % 2 then 0 else 1, Xor(x / 2, y / 2));
    }
  }

  lemma Join(b: nat, h: nat)
    requires b < 2
    ensures (b + 2 * h) / 2 == h && (b + 2 * h) % 2 == b
  {
  }

  /** (a ^ b) ^ (c ^ d) == (a ^ c) ^ (b ^ d) */
  lemma XorInterchange(a: nat, b: nat, c: nat, d: nat)
    ensures Xor(Xor(a, b), Xor(c, d)) == Xor(Xor(a, c), Xor(b, d))
  {
    XorAssociates(a, b, Xor(c, d));
    XorAssociates(b, c, d);
    XorCommutes(b, c);
    XorAssociates(c, b, d);
    XorAssociates(a, c, Xor(b, d));
  }

  /** `Xor` acts on the bit at position `m` and on the bits below it separately. */
  lemma XorOfBits(u: nat, v: nat, p: nat, q: nat)
    requires u < Pow2(0) && v < Pow2(0) && p < 2 && q < 2
    ensures Xor(u + p * Pow2(0), v + q * Pow2(0)) == Xor(u, v) + (p + q) % 2 * Pow2(0)
  {
    assert Xor(0, 0) == 0;
    assert Xor(p, q) == (p + q) % 2;
  }

  lemma {:induction false} XorTop(u: nat, v: nat, p: nat, q: nat, m: nat)
    requires u < Pow2(m) && v < Pow2(m) && p < 2 && q < 2
    ensures Xor(u + p * Pow2(m), v + q * Pow2(m)) == Xor(u, v) + (p + q) % 2 * Pow2(m)
    decreases m
  {
    hide Xor, Pow2;
    if m == 0 {
      XorOfBits(u, v, p, q);
    } else {
      HalfBelow(u, m);
      HalfBelow(v, m);
      XorTop(u / 2, v / 2, p, q, m - 1);
      Even(u, p, m);
      Even(v, q, m);
      XorTopStep(u + p * Pow2(m), v + q * Pow2(m), u, v, (p + q) % 2, m);
    }
  }

  lemma HalfBelow(u: nat, m: nat)
    requires m > 0 && u < Pow2(m)
    ensures u / 2 < Pow2(m - 1)
  {
  }

  lemma XorTopStep(x: nat, y: nat, u: nat, v: nat, r: nat, m: nat)
    requires m > 0 && r < 2
    requires x % 2 == u % 2 && y % 2 == v % 2
    requires Xor(x / 2, y / 2) == Xor(u / 2, v / 2) + r * Pow2(m - 1)
    ensures Xor(x, y) == Xor(u, v) + r * Pow2(m)
  {
    hide Xor, Pow2;
    XorHalf(x, y);
    XorHalf(u, v);
    Even(Xor(u, v), r, m);
    FromHalves(Xor(x, y), Xor(u, v) + r * Pow2(m));
  }

  lemma FromHalves(x: nat, y: nat)
    requires x / 2 == y / 2 && x % 2 == y % 2
    ensures x == y
  {
  }

  lemma Even(x: nat, p: nat, m: nat)
    requires m > 0
    ensures (x + p * Pow2(m)) / 2 == x / 2 + p * Pow2(m - 1)
    ensures (x + p * Pow2(m)) % 2 == x % 2
  {
    var h := p * Pow2(m - 1);
    assert p * Pow2(m) == 2 * h;
  }

  lemma OrHalf(x: nat, y: nat)
    ensures Or(x, y) / 2 == Or(x / 2, y / 2)
    ensures Or(x, y) % 2 == if x % 2 == 1 || y % 2 == 1 then 1 else 0
  {
    if x > 0 || y > 0 {
      Join(if x % 2 == 1 || y % 2 == 1 then 1 else 0, Or(x / 2, y / 2));
    }
  }

  lemma {:induction false} OrLowBit(h: nat, b: nat)
    requires b < 2
    ensures Or(2 * h, b) == 2 * h + b
  {
    Join(b, h);
    OrZero(h);
    if h > 0 || b > 0 {
      assert Or(2 * h, b) == b + 2 * Or((2 * h) / 2, b / 2);
    }
  }

  lemma {:induction false} OrZero(x: nat)
    ensures Or(x, 0) == x
  {
    if x > 0 {
      OrZero(x / 2);
    }
  }

  /** Setting a clear bit below a word's set bits adds its weight. */
  lemma {:induction false} OrBelowSet(h: nat, b: nat, n: nat)
    requires b < 2
    ensures Or(h * Pow2(n + 1), b * Pow2(n)) == h * Pow2(n + 1) + b * Pow2(n)
  {
    hide Or, Pow2;
    Doubles(n);
    if n == 0 {
      PowZero();
      OrLowBit(h, b);
    } else {
      Doubles(n - 1);
      var x, y := h * Pow2(n), b * Pow2(n - 1);
      assert h * Pow2(n + 1) == 2 * x && b * Pow2(n) == 2 * y;
      OrBelowSet(h, b, n - 1);
      OrOfDoubles(x, y);
    }
  }

  lemma Doubles(k: nat)
    ensures Pow2(k + 1) == 2 * Pow2(k)
  {
  }

  lemma PowZero()
    ensures Pow2(0) == 1
  {
  }

  lemma OrOfDoubles(x: nat, y: nat)
    ensures Or(2 * x, 2 * y) == 2 * Or(x, y)
  {
  }
}
