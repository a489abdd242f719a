/** The 32-bit check of the L1 signalling, as a register on natural numbers. */
module Crc32 {
  import opened Bits
  import opened BitFields
  import Primes

  const POLY := 0x04C11DB7
  const LOADED := 0xFFFFFFFF
  const TOP := 0x80000000      // 2^31
  const WIDTH := 0x1_00000000  // 2^32

  /** One bit into the register: shift left, and add the polynomial if the bit differs from the one shifted out. */
  function Step(crc: nat, b: Bit): (r: nat)
    requires crc < WIDTH
    ensures r < WIDTH
  {
    var shifted := crc % TOP * 2;
    if b != crc / TOP then StepFits(shifted); Xor(shifted, POLY) else shifted
  }

  lemma PowerIs()
    ensures Pow2(31) == TOP && Pow2(32) == WIDTH
  {
    PowersOfTwo();
    assert Pow2(17) == 131072 by { assert Pow2(16) == 2 * Pow2(15); }
    Pow2Sum(15, 17);
    assert Pow2(15 + 17) == 2 * Pow2(31);
  }

  lemma StepFits(x: nat)
    requires x < WIDTH
    ensures Xor(x, POLY) < WIDTH
  {
    PowerIs();
    XorBelow(x, POLY, 32);
  }

  function Run(crc: nat, bits: seq<Bit>): (r: nat)
    requires crc < WIDTH
    ensures r < WIDTH
  {
    if bits == [] then crc else Step(Run(crc, bits[..|bits| - 1]), bits[|bits| - 1])
  }

  /** The check of a bit string. */
  function Check(bits: seq<Bit>): (r: nat)
    ensures r < WIDTH
  {
    Run(LOADED, bits)
  }

  /** The source's loop over the first `n` bits. */
  method Compute(bits: seq<Bit>, n: nat) returns (crc: nat)
    requires n <= |bits|
    ensures crc == Check(bits[..n])
  {
    crc := LOADED;
    for i := 0 to n
      invariant crc < WIDTH && crc == Run(LOADED, bits[..i])
    {
      assert bits[..i + 1][..i] == bits[..i];
      var b := Xor(bits[i], crc / TOP % 2);
      BitDiffers(bits[i], crc);
      StepFits(crc % TOP * 2);
      crc := crc % TOP * 2;
      if b == 1 {
        crc := Xor(crc, POLY);
      }
    }
  }

  lemma BitDiffers(b: Bit, crc: nat)
    requires crc < WIDTH
    ensures crc / TOP < 2
    ensures Xor(b, crc / TOP % 2) == if b != crc / TOP then 1 else 0
  {
    assert Xor(0, 0) == 0 && Xor(1, 0) == 1 && Xor(0, 1) == 1 && Xor(1, 1) == 0;
  }

  // ---- Linearity: what two strings differ by decides what their checks differ by ----

  function Differ(a: Bit, b: Bit): Bit
  {
    if a == b then 0 else 1
  }

  function Difference(s: seq<Bit>, t: seq<Bit>): (d: seq<Bit>)
    requires |s| == |t|
    ensures |d| == |s|
  {
    seq(|s|, i requires 0 <= i < |s| => Differ(s[i], t[i]))
  }

  lemma Parts(c: nat)
    requires c < WIDTH
    ensures c == c % TOP + c / TOP * TOP && c % TOP < TOP && c / TOP < 2
  {
  }

  lemma XorParts(a: nat, c: nat)
    requires a < WIDTH && c < WIDTH
    ensures Xor(a, c) < WIDTH
    ensures Xor(a, c) % TOP == Xor(a % TOP, c % TOP)
    ensures Xor(a, c) / TOP == Differ(a / TOP, c / TOP)
  {
    hide Xor, Pow2;
    PowerIs();
    Parts(a);
    Parts(c);
    XorBelow(a, c, 32);
    XorOfParts(a % TOP, a / TOP, c % TOP, c / TOP);
    Assemble(Differ(a / TOP, c / TOP), Xor(a % TOP, c % TOP));
  }

  lemma XorOfParts(u: nat, p: nat, v: nat, q: nat)
    requires u < TOP && v < TOP && p < 2 && q < 2
    ensures Xor(u, v) < TOP && Xor(u + p * TOP, v + q * TOP) == Xor(u, v) + Differ(p, q) * TOP
  {
    hide Xor, Pow2;
    PowerIs();
    XorBelow(u, v, 31);
    XorTop(u, v, p, q, 31);
    SumDiffers(p, q);
  }

  lemma Assemble(b: nat, low: nat)
    requires low < TOP
    ensures (low + b * TOP) / TOP == b && (low + b * TOP) % TOP == low
  {
  }

  lemma SumDiffers(a: Bit, b: Bit)
    ensures (a + b) as int % 2 == Differ(a, b)
  {
  }

  lemma DoubleXor(x: nat, y: nat)
    ensures 2 * Xor(x, y) == Xor(2 * x, 2 * y)
  {
    if x == 0 && y == 0 {
      XorZero(0);
    }
  }

  /** Adding the polynomial to both, one or neither. */
  lemma StepIsLinear(a: nat, p: Bit, c: nat, q: Bit)
    requires a < WIDTH && c < WIDTH
    ensures Xor(a, c) < WIDTH && Xor(Step(a, p), Step(c, q)) == Step(Xor(a, c), Differ(p, q))
  {
    XorParts(a, c);
    BitDiffers(p, a);
    BitDiffers(q, c);
    hide Xor;
    var x, y := a % TOP * 2, c % TOP * 2;
    DoubleXor(a % TOP, c % TOP);
    assert Xor(x, y) == Xor(a, c) % TOP * 2;
    var u, v := if p != a / TOP then POLY else 0, if q != c / TOP then POLY else 0;
    XorZero(x);
    XorZero(y);
    XorZero(Xor(x, y));
    assert Step(a, p) == Xor(x, u) && Step(c, q) == Xor(y, v);
    XorInterchange(x, u, y, v);
    XorZero(POLY);
    XorZero(0);
    XorSelf(POLY);
    assert Xor(u, v) == if Differ(p, q) != Xor(a, c) / TOP then POLY else 0;
  }

  lemma {:induction false} RunIsLinear(a: nat, c: nat, s: seq<Bit>, t: seq<Bit>)
    requires a < WIDTH && c < WIDTH && |s| == |t|
    ensures Xor(a, c) < WIDTH && Xor(Run(a, s), Run(c, t)) == Run(Xor(a, c), Difference(s, t))
    decreases |s|
  {
    hide Xor, Step;
    StepIsLinear(a, 0, c, 0);
    if s != [] {
      var last := |s| - 1;
      RunIsLinear(a, c, s[..last], t[..last]);
      StepIsLinear(Run(a, s[..last]), s[last], Run(c, t[..last]), t[last]);
      assert Difference(s, t)[..last] == Difference(s[..last], t[..last]);
    }
  }

  // ---- Bursts ----

  /** The lowest bit of the stepped register says whether the polynomial, which is odd, was added. */
  lemma LowBit(crc: nat, b: Bit)
    requires crc < WIDTH
    ensures Step(crc, b) % 2 == (if b != crc / TOP then 1 else 0)
    ensures b == crc / TOP ==> Step(crc, b) == crc % TOP * 2
  {
    XorHalf(crc % TOP * 2, POLY);
  }

  /** If a register ends with `q` low zeros, one step before it had all of them but one. */
  lemma ZerosBefore(crc: nat, b: Bit, q: nat)
    requires crc < WIDTH && 0 < q <= 32 && Step(crc, b) % Pow2(q) == 0
    ensures crc % Pow2(q - 1) == 0 && b == crc / TOP
  {
    var r, h := Step(crc, b), Pow2(q - 1);
    LowBit(crc, b);
    assert Pow2(q) == 2 * h;
    EvenMultiple(r, h);
    PowerIs();
    Pow2Divides(q - 1, 31);
    LowPart(crc, h);
  }

  lemma EvenMultiple(r: nat, h: nat)
    requires h > 0 && r % (2 * h) == 0
    ensures r % 2 == 0 && r / 2 % h == 0
  {
    var k := r / (2 * h);
    assert r == 2 * h * k == 2 * (h * k);
    Primes.QuotientIsUnique(h, k, 0);
  }

  lemma Pow2Divides(m: nat, n: nat)
    requires m <= n
    ensures Pow2(n) % Pow2(m) == 0
  {
    Pow2Sum(m, n - m);
    Primes.QuotientIsUnique(Pow2(m), Pow2(n - m), 0);
  }

  /** The low part has the remainders of the whole. */
  lemma LowPart(crc: nat, h: nat)
    requires h > 0 && TOP % h == 0 && crc % TOP % h == 0
    ensures crc % h == 0
  {
    var j, k, t := TOP / h, crc % TOP / h, crc / TOP;
    assert TOP == h * j && crc % TOP == h * k;
    assert crc == t * TOP + crc % TOP == h * (t * j + k);
    Primes.QuotientIsUnique(h, t * j + k, 0);
  }

  /** A register that becomes zero in `n` steps had all but `n` of its low bits zero. */
  lemma {:induction false} ZerosAt(crc: nat, bits: seq<Bit>)
    requires crc < WIDTH && |bits| <= 32 && Run(crc, bits) == 0
    ensures crc % Pow2(32 - |bits|) == 0
    decreases |bits|
  {
    hide Step;
    if bits != [] {
      FirstStep(crc, bits);
      ZerosAt(Step(crc, bits[0]), bits[1..]);
      ZerosBefore(crc, bits[0], 32 - |bits| + 1);
    }
  }

  lemma {:induction false} FirstStep(crc: nat, bits: seq<Bit>)
    requires crc < WIDTH && bits != []
    ensures Run(crc, bits) == Run(Step(crc, bits[0]), bits[1..])
    decreases |bits|
  {
    hide Step;
    var last := |bits| - 1;
    if last == 0 {
      assert bits[..0] == [] && bits[1..] == [];
    } else {
      FirstStep(crc, bits[..last]);
      assert bits[..last][1..] == bits[1..][..last - 1];
    }
  }

  ghost predicate Zeros(bits: seq<Bit>)
  {
    forall i :: 0 <= i < |bits| ==> bits[i] == 0
  }

  lemma {:induction false} RunZeros(bits: seq<Bit>)
    requires Zeros(bits)
    ensures Run(0, bits) == 0
    decreases |bits|
  {
    if bits != [] {
      RunZeros(bits[..|bits| - 1]);
    }
  }

  /** From zero, at most 32 bits not all zero leave the register nonzero. */
  lemma {:induction false} BurstLeavesMark(bits: seq<Bit>)
    requires |bits| <= 32 && Run(0, bits) == 0
    ensures Zeros(bits)
    decreases |bits|
  {
    hide Step;
    if bits != [] {
      FirstStep(0, bits);
      ZerosAt(Step(0, bits[0]), bits[1..]);
      var q := 32 - (|bits| - 1);
      LowBit(0, bits[0]);
      OddHasNoZeros(Step(0, bits[0]), q);
      assert bits[0] == 0;
      StepOfZero();
      BurstLeavesMark(bits[1..]);
      assert bits == [bits[0]] + bits[1..];
    }
  }

  lemma StepOfZero()
    ensures Step(0, 0) == 0
  {
  }

  lemma OddHasNoZeros(r: nat, q: nat)
    requires q > 0 && r % Pow2(q) == 0
    ensures r % 2 == 0
  {
    EvenMultiple(r, Pow2(q - 1));
  }

  /** After that, equal bits never make the register zero again. */
  lemma {:induction false} NonzeroStays(crc: nat, bits: seq<Bit>)
    requires crc < WIDTH && Zeros(bits) && Run(crc, bits) == 0
    ensures crc == 0
    decreases |bits|
  {
    hide Step;
    if bits != [] {
      var last := |bits| - 1;
      var r := Run(crc, bits[..last]);
      PowerIs();
      ZerosBefore(r, 0, 32);
      SmallMultiple(r);
      NonzeroStays(crc, bits[..last]);
    }
  }

  lemma SmallMultiple(r: nat)
    requires r < WIDTH && r % Pow2(31) == 0 && r / TOP == 0
    ensures r == 0
  {
    PowerIs();
  }

  lemma {:induction false} RunAppend(crc: nat, s: seq<Bit>, t: seq<Bit>)
    requires crc < WIDTH
    ensures Run(crc, s + t) == Run(Run(crc, s), t)
    decreases |t|
  {
    hide Step;
    if t == [] {
      assert s + t == s;
    } else {
      assert (s + t)[..|s + t| - 1] == s + t[..|t| - 1];
      RunAppend(crc, s, t[..|t| - 1]);
    }
  }

  /**
   Every burst error is detected: bit strings that differ, but only within 32 consecutive bits, have
   different checks.
   */
  lemma BurstsAreDetected(a: seq<Bit>, x: seq<Bit>, y: seq<Bit>, c: seq<Bit>)
    requires |x| == |y| <= 32 && x != y
    ensures Check(a + x + c) != Check(a + y + c)
  {
    hide Step, Xor, Run;
    var s, t := a + x + c, a + y + c;
    if Check(s) == Check(t) {
      RunIsLinear(LOADED, LOADED, s, t);
      XorSelf(LOADED);
      XorSelf(Check(s));
      var da, dx, dc := Difference(a, a), Difference(x, y), Difference(c, c);
      assert Difference(s, t) == da + dx + dc;
      RunAppend(0, da + dx, dc);
      NonzeroStays(Run(0, da + dx), dc);
      RunAppend(0, da, dx);
      RunZeros(da);
      BurstLeavesMark(dx);
      SameIfNoDifference(x, y);
    }
  }

  lemma SameIfNoDifference(x: seq<Bit>, y: seq<Bit>)
    requires |x| == |y| && Zeros(Difference(x, y))
    ensures x == y
  {
    forall i | 0 <= i < |x| ensures x[i] == y[i] {
      assert Difference(x, y)[i] == 0;
    }
  }

  // ---- The loaded register ----

  /** Zeros of any number have a check that is not zero: the register does not start empty. */
  lemma ZerosAreChecked(s: seq<Bit>)
    requires Zeros(s)
    ensures Check(s) != 0
  {
    hide Step, Run;
    if Check(s) == 0 {
      NonzeroStays(LOADED, s);
    }
  }

  /** Zeros put before a string change its check if and only if they change the loaded register; a single one does. */
  lemma LeadingZeros(z: seq<Bit>, s: seq<Bit>)
    requires Zeros(z)
    ensures Check(z + s) == Check(s) <==> Check(z) == LOADED
    ensures |z| == 1 ==> Check(z + s) != Check(s)
  {
    hide Step, Xor, Run;
    var r := Run(LOADED, z);
    RunAppend(LOADED, z, s);
    RunIsLinear(r, LOADED, s, s);
    XorSelf(Check(s));
    XorSelf(LOADED);
    if Check(z + s) == Check(s) {
      NonzeroStays(Xor(r, LOADED), Difference(s, s));
      XorZeroIsEqual(r, LOADED);
    }
    if |z| == 1 {
      OneZero(z);
    }
  }

  lemma {:induction false} XorZeroIsEqual(x: nat, y: nat)
    requires Xor(x, y) == 0
    ensures x == y
    decreases x + y
  {
    if x != 0 || y != 0 {
      hide Xor;
      XorHalf(x, y);
      XorZeroIsEqual(x / 2, y / 2);
    }
  }

  lemma OneZero(z: seq<Bit>)
    requires Zeros(z) && |z| == 1
    ensures Check(z) != LOADED
  {
    assert z == [0] && z[..0] == [];
    assert Run(LOADED, []) == LOADED;
    assert Check(z) == Step(LOADED, 0);
    hide Step, Xor, Run;
    if Step(LOADED, 0) == LOADED {
      StepIsLinear(LOADED, 0, LOADED, 1);
      XorSelf(LOADED);
      LowBit(LOADED, 1);
      LastBitFlipped();
      StepOfOne();
    }
  }

  lemma LastBitFlipped()
    ensures Xor(LOADED, LOADED % TOP * 2) == 1
  {
    hide Xor;
    XorHalf(LOADED, LOADED % TOP * 2);
    XorSelf(LOADED / 2);
  }

  lemma StepOfOne()
    ensures Step(0, 1) == POLY
  {
    hide Xor;
    XorZero(POLY);
  }

  // ---- A string with its check ----

  /** A register goes to zero over its own bits, highest first. */
  lemma {:induction false} OwnBits(v: nat, n: nat, low: nat)
    requires n <= 32 && v < Pow2(n) && low < Pow2(32 - n)
    ensures v * Pow2(32 - n) + low < WIDTH && Run(v * Pow2(32 - n) + low, Write(v, n)) == low * Pow2(n)
    decreases n
  {
    hide *;
    RegisterFits(v, n, low);
    if n == 0 {
      PowZero();
      NothingWritten(v, low);
    } else {
      var b, half := v % 2, Pow2(32 - n);
      var next := b * half + low;
      HalfRegister(v, n, low, next);
      OwnBits(v / 2, n - 1, next);
      LastWritten(v, n, v * half + low);
      LastOwnBit(b, half, low, n);
    }
  }

  lemma NothingWritten(v: nat, low: nat)
    requires low < WIDTH
    ensures Write(v, 0) == [] && Run(low, []) == low
  {
  }

  lemma LastWritten(v: nat, n: nat, crc: nat)
    requires 0 < n <= 32 && crc < WIDTH
    ensures v % 2 < 2 && Run(crc, Write(v, n)) == Step(Run(crc, Write(v / 2, n - 1)), v % 2)
  {
    hide Step;
    var w := Write(v / 2, n - 1);
    assert Write(v, n) == w + [v % 2] && (w + [v % 2])[..|w|] == w;
  }

  /** The same register, seen as one bit less of the number over one bit more. */
  lemma HalfRegister(v: nat, n: nat, low: nat, next: nat)
    requires 0 < n <= 32 && v < Pow2(n) && low < Pow2(32 - n) && next == v % 2 * Pow2(32 - n) + low
    ensures v / 2 < Pow2(n - 1) && next < Pow2(33 - n) && v * Pow2(32 - n) + low == v / 2 * Pow2(33 - n) + next
  {
    hide Pow2;
    Doubles(n - 1);
    Doubles(32 - n);
    SplitOff(v, Pow2(32 - n));
    assert v % 2 == 0 || v % 2 == 1;
  }

  lemma SplitOff(v: nat, half: nat)
    ensures v * half == v / 2 * (2 * half) + v % 2 * half
  {
    assert v == 2 * (v / 2) + v % 2;
    assert v * half == (2 * (v / 2)) * half + v % 2 * half;
    assert (2 * (v / 2)) * half == v / 2 * (2 * half);
  }

  lemma RegisterFits(v: nat, n: nat, low: nat)
    requires n <= 32 && v < Pow2(n) && low < Pow2(32 - n)
    ensures v * Pow2(32 - n) + low < WIDTH
  {
    hide Pow2;
    PowerIs();
    Pow2Sum(n, 32 - n);
    Primes.RoomFor(v, Pow2(n), Pow2(32 - n));
  }

  lemma LastOwnBit(b: nat, half: nat, low: nat, n: nat)
    requires 0 < n <= 32 && b < 2 && half == Pow2(32 - n) && low < half
    ensures var r := (b * half + low) * Pow2(n - 1);
            r < WIDTH && Step(r, b) == low * Pow2(n)
  {
    hide *;
    PowerIs();
    Doubles(n - 1);
    Pow2Sum(32 - n, n - 1);
    TopThenLow(b, half, low, Pow2(n - 1));
    StepOwnBit(b, low * Pow2(n - 1));
    assert low * (2 * Pow2(n - 1)) == low * Pow2(n - 1) * 2;
  }

  lemma TopThenLow(b: nat, half: nat, low: nat, p: nat)
    requires half * p == TOP && low < half
    ensures low * p < TOP && (b * half + low) * p == low * p + b * TOP
  {
    Primes.RoomFor(low, half, p);
    assert p > 0;
    assert (b * half + low) * p == b * half * p + low * p;
    assert b * half * p == b * (half * p);
  }

  lemma StepOwnBit(b: nat, t: nat)
    requires b < 2 && t < TOP
    ensures t + b * TOP < WIDTH && Step(t + b * TOP, b) == t * 2
  {
    hide Xor;
    Assemble(b, t);
  }

  /** A string followed by its check leaves the register empty. */
  lemma CheckCloses(s: seq<Bit>)
    ensures Run(LOADED, s + Write(Check(s), 32)) == 0
  {
    hide Step, Run, Pow2;
    PowerIs();
    PowZero();
    OwnBits(Check(s), 32, 0);
    RunAppend(LOADED, s, Write(Check(s), 32));
  }
}
