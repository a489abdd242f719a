/**
 Soft values as the demapper stores them: scaled by the precision, rounded half to even and
 cast to 8 bits. The rounded value is not clamped, so the cast keeps its low 8 bits as a
 two's-complement number.
 */
module SoftBits {
  import opened Samples
  import opened Bits
  import opened GrayMapping

  /** The nearest integer, the even one of two. */
  function Round(x: real): int
  {
    var f := x.Floor;
    var rest := x - f as real;
    if rest < 0.5 || (rest == 0.5 && f % 2 == 0) then f else f + 1
  }

  /** The low 8 bits as a signed number. */
  function ToInt8(r: int): int
  {
    (r + 128) % 256 - 128
  }

  /** It is the one value of 8 bits that differs from `r` by whole turns. */
  lemma ToInt8Is(r: int)
    ensures -128 <= ToInt8(r) < 128 && (r - ToInt8(r)) % 256 == 0
    ensures -128 <= r < 128 ==> ToInt8(r) == r
  {
  }

  /** The stored value of a soft value. */
  function Quantize(precision: real, x: real): int
  {
    ToInt8(Round(x * precision))
  }

  /** The stored value is negative exactly when the soft value is. */
  predicate Kept(precision: real, x: real)
  {
    Quantize(precision, x) < 0 <==> x < 0.0
  }

  /** The rounding is to a nearest integer. */
  lemma RoundNearest(x: real, m: int)
    ensures Abs(x - Round(x) as real) <= 0.5
    ensures Abs(x - Round(x) as real) <= Abs(x - m as real)
    ensures Abs(x - Round(x) as real) == 0.5 ==> Round(x) % 2 == 0
  {
    var f := x.Floor;
    assert m <= f || f + 1 <= m;
  }

  /** Within 8 bits a stored value is the scaled soft value to within one half. */
  lemma QuantizeNear(precision: real, x: real)
    requires -128.5 <= x * precision < 127.5
    ensures Abs(x * precision - Quantize(precision, x) as real) <= 0.5
  {
    var y := x * precision;
    RoundNearest(y, 0);
    var r := Round(y);
    assert -128 <= r < 128;
    ToInt8Is(r);
  }

  /** The rounded value lies in the half of its turn of the 8 bits that the sign asks for. */
  predicate KeepsSign(precision: real, x: real)
  {
    if x < 0.0 then Round(x * precision) % 256 >= 128 else Round(x * precision) % 256 < 128
  }

  /** So the sign is kept exactly then; within one turn on either side, exactly in these ranges of the scaled value. */
  lemma KeptExactly(precision: real, x: real)
    requires precision > 0.0
    ensures Kept(precision, x) <==> KeepsSign(precision, x)
    ensures -256.5 <= x * precision < 255.5 ==>
              (Kept(precision, x) <==> 0.0 <= x * precision < 127.5 || -128.5 <= x * precision < -0.5)
  {
    hide Round, ToInt8;
    SignOfScaled(precision, x);
    Halves(Round(x * precision));
    if -256.5 <= x * precision < 255.5 {
      TurnOf(x * precision);
    }
  }

  lemma Halves(r: int)
    ensures ToInt8(r) < 0 <==> r % 256 >= 128
  {
  }

  lemma SignOfScaled(precision: real, x: real)
    requires precision > 0.0
    ensures x < 0.0 <==> x * precision < 0.0
  {
  }

  lemma TurnOf(y: real)
    requires -256.5 <= y < 255.5
    ensures ToInt8(Round(y)) < 0 <==> -128.5 <= y < -0.5 || 127.5 <= y
  {
    var r := Round(y);
    assert if y < -128.5 then -256 <= r < -128 else if y < -0.5 then -128 <= r < 0 else if y < 127.5 then 0 <= r < 128 else 128 <= r < 256;
  }

  // ---- The levels' own soft values ----

  /** Folding a level `k` times. */
  function FoldedTimes(l: int, k: nat, b: nat): int
    requires k < b
  {
    if k == 0 then l else Folded(FoldedTimes(l, k - 1, b), b - k + 1)
  }

  /** The soft values of a level are odd multiples of `n`, those of a level of the constellation left after `k` folds. */
  lemma {:induction false} FoldOfLevel(l: int, k: nat, b: nat, n: real)
    requires k < b && Level(l, b) && n > 0.0
    ensures Level(FoldedTimes(l, k, b), b - k)
    ensures Fold(At(l, n), k, b, n) == At(FoldedTimes(l, k, b), n)
  {
    hide At, Pow2, Level, Folded, Abs;
    if k > 0 {
      FoldOfLevel(l, k - 1, b, n);
      FoldedLevel(FoldedTimes(l, k - 1, b), b - k + 1, n);
    }
  }

  lemma LevelsShrink(m: int, c: nat, b: nat)
    requires c <= b && Level(m, c)
    ensures Level(m, b)
    decreases b - c
  {
    if c < b {
      Doubles(c);
      LevelsShrink(m, c + 1, b);
    }
  }

  /** All soft values of all levels keep their signs. */
  ghost predicate LevelsKept(b: nat, n: real, precision: real)
  {
    forall l: int, k: nat :: Level(l, b) && k < b ==> Kept(precision, Fold(At(l, n), k, b, n))
  }

  /**
   Without noise every sign survives the cast if and only if every positive level's scaled value rounds into the positive
   half of its turn, without its 0. Below the first turn's end that is when the innermost level is scaled to more than 1/2
   and the outermost to less than 127.5: a weaker signal rounds to 0, a stronger one wraps around.
   */
  lemma LevelsKeptExactly(b: nat, n: real, precision: real)
    requires b > 0 && n > 0.0 && precision > 0.0
    ensures LevelsKept(b, n, precision) <==> forall m: int :: Level(m, b) && m > 0 ==> InPositiveHalf(m, n * precision)
    ensures At(Pow2(b) - 1, n * precision) < 255.5 ==>
              (LevelsKept(b, n, precision) <==> n * precision > 0.5 && At(Pow2(b) - 1, n * precision) < 127.5)
  {
    hide *;
    UnitPositive(n, precision);
    LevelsKeptAtUnit(b, n, precision, n * precision);
  }

  lemma LevelsKeptAtUnit(b: nat, n: real, precision: real, s: real)
    requires b > 0 && n > 0.0 && precision > 0.0 && s == n * precision > 0.0
    ensures LevelsKept(b, n, precision) <==> forall m: int :: Level(m, b) && m > 0 ==> InPositiveHalf(m, s)
    ensures At(Pow2(b) - 1, s) < 255.5 ==> (LevelsKept(b, n, precision) <==> s > 0.5 && At(Pow2(b) - 1, s) < 127.5)
  {
    hide *;
    LevelsKeptAnyTurn(b, n, precision, s);
    if At(Pow2(b) - 1, s) < 255.5 {
      BelowTurn(b, s);
    }
  }

  lemma LevelsKeptAnyTurn(b: nat, n: real, precision: real, s: real)
    requires b > 0 && n > 0.0 && precision > 0.0 && s == n * precision > 0.0
    ensures LevelsKept(b, n, precision) <==> forall m: int :: Level(m, b) && m > 0 ==> InPositiveHalf(m, s)
  {
    hide At, Pow2, Kept, FoldedTimes, Level, Fold, InPositiveHalf;
    if forall m: int :: Level(m, b) && m > 0 ==> InPositiveHalf(m, s) {
      forall l: int, k: nat | Level(l, b) && k < b ensures Kept(precision, Fold(At(l, n), k, b, n)) {
        FoldOfLevel(l, k, b, n);
        var m := FoldedTimes(l, k, b);
        LevelsShrink(m, b - k, b);
        Opposite(m, b);
        PairKept(if m < 0 then -m else m, n, precision, s);
      }
    }
    if LevelsKept(b, n, precision) {
      forall m: int | Level(m, b) && m > 0 ensures InPositiveHalf(m, s) {
        Opposite(m, b);
        FoldNone(m, b, n);
        FoldNone(-m, b, n);
        assert Kept(precision, Fold(At(m, n), 0, b, n)) && Kept(precision, Fold(At(-m, n), 0, b, n));
        PairKept(m, n, precision, s);
      }
    }
  }

  /** Below the end of the first turn two bounds say it for all levels. */
  lemma BelowTurn(b: nat, s: real)
    requires b > 0 && s > 0.0 && At(Pow2(b) - 1, s) < 255.5
    ensures (forall m: int :: Level(m, b) && m > 0 ==> InPositiveHalf(m, s)) <==> s > 0.5 && At(Pow2(b) - 1, s) < 127.5
  {
    hide At, Pow2, Level, InPositiveHalf;
    var top := Pow2(b) - 1;
    InnerAndOuter(b);
    OneUnit(s);
    forall m: int | Level(m, b) && m > 0 ensures InPositiveHalf(m, s) <==> 0.5 < At(m, s) < 127.5 {
      LevelBetween(m, b, s);
      HalfBelowTurn(m, s);
    }
    forall m: int | Level(m, b) && m > 0 ensures s <= At(m, s) <= At(top, s) {
      LevelBetween(m, b, s);
    }
  }

  lemma HalfBelowTurn(m: int, s: real)
    requires 0.0 < At(m, s) < 255.5
    ensures InPositiveHalf(m, s) <==> 0.5 < At(m, s) < 127.5
  {
    hide At;
    var r := Round(At(m, s));
    assert 0 <= r < 256 && r % 256 == r;
  }

  lemma FoldNone(l: int, b: nat, n: real)
    requires b > 0
    ensures Fold(At(l, n), 0, b, n) == At(l, n)
  {
  }

  lemma InnerAndOuter(b: nat)
    requires b > 0
    ensures Level(1, b) && Level(Pow2(b) - 1, b) && Pow2(b) - 1 > 0
  {
    hide Pow2;
    Doubles(b - 1);
    assert Pow2(b) - 1 == 2 * (Pow2(b - 1) - 1) + 1;
  }

  lemma UnitPositive(n: real, precision: real)
    requires n > 0.0 && precision > 0.0
    ensures n * precision > 0.0
  {
  }

  /** Scaling a level scales its unit. */
  lemma ScaledLevel(m: int, n: real, precision: real, s: real)
    requires s == n * precision
    ensures At(m, n) * precision == At(m, s)
  {
    Regroup(m as real, n, precision);
  }

  /** A scaled positive level lies between the innermost and the outermost. */
  lemma LevelBetween(m: int, b: nat, s: real)
    requires Level(m, b) && m > 0 && s > 0.0
    ensures s <= At(m, s) <= At(Pow2(b) - 1, s)
  {
    hide Pow2, At;
    OneUnit(s);
    AtMonotone(m, Pow2(b) - 1, s);
    AtMonotone(1, m, s);
  }

  lemma OneUnit(s: real)
    ensures At(1, s) == s
  {
  }

  predicate InPositiveHalf(m: int, s: real)
  {
    0 < Round(At(m, s)) % 256 < 128
  }

  lemma Opposite(m: int, b: nat)
    requires Level(m, b)
    ensures m != 0 && Level(-m, b)
  {
    hide Pow2;
  }

  /** A level and its opposite both keep their signs if and only if the level rounds into the positive half. */
  lemma PairKept(m: int, n: real, precision: real, s: real)
    requires m > 0 && s == n * precision && precision > 0.0 && s > 0.0
    ensures Kept(precision, At(m, n)) && Kept(precision, At(-m, n)) <==> InPositiveHalf(m, s)
  {
    hide At, Kept, Round, ToInt8;
    ScaledLevel(m, n, precision, s);
    ScaledLevel(-m, n, precision, s);
    AtSmall(m, s);
    AtSmall(-m, s);
    RoundIsOdd(At(m, s));
    CastOf(precision, At(m, n), At(m, s));
    CastOf(precision, At(-m, n), At(-m, s));
    OppositeCasts(Round(At(m, s)));
  }

  lemma CastOf(precision: real, x: real, y: real)
    requires precision > 0.0 && x * precision == y
    ensures Kept(precision, x) <==> (ToInt8(Round(y)) < 0 <==> y < 0.0)
  {
    hide ToInt8, Round;
    SignOfScaled(precision, x);
  }

  lemma OppositeCasts(r: int)
    ensures ToInt8(r) >= 0 && ToInt8(-r) < 0 <==> 0 < r % 256 < 128
  {
  }

  /** Rounding half to even treats both signs alike. */
  lemma RoundIsOdd(x: real)
    ensures Round(-x) == -Round(x)
  {
    var f := x.Floor;
    assert (-x).Floor == if x == f as real then -f else -f - 1;
  }

  /**
   The precision is eight times the level unit times the ratio of signal to error power. For a constellation whose mean
   power is `d` squares of its unit (10, 42 and 170 for 16, 64 and 256-QAM) that scales the unit to `u`, which is
   8 ratio / d and alone decides which signs survive.
   */
  lemma RatiosKeepSigns(b: nat, d: real, n: real, ratio: real, u: real)
    requires b > 0 && d > 0.0 && n > 0.0 && n * n * d == 1.0 && ratio > 0.0 && u * d == 8.0 * ratio
    ensures LevelsKept(b, n, 8.0 * n * ratio) <==> forall m: int :: Level(m, b) && m > 0 ==> InPositiveHalf(m, u)
    ensures At(Pow2(b) - 1, u) < 255.5 ==> (LevelsKept(b, n, 8.0 * n * ratio) <==> u > 0.5 && At(Pow2(b) - 1, u) < 127.5)
  {
    hide *;
    UnitOfRatio(d, n, ratio, u);
    UnitPositive(8.0 * n, ratio);
    UnitPositive(n, 8.0 * n * ratio);
    LevelsKeptAtUnit(b, n, 8.0 * n * ratio, u);
  }

  lemma UnitOfRatio(d: real, n: real, ratio: real, u: real)
    requires d > 0.0 && n * n * d == 1.0 && u * d == 8.0 * ratio
    ensures n * (8.0 * n * ratio) == u
  {
    assert n * (8.0 * n * ratio) * d == n * n * d * (8.0 * ratio);
    Cancel(n * (8.0 * n * ratio), u, d);
  }

  lemma Cancel(x: real, y: real, d: real)
    requires d > 0.0 && x * d == y * d
    ensures x == y
  {
  }

  /** In 16-QAM the signs are lost at a ratio of 100, where the outer level wraps, and kept again at 321.25. */
  lemma SignsReturn(n: real)
    requires n > 0.0 && n * n * 10.0 == 1.0
    ensures !LevelsKept(2, n, 8.0 * n * 100.0) && LevelsKept(2, n, 8.0 * n * 321.25)
  {
    hide *;
    Levels16();
    RatiosKeepSigns(2, 10.0, n, 100.0, 80.0);
    RatiosKeepSigns(2, 10.0, n, 321.25, 257.0);
  }

  lemma Levels16()
    ensures Pow2(2) - 1 == 3 && At(3, 80.0) == 240.0
    ensures forall m: int :: Level(m, 2) && m > 0 ==> InPositiveHalf(m, 257.0)
  {
    SmallPowers();
    assert At(1, 257.0) == 257.0 && At(3, 257.0) == 771.0;
    forall m: int | Level(m, 2) && m > 0 ensures InPositiveHalf(m, 257.0) {
      assert m == 1 || m == 3;
    }
  }
}
