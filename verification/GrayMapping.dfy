/**
 Square QAM, one axis at a time: soft bits by folding the amplitude, hard decisions by nested
 comparisons, and the Gray labels both come from (section 6.2.2 of EN 302 755). Amplitudes are
 exact reals, `n` is the constellation's normalisation and `b` the bits an axis carries.
 */
module GrayMapping {
  import opened Samples
  import opened Bits

  function At(l: int, n: real): real
  {
    l as real * n
  }

  /** The soft value of bit `k`: the amplitude folded `k` times about the middle of what is left. */
  function Fold(v: real, k: nat, b: nat, n: real): real
    requires k < b
  {
    if k == 0 then v else Abs(Fold(v, k - 1, b, n)) - At(Pow2(b - k), n)
  }

  /** The hard decisions: a bit is set when its soft value is negative. */
  function Label(v: real, b: nat, n: real): (s: seq<bool>)
    ensures |s| == b
  {
    seq(b, k requires 0 <= k < b => Fold(v, k, b, n) < 0.0)
  }

  /** The constellation's levels are the odd multiples of `n` below 2^b. */
  predicate Level(l: int, b: nat)
  {
    l % 2 == 1 && 0 < l + Pow2(b) && l < Pow2(b)
  }

  /** No level is nearer to `v` than `l`. */
  ghost predicate Nearest(v: real, l: int, b: nat, n: real)
  {
    Level(l, b) && forall m: int :: Level(m, b) ==> Abs(v - At(l, n)) <= Abs(v - At(m, n))
  }

  /** `v` lies on no boundary between two levels. */
  ghost predicate OffBoundaries(v: real, b: nat, n: real)
  {
    forall j: int :: 0 < 2 * j + Pow2(b) && 2 * j < Pow2(b) ==> v != At(2 * j, n)
  }

  // ---- Nearest levels ----

  lemma AtMonotone(l: int, m: int, n: real)
    requires n > 0.0 && l <= m
    ensures At(l, n) <= At(m, n) && (l < m ==> At(l, n) < At(m, n))
  {
  }

  lemma AtSum(l: int, m: int, n: real)
    ensures At(l + m, n) == At(l, n) + At(m, n)
  {
  }

  lemma AtSmall(l: int, n: real)
    requires n > 0.0
    ensures At(0, n) == 0.0 && At(1, n) == n && At(-1, n) == -n && At(-l, n) == -At(l, n)
    ensures At(l, n) < 0.0 <==> l < 0
  {
  }

  /** For more than one bit the levels are split about an even number. */
  lemma Middle(b: nat)
    requires b > 1
    ensures Pow2(b) == 2 * Pow2(b - 1) && Pow2(b - 1) == 2 * Pow2(b - 2)
  {
  }

  lemma SmallPowers()
    ensures Pow2(0) == 1 && Pow2(1) == 2 && Pow2(2) == 4 && Pow2(3) == 8 && Pow2(4) == 16
  {
    assert Pow2(0) == 1 && Pow2(1) == 2 && Pow2(2) == 4;
  }

  /** Between the midpoints to its neighbours, a level is nearest; an outer level has no bound outside. */
  lemma CellIsNearest(v: real, l: int, b: nat, n: real)
    requires n > 0.0 && Level(l, b)
    requires Level(l - 2, b) ==> At(l - 1, n) <= v
    requires Level(l + 2, b) ==> v <= At(l + 1, n)
    ensures Nearest(v, l, b, n)
  {
    hide At, Pow2;
    AtSmall(1, n);
    forall m: int | Level(m, b) ensures Abs(v - At(l, n)) <= Abs(v - At(m, n)) {
      AtSum(l - 1, 1, n);
      AtSum(l, 1, n);
      if m < l {
        assert m <= l - 2 && Level(l - 2, b);
        AtSum(l - 2, 1, n);
        AtMonotone(m, l - 2, n);
      } else if m > l {
        assert l + 2 <= m && Level(l + 2, b);
        AtSum(l + 1, 1, n);
        AtMonotone(l + 2, m, n);
      }
    }
  }

  /** Off the boundaries only one level is nearest. */
  lemma NearestIsUnique(v: real, l: int, m: int, b: nat, n: real)
    requires n > 0.0 && Nearest(v, l, b, n) && Nearest(v, m, b, n) && OffBoundaries(v, b, n)
    ensures l == m
  {
    if l < m {
      TiedNearest(v, l, m, b, n);
    } else if m < l {
      TiedNearest(v, m, l, b, n);
    }
  }

  lemma TiedNearest(v: real, l: int, m: int, b: nat, n: real)
    requires n > 0.0 && Nearest(v, l, b, n) && Nearest(v, m, b, n) && l < m
    ensures !OffBoundaries(v, b, n)
  {
    hide At, Pow2;
    AtSmall(1, n);
    AtMonotone(l, m, n);
    AtSum(l, 1, n);
    AtSum(l + 1, 1, n);
    AtMonotone(l + 2, m, n);
    assert Level(l + 2, b);
    assert Abs(v - At(l, n)) <= Abs(v - At(l + 2, n)) && Abs(v - At(m, n)) <= Abs(v - At(l, n));
    assert v == At(2 * ((l + 1) / 2), n);
  }

  // ---- Labels ----

  lemma {:induction false} FoldOnce(v: real, k: nat, b: nat, n: real)
    requires k + 1 < b
    ensures Fold(v, k + 1, b, n) == Fold(Abs(v) - At(Pow2(b - 1), n), k, b - 1, n)
  {
    hide At, Pow2, Abs;
    if k == 0 {
      assert Fold(v, 0, b, n) == v;
    } else {
      FoldOnce(v, k - 1, b, n);
    }
  }

  /** A label is the sign and the label of the folded amplitude. */
  lemma LabelUnfold(v: real, b: nat, n: real)
    requires b > 1
    ensures Label(v, b, n) == [v < 0.0] + Label(Abs(v) - At(Pow2(b - 1), n), b - 1, n)
  {
    hide At, Pow2, Abs;
    var s, t := Label(v, b, n), Label(Abs(v) - At(Pow2(b - 1), n), b - 1, n);
    forall k | 0 <= k < b ensures s[k] == ([v < 0.0] + t)[k] {
      if k > 0 {
        FoldOnce(v, k - 1, b, n);
      }
    }
  }

  function Folded(l: int, b: nat): int
    requires b > 0
  {
    (if l < 0 then -l else l) - Pow2(b - 1)
  }

  /** Folding takes levels to the levels of the smaller constellation. */
  lemma FoldedLevel(l: int, b: nat, n: real)
    requires b > 1 && Level(l, b) && n > 0.0
    ensures Level(Folded(l, b), b - 1)
    ensures Abs(At(l, n)) - At(Pow2(b - 1), n) == At(Folded(l, b), n)
    ensures At(l, n) < 0.0 <==> l < 0
  {
    hide At, Pow2;
    Middle(b);
    AtSmall(l, n);
    AtSum(Folded(l, b), Pow2(b - 1), n);
  }

  lemma LabelOfLevel(l: int, b: nat, n: real)
    requires b > 1 && Level(l, b) && n > 0.0
    ensures Level(Folded(l, b), b - 1)
    ensures Label(At(l, n), b, n) == [l < 0] + Label(At(Folded(l, b), n), b - 1, n)
  {
    hide Level, Label, Folded, At, Pow2;
    FoldedLevel(l, b, n);
    LabelUnfold(At(l, n), b, n);
  }

  /** The level the folds decide for. */
  function Decided(v: real, b: nat, n: real): int
    requires b > 0
    decreases b
  {
    var a := if b == 1 then 1 else Pow2(b - 1) + Decided(Abs(v) - At(Pow2(b - 1), n), b - 1, n);
    if v < 0.0 then -a else a
  }

  /** The decided level is a level, on the side of `v`, in whose cell `v` lies, with the label of `v`. */
  lemma {:induction false} DecidedCell(v: real, b: nat, n: real)
    requires b > 0 && n > 0.0
    ensures var l := Decided(v, b, n);
            && Level(l, b) && (l < 0 <==> v < 0.0)
            && (Level(l - 2, b) ==> At(l - 1, n) <= v) && (Level(l + 2, b) ==> v <= At(l + 1, n))
            && Label(At(l, n), b, n) == Label(v, b, n)
    decreases b
  {
    hide At, Pow2, Label, Level;
    var l := Decided(v, b, n);
    if b == 1 {
      OneBitCell(v, l, n);
    } else {
      var w := Abs(v) - At(Pow2(b - 1), n);
      DecidedCell(w, b - 1, n);
      var m := Decided(w, b - 1, n);
      FoldedCell(v, m, b, n);
      LabelUnfold(v, b, n);
      LabelOfLevel(l, b, n);
    }
  }

  lemma OneBitCell(v: real, l: int, n: real)
    requires n > 0.0 && l == if v < 0.0 then -1 else 1
    ensures Level(l, 1) && (Level(l - 2, 1) ==> At(l - 1, n) <= v) && (Level(l + 2, 1) ==> v <= At(l + 1, n))
    ensures Label(At(l, n), 1, n) == Label(v, 1, n)
  {
    SmallPowers();
    AtSmall(l, n);
    hide At;
    assert Label(At(l, n), 1, n)[0] == Label(v, 1, n)[0];
  }

  lemma FoldedCell(v: real, m: int, b: nat, n: real)
    requires b > 1 && n > 0.0 && Level(m, b - 1)
    requires var w := Abs(v) - At(Pow2(b - 1), n);
             (Level(m - 2, b - 1) ==> At(m - 1, n) <= w) && (Level(m + 2, b - 1) ==> w <= At(m + 1, n))
    ensures var l := if v < 0.0 then -(Pow2(b - 1) + m) else Pow2(b - 1) + m;
            && Level(l, b) && (l < 0 <==> v < 0.0) && Folded(l, b) == m
            && (Level(l - 2, b) ==> At(l - 1, n) <= v) && (Level(l + 2, b) ==> v <= At(l + 1, n))
  {
    hide At, Pow2, Level, Folded;
    var p := Pow2(b - 1);
    var a := p + m;
    Unfolded(m, b, v < 0.0);
    FoldedNeighbours(m, b);
    AtSum(m - 1, p, n);
    AtSum(m + 1, p, n);
    AtSmall(a - 1, n);
    AtSmall(a + 1, n);
  }

  lemma Unfolded(m: int, b: nat, negative: bool)
    requires b > 1 && Level(m, b - 1)
    ensures var l := if negative then -(Pow2(b - 1) + m) else Pow2(b - 1) + m;
            Level(l, b) && Folded(l, b) == m && (l < 0 <==> negative)
  {
    Middle(b);
    hide Pow2;
  }

  lemma FoldedNeighbours(m: int, b: nat)
    requires b > 1 && Level(m, b - 1)
    ensures var a := Pow2(b - 1) + m;
            && (a == 1 || (a > 1 && Level(m - 2, b - 1))) && (Level(a + 2, b) ==> Level(m + 2, b - 1))
            && (Level(-a - 2, b) ==> Level(m + 2, b - 1))
  {
    hide Pow2;
    Middle(b);
  }

  /** For every amplitude the folds decide for a nearest level and give that level's label. */
  lemma FoldsDecideNearest(v: real, b: nat, n: real)
    requires b > 0 && n > 0.0
    ensures Nearest(v, Decided(v, b, n), b, n)
    ensures Label(v, b, n) == Label(At(Decided(v, b, n), n), b, n)
  {
    DecidedCell(v, b, n);
    CellIsNearest(v, Decided(v, b, n), b, n);
  }

  /** Off the boundaries a label depends only on the nearest level. */
  lemma LabelOfNearest(v: real, l: int, b: nat, n: real)
    requires b > 0 && n > 0.0 && Nearest(v, l, b, n) && OffBoundaries(v, b, n)
    ensures Label(v, b, n) == Label(At(l, n), b, n)
  {
    FoldsDecideNearest(v, b, n);
    NearestIsUnique(v, l, Decided(v, b, n), b, n);
  }

  /** Different levels have different labels. */
  lemma {:induction false} LabelsDiffer(l: int, m: int, b: nat, n: real)
    requires n > 0.0 && Level(l, b) && Level(m, b) && Label(At(l, n), b, n) == Label(At(m, n), b, n)
    ensures l == m
    decreases b
  {
    SmallPowers();
    if b == 1 {
      AtSmall(l, n);
      AtSmall(m, n);
      assert Label(At(l, n), 1, n)[0] == Label(At(m, n), 1, n)[0];
    } else if b > 1 {
      hide At, Pow2, Label;
      LabelOfLevel(l, b, n);
      LabelOfLevel(m, b, n);
      var s, t := Label(At(l, n), b, n), Label(At(m, n), b, n);
      assert s[0] == t[0] && s[1..] == t[1..];
      LabelsDiffer(Folded(l, b), Folded(m, b), b - 1, n);
    }
  }

  /** The level with a given label. */
  function LevelOf(s: seq<bool>): int
    requires |s| > 0
  {
    var a := if |s| == 1 then 1 else Pow2(|s| - 1) + LevelOf(s[1..]);
    if s[0] then -a else a
  }

  /** Every word is the label of a level. */
  lemma {:induction false} EveryLabelHasLevel(s: seq<bool>, n: real)
    requires |s| > 0 && n > 0.0
    ensures Level(LevelOf(s), |s|) && Label(At(LevelOf(s), n), |s|, n) == s
  {
    var l := LevelOf(s);
    if |s| == 1 {
      SmallPowers();
      AtSmall(l, n);
      assert Label(At(l, n), 1, n)[0] == s[0];
    } else {
      hide At, Pow2, Label, Level, Folded;
      EveryLabelHasLevel(s[1..], n);
      Unfolded(LevelOf(s[1..]), |s|, s[0]);
      LabelOfLevel(l, |s|, n);
      assert s == [s[0]] + s[1..];
    }
  }

  function Distance(s: seq<bool>, t: seq<bool>): nat
    requires |s| == |t|
  {
    if s == [] then 0 else (if s[0] == t[0] then 0 else 1) + Distance(s[1..], t[1..])
  }

  lemma {:induction false} DistanceSame(s: seq<bool>, t: seq<bool>)
    requires |s| == |t|
    ensures Distance(s, s) == 0 && Distance(s, t) == Distance(t, s)
  {
    if s != [] {
      DistanceSame(s[1..], t[1..]);
    }
  }

  lemma DistanceCons(x: bool, s: seq<bool>, y: bool, t: seq<bool>)
    requires |s| == |t|
    ensures Distance([x] + s, [y] + t) == (if x == y then 0 else 1) + Distance(s, t)
  {
    assert ([x] + s)[1..] == s && ([y] + t)[1..] == t;
  }

  /** Neighbouring levels' labels differ in exactly one bit. */
  lemma {:induction false} NeighboursDifferInOneBit(l: int, b: nat, n: real)
    requires n > 0.0 && Level(l, b) && Level(l + 2, b)
    ensures Distance(Label(At(l, n), b, n), Label(At(l + 2, n), b, n)) == 1
    decreases b
  {
    SmallPowers();
    if b == 1 {
      AtSmall(l, n);
      AtSmall(l + 2, n);
      var s, t := Label(At(l, n), 1, n), Label(At(l + 2, n), 1, n);
      assert s[1..] == [] && t[1..] == [];
    } else if b > 1 {
      hide At, Pow2, Label;
      LabelOfLevel(l, b, n);
      LabelOfLevel(l + 2, b, n);
      var f, g := Folded(l, b), Folded(l + 2, b);
      var s, t := Label(At(f, n), b - 1, n), Label(At(g, n), b - 1, n);
      DistanceCons(l < 0, s, l + 2 < 0, t);
      DistanceSame(s, t);
      if l < 0 && l + 2 > 0 {
        assert f == g;
      } else if l > 0 {
        NeighboursDifferInOneBit(f, b - 1, n);
      } else {
        NeighboursDifferInOneBit(g, b - 1, n);
      }
    }
  }

  lemma LevelIsNearest(l: int, b: nat, n: real)
    requires n > 0.0 && Level(l, b)
    ensures Nearest(At(l, n), l, b, n) && OffBoundaries(At(l, n), b, n)
  {
    hide At, Pow2, Nearest;
    AtMonotone(l - 1, l, n);
    AtMonotone(l, l + 1, n);
    CellIsNearest(At(l, n), l, b, n);
    forall j: int ensures At(l, n) != At(2 * j, n) {
      if 2 * j < l {
        AtMonotone(2 * j, l, n);
      } else {
        AtMonotone(l, 2 * j, n);
      }
    }
  }

  // ---- What a soft value measures ----

  /** No soft value changes faster than the amplitude. */
  lemma {:induction false} FoldsMoveNoFaster(v: real, u: real, k: nat, b: nat, n: real)
    requires k < b
    ensures Abs(Fold(v, k, b, n) - Fold(u, k, b, n)) <= Abs(v - u)
  {
    hide At, Pow2;
    if k > 0 {
      FoldsMoveNoFaster(v, u, k - 1, b, n);
      FoldedStep(v, k, b, n);
      FoldedStep(u, k, b, n);
      hide Fold;
    }
  }

  lemma FoldedStep(v: real, k: nat, b: nat, n: real)
    requires 0 < k < b
    ensures Fold(v, k, b, n) == Abs(Fold(v, k - 1, b, n)) - At(Pow2(b - k), n)
  {
  }

  /** Every value a fold can take near one amplitude it takes at another, as far from it as the values are from each other. */
  lemma {:induction false} FoldReaches(v: real, k: nat, b: nat, n: real, t: real) returns (u: real)
    requires k < b && n > 0.0 && (k > 0 ==> Abs(t) <= At(Pow2(b - k), n))
    ensures Fold(u, k, b, n) == t && Abs(v - u) == Abs(Fold(v, k, b, n) - t)
  {
    hide Pow2, At;
    if k == 0 {
      u := t;
    } else {
      var c, w := At(Pow2(b - k), n), Fold(v, k - 1, b, n);
      TwiceLevel(b - k, n);
      var target := if w < 0.0 then -(t + c) else t + c;
      FoldedStep(v, k, b, n);
      hide Fold;
      u := FoldReaches(v, k - 1, b, n, target);
      FoldedStep(u, k, b, n);
    }
  }

  lemma TwiceLevel(k: nat, n: real)
    requires n > 0.0
    ensures At(Pow2(k + 1), n) == 2.0 * At(Pow2(k), n) >= 0.0
  {
    var p := Pow2(k);
    assert (2 * p) as real * n == 2.0 * (p as real * n);
    assert p as real * n >= 0.0;
  }

  /** A soft value's size is the distance to the nearest amplitude at which its bit changes: none is nearer, and one is that near. */
  lemma FoldIsDistance(v: real, k: nat, b: nat, n: real) returns (u: real)
    requires k < b && n > 0.0
    ensures Fold(u, k, b, n) == 0.0 && Abs(v - u) == Abs(Fold(v, k, b, n))
    ensures forall x: real :: Fold(x, k, b, n) == 0.0 ==> Abs(Fold(v, k, b, n)) <= Abs(v - x)
  {
    hide Fold, At, Pow2;
    if k > 0 {
      TwiceLevel(b - k, n);
    }
    u := FoldReaches(v, k, b, n, 0.0);
    forall x: real | Fold(x, k, b, n) == 0.0 ensures Abs(Fold(v, k, b, n)) <= Abs(v - x) {
      FoldsMoveNoFaster(v, x, k, b, n);
    }
  }

  // ---- The nested comparisons ----

  /** The hard decision of `qam16`, as a multiple of `n`. */
  function Slice16(v: real, n: real): int
  {
    if v > 0.0 then
      if v > 2.0 * n then 3 else 1
    else
      if v < -2.0 * n then -3 else -1
  }

  /** The hard decision of `qam64`, whose outer negative comparison has the sign of the positive one. */
  function Slice64(v: real, n: real): int
  {
    if v > 0.0 then
      if v > 4.0 * n then if v > 6.0 * n then 7 else 5
      else if v > 2.0 * n then 3 else 1
    else
      if v < -4.0 * n then if v > 6.0 * n then -7 else -5
      else if v < -2.0 * n then -3 else -1
  }

  /** The hard decision of `qam256`. */
  function Slice256(v: real, n: real): int
  {
    if v > 0.0 then
      if v > 8.0 * n then
        if v > 12.0 * n then if v > 14.0 * n then 15 else 13
        else if v > 10.0 * n then 11 else 9
      else
        if v > 4.0 * n then if v > 6.0 * n then 7 else 5
        else if v > 2.0 * n then 3 else 1
    else
      if v < -8.0 * n then
        if v < -12.0 * n then if v < -14.0 * n then -15 else -13
        else if v < -10.0 * n then -11 else -9
      else
        if v < -4.0 * n then if v < -6.0 * n then -7 else -5
        else if v < -2.0 * n then -3 else -1
  }

  /** The 16-QAM and 256-QAM slicers select a nearest level for every amplitude. */
  lemma SlicersSelectNearest(v: real, n: real)
    requires n > 0.0
    ensures Nearest(v, Slice16(v, n), 2, n) && Nearest(v, Slice256(v, n), 4, n)
  {
    hide Nearest;
    SmallPowers();
    CellIsNearest(v, Slice16(v, n), 2, n);
    CellIsNearest(v, Slice256(v, n), 4, n);
  }

  /** The 64-QAM slicer selects a nearest level exactly for the amplitudes from -6 n up. */
  lemma Slice64Exact(v: real, n: real)
    requires n > 0.0
    ensures Nearest(v, Slice64(v, n), 3, n) <==> v >= -6.0 * n
  {
    SmallPowers();
    if v >= -6.0 * n {
      CellIsNearest(v, Slice64(v, n), 3, n);
    } else {
      assert Slice64(v, n) == -5 && Level(-7, 3);
      assert At(-7, n) == -7.0 * n && At(-5, n) == -5.0 * n;
      assert Abs(v - At(-7, n)) < Abs(v - At(-5, n));
    }
  }

  /** The decision of the L1-post demapper on bit `k` of an axis: set unless the comparison is strictly met. */
  function L1Bit(v: real, k: nat, b: nat, n: real): bool
    requires k < b <= 3
  {
    var amp4 := if b == 2 then 2.0 * n else 4.0 * n;
    var amp2 := 2.0 * n;
    if k == 0 then !(v > 0.0)
    else if k == 1 then !(Abs(v) > amp4)
    else !(Abs(Abs(v) - amp4) > amp2)
  }

  /** It agrees with the soft demapper's sign except where that soft value is zero. */
  lemma L1BitIsLabel(v: real, k: nat, b: nat, n: real)
    requires k < b <= 3
    ensures L1Bit(v, k, b, n) == Label(v, b, n)[k] <==> Fold(v, k, b, n) != 0.0
  {
    SmallPowers();
    hide Abs;
    if k > 0 {
      assert Fold(v, 0, b, n) == v;
      assert Fold(v, 1, b, n) == Abs(v) - At(Pow2(b - 1), n);
    }
  }

  /** Off the boundaries no soft value is zero. */
  lemma {:induction false} FoldsOffBoundaries(v: real, k: nat, b: nat, n: real)
    requires k < b && n > 0.0 && OffBoundaries(v, b, n)
    ensures Fold(v, k, b, n) != 0.0
    decreases b
  {
    hide At, Pow2;
    AtSmall(0, n);
    if k == 0 {
      AtZeroIsInside(b);
      assert v != At(2 * 0, n);
    } else {
      var w := Abs(v) - At(Pow2(b - 1), n);
      FoldedOffBoundaries(v, b, n);
      FoldsOffBoundaries(w, k - 1, b - 1, n);
      FoldOnce(v, k - 1, b, n);
    }
  }

  lemma AtZeroIsInside(b: nat)
    ensures Pow2(b) > 0
  {
  }

  lemma FoldedOffBoundaries(v: real, b: nat, n: real)
    requires b > 1 && n > 0.0 && OffBoundaries(v, b, n)
    ensures OffBoundaries(Abs(v) - At(Pow2(b - 1), n), b - 1, n)
  {
    hide At, Pow2;
    Middle(b);
    var p, h := Pow2(b - 1), Pow2(b - 2);
    forall j: int | 0 < 2 * j + p && 2 * j < p ensures Abs(v) - At(p, n) != At(2 * j, n) {
      AtSum(2 * j, p, n);
      AtSmall(2 * j + p, n);
      assert 2 * (j + h) == 2 * j + p && 2 * -(j + h) == -(2 * j + p);
      assert v != At(2 * (j + h), n) && v != At(2 * -(j + h), n);
    }
  }

  /** Off the boundaries both demappers give the bits of the nearest level's label. */
  lemma BothDemappersAgree(v: real, l: int, k: nat, b: nat, n: real)
    requires k < b <= 3 && n > 0.0 && Nearest(v, l, b, n) && OffBoundaries(v, b, n)
    ensures L1Bit(v, k, b, n) == Label(v, b, n)[k] == Label(At(l, n), b, n)[k]
  {
    LabelOfNearest(v, l, b, n);
    FoldsOffBoundaries(v, k, b, n);
    L1BitIsLabel(v, k, b, n);
  }
}
