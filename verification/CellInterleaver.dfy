/**
 The cell deinterleaving table (section 6.4 of EN 302 755): one permutation of the cells of a
 FEC block from the shift register, cyclically shifted for each block of a TI block by a
 bit-reversed counter that skips the values too large.
 */
module CellInterleaver {
  import opened Bits
  import opened Lfsr
  import opened Registers
  import opened Primes
  import opened Permutations
  import opened Toggled

  /** ceil(log2(n)) */
  function CeilLog2(n: nat): nat
    decreases n
  {
    if n <= 1 then 0 else 1 + CeilLog2((n + 1) / 2)
  }

  lemma {:induction false} CeilLog2Bounds(n: nat)
    requires n > 1
    ensures CeilLog2(n) > 0 && Pow2(CeilLog2(n) - 1) < n <= Pow2(CeilLog2(n))
    decreases n
  {
    var h := (n + 1) / 2;
    assert CeilLog2(n) == 1 + CeilLog2(h);
    if n > 2 {
      hide CeilLog2;
      CeilLog2Bounds(h);
      var c := CeilLog2(h);
      assert Pow2(c) == 2 * Pow2(c - 1) && Pow2(c + 1) == 2 * Pow2(c);
    } else {
      assert CeilLog2(1) == 0 && Pow2(1) == 2;
    }
  }

  /** The block sizes the table of registers covers; every constellation and FEC size falls in this range. */
  predicate CellCount(cells: nat)
  {
    11 <= CeilLog2(cells) <= 15
  }

  function Degree(cells: nat): nat
    requires CellCount(cells)
  {
    CeilLog2(cells)
  }

  function CellRegister(cells: nat): (g: Reg)
    requires CellCount(cells)
    ensures g.Ok() && g.n == Degree(cells) - 1
  {
    Register(Degree(cells) - 1)
  }

  // ---- The permutation of one block ----

  /** All words of the toggled register, in the order met. */
  function ToggledWords(g: Reg, k: nat): (s: seq<nat>)
    requires g.Ok()
    ensures |s| == k && forall i :: 0 <= i < k ==> s[i] == Toggle(i, Word(g, i), g.Size())
  {
    if k == 0 then [] else ToggledWords(g, k - 1) + [Toggle(k - 1, Word(g, k - 1), g.Size())]
  }

  /** The standard's L_0: cell `w` of the first block is sent to position `BaseOrder(cells)[w]`. */
  function BaseOrder(cells: nat): seq<nat>
    requires CellCount(cells)
  {
    Filter(ToggledWords(CellRegister(cells), Pow2(Degree(cells))), cells)
  }

  function Identity(n: nat): (s: seq<nat>)
    ensures |s| == n && forall i :: 0 <= i < n ==> s[i] == i
  {
    if n == 0 then [] else Identity(n - 1) + [n - 1]
  }

  lemma BaseOrderPermutes(cells: nat)
    requires CellCount(cells)
    ensures IsPermutation(BaseOrder(cells), cells) && BaseOrder(cells)[0] == 0
  {
    hide Word, Register, Pow2, Filter;
    var g, d := CellRegister(cells), Degree(cells);
    CeilLog2Bounds(cells);
    var s := ToggledWords(g, Pow2(d));
    AllWordsDiffer(cells);
    FilterPermutation(s, Pow2(d), cells);
    NextWord(g, 0);
    FilterFirst(s, cells);
  }

  /**
   The base order keeps the order in which the register meets its words. As every cell is listed once, that leaves
   one list.
   */
  lemma BaseOrderKeepsOrder(cells: nat, i: nat, j: nat, v: nat, w: nat)
    requires CellCount(cells) && i < j < Pow2(Degree(cells)) && v < |BaseOrder(cells)| && w < |BaseOrder(cells)|
    requires var g := CellRegister(cells);
             BaseOrder(cells)[v] == Toggle(i, Word(g, i), g.Size()) && BaseOrder(cells)[w] == Toggle(j, Word(g, j), g.Size())
    ensures v < w
  {
    var s := ToggledWords(CellRegister(cells), Pow2(Degree(cells)));
    AllWordsDiffer(cells);
    hide Word, Register, Pow2, Filter, CeilLog2;
    FilterKeepsOrder(s, cells, i, j, v, w);
  }

  lemma AllWordsDiffer(cells: nat)
    requires CellCount(cells)
    ensures IsPermutation(ToggledWords(CellRegister(cells), Pow2(Degree(cells))), Pow2(Degree(cells)))
  {
    hide Word, Register, Pow2, Filter, CeilLog2;
    var g, d := CellRegister(cells), Degree(cells);
    RegisterIsMaximal(g.n);
    Doubling(g, d);
    ToggledPermutation(g, Identity(g.Size()), ToggledWords(g, Pow2(d)));
  }

  lemma Doubling(g: Reg, d: nat)
    requires d == g.n + 1
    ensures Pow2(d) == 2 * g.Size()
  {
  }

  lemma {:induction false} FilterFirst(s: seq<nat>, c: nat)
    requires |s| > 0 && s[0] < c
    ensures |Filter(s, c)| > 0 && Filter(s, c)[0] == s[0]
  {
    if |s| > 1 {
      FilterFirst(s[..|s| - 1], c);
    } else {
      assert s[..0] == [];
    }
  }

  // ---- The shifts ----

  /** The lowest `d` bits of `x`, reversed. */
  function Rev(x: nat, d: nat): nat
  {
    if d == 0 then 0 else x % 2 * Pow2(d - 1) + Rev(x / 2, d - 1)
  }

  lemma {:induction false} RevBelow(x: nat, d: nat)
    ensures Rev(x, d) < Pow2(d)
    decreases d
  {
    if d > 0 {
      RevBelow(x / 2, d - 1);
    }
  }

  lemma {:induction false} RevGrows(x: nat, d: nat)
    ensures Rev(x, d + 1) == 2 * Rev(x, d) + BitAt(x, d)
    decreases d
  {
    if d > 0 {
      RevGrows(x / 2, d - 1);
      Even(0, x % 2, d);
      assert x % 2 * Pow2(d) == 2 * (x % 2 * Pow2(d - 1));
    }
  }

  lemma {:induction false} RevInjective(x: nat, y: nat, d: nat)
    requires x < Pow2(d) && y < Pow2(d) && Rev(x, d) == Rev(y, d)
    ensures x == y
    decreases d
  {
    if d > 0 {
      RevBelow(x / 2, d - 1);
      RevBelow(y / 2, d - 1);
      TopBitSplits(Rev(x / 2, d - 1), Rev(y / 2, d - 1), x % 2, y % 2, Pow2(d - 1));
      RevInjective(x / 2, y / 2, d - 1);
    }
  }

  /** Bits of `x` beyond the `d` reversed do not matter. */
  lemma {:induction false} RevPeriodic(x: nat, d: nat)
    ensures Rev(x + Pow2(d), d) == Rev(x, d)
    decreases d
  {
    if d > 0 {
      RevPeriodic(x / 2, d - 1);
    }
  }

  /** The source's loop: reversal with one doubling too many. */
  function Doubled(n: nat, d: nat): nat
  {
    2 * Rev(n, d)
  }

  /** An odd counter value is always rejected; an even one gives the standard's value for its half. */
  lemma DoubledMeetsStandard(n: nat, d: nat)
    requires d > 0
    ensures n % 2 == 1 ==> Doubled(n, d) >= Pow2(d)
    ensures n % 2 == 0 && n < Pow2(d) ==> Doubled(n, d) == Rev(n / 2, d)
  {
    hide Rev, Pow2;
    Halving(d);
    RevUnfold(n, d);
    if n % 2 == 0 && n < Pow2(d) {
      assert n / 2 < Pow2(d - 1);
      RevGrows(n / 2, d - 1);
      NoBitAbove(n / 2, d - 1, d - 1);
    }
  }

  lemma RevUnfold(n: nat, d: nat)
    requires d > 0
    ensures Rev(n, d) == if n % 2 == 1 then Pow2(d - 1) + Rev(n / 2, d - 1) else Rev(n / 2, d - 1)
  {
  }

  /** The standard's counter values 0, 1, ..., k - 1, reversed. */
  function Reversed(d: nat, k: nat): (s: seq<nat>)
    ensures |s| == k && forall i :: 0 <= i < k ==> s[i] == Rev(i, d)
  {
    if k == 0 then [] else Reversed(d, k - 1) + [Rev(k - 1, d)]
  }

  /** The source's counter values, through its loop. */
  function DoubledUpTo(d: nat, k: nat): (s: seq<nat>)
    ensures |s| == k && forall i :: 0 <= i < k ==> s[i] == Doubled(i, d)
  {
    if k == 0 then [] else DoubledUpTo(d, k - 1) + [Doubled(k - 1, d)]
  }

  /** The standard's shift P(r). */
  function StandardShift(cells: nat, r: nat): nat
    requires CellCount(cells) && r < cells
  {
    StandardShiftsPermute(cells);
    StandardUpTo(cells, Pow2(Degree(cells)))[r]
  }

  /** How many shifts the source finds before its counter wraps. */
  function Half(cells: nat): nat { (cells + 1) / 2 }

  /** The shifts the source accepts while its counter is below `n`. */
  function Accepted(cells: nat, n: nat): seq<nat>
    requires CellCount(cells)
  {
    Filter(DoubledUpTo(Degree(cells), n), cells)
  }

  lemma ReversedPermutes(d: nat)
    ensures IsPermutation(Reversed(d, Pow2(d)), Pow2(d))
  {
    var s := Reversed(d, Pow2(d));
    forall i | 0 <= i < |s| ensures s[i] < Pow2(d) {
      RevBelow(i, d);
    }
    forall i, j | 0 <= i < j < |s| ensures s[i] != s[j] {
      if s[i] == s[j] {
        RevInjective(i, j, d);
      }
    }
  }

  lemma StandardShiftsPermute(cells: nat)
    requires CellCount(cells)
    ensures IsPermutation(StandardUpTo(cells, Pow2(Degree(cells))), cells)
  {
    CeilLog2Bounds(cells);
    ReversedPermutes(Degree(cells));
    FilterPermutation(Reversed(Degree(cells), Pow2(Degree(cells))), Pow2(Degree(cells)), cells);
  }

  /** The standard takes its shifts in the order of its counter. */
  lemma StandardShiftsKeepOrder(cells: nat, i: nat, j: nat, q: nat, r: nat)
    requires CellCount(cells) && i < j < Pow2(Degree(cells)) && q < cells && r < cells
    requires StandardShift(cells, q) == Rev(i, Degree(cells)) && StandardShift(cells, r) == Rev(j, Degree(cells))
    ensures q < r
  {
    var d := Degree(cells);
    ReversedPermutes(d);
    StandardShiftsPermute(cells);
    hide Rev, Pow2, Filter, CeilLog2;
    FilterKeepsOrder(Reversed(d, Pow2(d)), cells, i, j, q, r);
  }

  /** Reversal exchanges the bits end for end. */
  lemma {:induction false} RevBits(x: nat, d: nat, k: nat)
    requires k < d
    ensures BitAt(Rev(x, d), k) == BitAt(x, d - 1 - k)
    decreases d
  {
    hide Rev, BitAt, Pow2;
    RevUnfold(x, d);
    RevBelow(x / 2, d - 1);
    LowBit(x, d - 1 - k);
    BitBelowTop(Rev(x / 2, d - 1), x % 2, d - 1, k);
    if k < d - 1 {
      RevBits(x / 2, d - 1, k);
    }
  }

  lemma FilterPlus(s: seq<nat>, x: nat, c: nat)
    ensures Filter(s + [x], c) == if x < c then Filter(s, c) + [x] else Filter(s, c)
  {
    assert (s + [x])[..|s|] == s;
  }

  /** The shifts the standard accepts while its counter is below `k`. */
  function StandardUpTo(cells: nat, k: nat): seq<nat>
    requires CellCount(cells)
  {
    Filter(Reversed(Degree(cells), k), cells)
  }

  lemma StandardStep(cells: nat, k: nat)
    requires CellCount(cells)
    ensures var p := Rev(k, Degree(cells));
            StandardUpTo(cells, k + 1) == if p < cells then StandardUpTo(cells, k) + [p] else StandardUpTo(cells, k)
  {
    hide Filter, Rev, CeilLog2;
    FilterPlus(Reversed(Degree(cells), k), Rev(k, Degree(cells)), cells);
  }

  lemma AcceptedStep(cells: nat, n: nat)
    requires CellCount(cells)
    ensures var p := Doubled(n, Degree(cells));
            Accepted(cells, n + 1) == if p < cells then Accepted(cells, n) + [p] else Accepted(cells, n)
  {
    hide Filter, Doubled, CeilLog2;
    FilterPlus(DoubledUpTo(Degree(cells), n), Doubled(n, Degree(cells)), cells);
  }

  lemma {:induction false} StandardPrefix(cells: nat, j: nat, k: nat)
    requires CellCount(cells) && j <= k
    ensures StandardUpTo(cells, j) <= StandardUpTo(cells, k)
    decreases k
  {
    hide StandardUpTo, Rev, CeilLog2;
    if j < k {
      StandardPrefix(cells, j, k - 1);
      StandardStep(cells, k - 1);
    }
  }

  lemma {:induction false} AcceptedPrefix(cells: nat, j: nat, k: nat)
    requires CellCount(cells) && j <= k
    ensures Accepted(cells, j) <= Accepted(cells, k)
    decreases k
  {
    hide Accepted, Doubled, CeilLog2;
    if j < k {
      AcceptedPrefix(cells, j, k - 1);
      AcceptedStep(cells, k - 1);
    }
  }

  lemma NothingYet(cells: nat)
    requires CellCount(cells)
    ensures Accepted(cells, 0) == StandardUpTo(cells, 0) == []
  {
  }

  lemma DegreeBounds(cells: nat)
    requires CellCount(cells)
    ensures Degree(cells) > 0 && cells <= Pow2(Degree(cells)) == 2 * Pow2(Degree(cells) - 1)
  {
    hide Pow2;
    CeilLog2Bounds(cells);
    Halving(Degree(cells));
  }

  /** Over its first 2m counter values the source accepts what the standard accepts over its first m. */
  lemma {:induction false} AcceptedIsStandard(cells: nat, m: nat)
    requires CellCount(cells) && m <= Pow2(Degree(cells) - 1)
    ensures Accepted(cells, 2 * m) == StandardUpTo(cells, m)
  {
    hide *;
    NothingYet(cells);
    if m > 0 {
      var d := Degree(cells);
      AcceptedIsStandard(cells, m - 1);
      DegreeBounds(cells);
      DoubledMeetsStandard(2 * m - 2, d);
      DoubledMeetsStandard(2 * m - 1, d);
      assert (2 * m - 2) / 2 == m - 1 && (2 * m - 2) % 2 == 0 && (2 * m - 1) % 2 == 1;
      AcceptedStep(cells, 2 * m - 2);
      AcceptedStep(cells, 2 * m - 1);
      StandardStep(cells, m - 1);
    }
  }

  lemma Halving(d: nat)
    requires d > 0
    ensures Pow2(d) == 2 * Pow2(d - 1)
  {
  }

  lemma {:induction false} FilterOfDoubles(s: seq<nat>, t: seq<nat>, c: nat)
    requires |s| == |t| && forall i :: 0 <= i < |s| ==> t[i] == 2 * s[i]
    ensures |Filter(t, c)| == |Filter(s, Half(c))|
    ensures forall i :: 0 <= i < |Filter(t, c)| ==> Filter(t, c)[i] == 2 * Filter(s, Half(c))[i]
  {
    if s != [] {
      FilterOfDoubles(s[..|s| - 1], t[..|t| - 1], c);
    }
  }

  /** A permutation of [0, ceil(cells / 2)): the halves of the shifts the source's counter meets in one turn. */
  function HalfShifts(cells: nat): seq<nat>
    requires CellCount(cells)
  {
    Filter(Reversed(Degree(cells) - 1, Pow2(Degree(cells) - 1)), Half(cells))
  }

  lemma HalfShiftsPermute(cells: nat)
    requires CellCount(cells)
    ensures 0 < Half(cells) && IsPermutation(HalfShifts(cells), Half(cells))
  {
    var d := Degree(cells);
    hide Rev, Pow2, Filter;
    CeilLog2Bounds(cells);
    Halving(d);
    Pow2Monotone(1, d - 1);
    ReversedPermutes(d - 1);
    FilterPermutation(Reversed(d - 1, Pow2(d - 1)), Pow2(d - 1), Half(cells));
  }

  lemma HalfShiftInRange(cells: nat, k: nat)
    requires CellCount(cells) && k < Half(cells)
    ensures k < |HalfShifts(cells)| && 2 * HalfShifts(cells)[k] < cells
  {
    hide HalfShifts;
    HalfShiftsPermute(cells);
  }

  lemma FirstTurn(cells: nat)
    requires CellCount(cells)
    ensures var turn := Accepted(cells, Pow2(Degree(cells)));
            |turn| == |HalfShifts(cells)| && forall i :: 0 <= i < |turn| ==> turn[i] == 2 * HalfShifts(cells)[i]
  {
    var d := Degree(cells);
    var s, t := Reversed(d - 1, Pow2(d - 1)), Reversed(d, Pow2(d - 1));
    forall i | 0 <= i < |s| ensures t[i] == 2 * s[i] {
      RevGrows(i, d - 1);
      NoBitAbove(i, d - 1, d - 1);
    }
    hide Rev, Pow2, Filter;
    FilterOfDoubles(s, t, cells);
    Halving(d);
    AcceptedIsStandard(cells, Pow2(d - 1));
  }

  lemma {:induction false} DoubledRepeats(n: nat, d: nat)
    ensures Doubled(Pow2(d) + n, d) == Doubled(n, d)
  {
    RevPeriodic(n, d);
  }

  lemma {:induction false} AcceptedRepeats(cells: nat, n: nat)
    requires CellCount(cells)
    ensures var turn := Pow2(Degree(cells)); Accepted(cells, turn + n) == Accepted(cells, turn) + Accepted(cells, n)
  {
    hide *;
    var turn := Pow2(Degree(cells));
    NothingYet(cells);
    if n > 0 {
      AcceptedRepeats(cells, n - 1);
      DoubledRepeats(n - 1, Degree(cells));
      AcceptedStep(cells, turn + n - 1);
      AcceptedStep(cells, n - 1);
    }
  }

  /** The source's shift of block `r`. */
  function ShiftOf(cells: nat, r: nat): (shift: nat)
    requires CellCount(cells)
    ensures shift < cells && shift % 2 == 0
  {
    HalfShiftsPermute(cells);
    HalfShiftInRange(cells, r % Half(cells));
    2 * HalfShifts(cells)[r % Half(cells)]
  }

  /** The `r`-th shift the source accepts is this one, however often its counter has wrapped. */
  lemma {:induction false} AcceptedAt(cells: nat, n: nat, r: nat)
    requires CellCount(cells) && r < |Accepted(cells, n)|
    ensures Accepted(cells, n)[r] == ShiftOf(cells, r)
    decreases n
  {
    hide Pow2, Accepted, CeilLog2, HalfShifts;
    var turn, half := Pow2(Degree(cells)), Half(cells);
    FirstTurn(cells);
    HalfShiftsPermute(cells);
    if n <= turn {
      AcceptedPrefix(cells, n, turn);
    } else {
      AcceptedRepeats(cells, n - turn);
      if r >= half {
        AcceptedAt(cells, n - turn, r - half);
        QuotientShift(half, r);
      }
    }
    if r < half {
      QuotientIsUnique(half, 0, r);
    }
  }

  lemma QuotientShift(m: nat, r: nat)
    requires 0 < m <= r
    ensures (r - m) % m == r % m
  {
    QuotientIsUnique(m, r / m - 1, r % m);
    assert m * (r / m - 1) + r % m == r - m;
  }

  /**
   The source's shift of block `r` is the standard's exactly when `r` is below ceil(cells / 2);
   from there on the source repeats itself, while the standard goes on to the odd shifts.
   */
  lemma ShiftIsStandard(cells: nat, r: nat)
    requires CellCount(cells) && r < cells
    ensures ShiftOf(cells, r) == StandardShift(cells, r) <==> r < Half(cells)
  {
    hide Pow2, Accepted, StandardUpTo, CeilLog2, HalfShifts;
    var d, half := Degree(cells), Half(cells);
    var standard := StandardUpTo(cells, Pow2(d));
    FirstTurn(cells);
    HalfShiftsPermute(cells);
    StandardShiftsPermute(cells);
    AcceptedIsStandard(cells, Pow2(d - 1));
    Halving(d);
    StandardPrefix(cells, Pow2(d - 1), Pow2(d));
    if r < half {
      QuotientIsUnique(half, 0, r);
    } else if standard[r] % 2 == 0 {
      var i := Reaches(HalfShifts(cells), half, standard[r] / 2);
    }
  }

  /** Two blocks share a shift in the source exactly when they are a multiple of ceil(cells / 2) apart. */
  lemma ShiftsDistinct(cells: nat, q: nat, r: nat)
    requires CellCount(cells)
    ensures Half(cells) > 0
    ensures ShiftOf(cells, q) == ShiftOf(cells, r) <==> q % Half(cells) == r % Half(cells)
  {
    HalfShiftsPermute(cells);
  }

  // ---- The table ----

  /** Cell `w`'s place in the unshifted order. */
  function BasePosition(cells: nat, w: nat): (p: nat)
    requires CellCount(cells) && w < cells
    ensures p < cells
  {
    BaseOrderPermutes(cells);
    BaseOrder(cells)[w]
  }

  /** Where cell `w` of block `r` is sent by the interleaver. */
  function Position(cells: nat, r: nat, w: nat): (p: nat)
    requires CellCount(cells) && w < cells
    ensures p < cells
  {
    (BasePosition(cells, w) + ShiftOf(cells, r)) % cells
  }

  lemma PositionsDiffer(cells: nat, r: nat, v: nat, w: nat)
    requires CellCount(cells) && v < cells && w < cells && Position(cells, r, v) == Position(cells, r, w)
    ensures v == w
  {
    hide BaseOrder, ShiftOf, CellCount;
    BaseOrderPermutes(cells);
    SameShifted(BasePosition(cells, v), BasePosition(cells, w), ShiftOf(cells, r), cells);
  }

  lemma SameShifted(a: nat, b: nat, shift: nat, n: nat)
    requires a < n && b < n && shift < n && (a + shift) % n == (b + shift) % n
    ensures a == b
  {
    WrapOnce(a + shift, n);
    WrapOnce(b + shift, n);
  }

  lemma WrapOnce(x: nat, n: nat)
    requires x < 2 * n
    ensures x % n == if x < n then x else x - n
  {
    if x < n {
      QuotientIsUnique(n, 0, x);
    } else {
      QuotientIsUnique(n, 1, x - n);
    }
  }

  /** Block `r`'s segment of the table, from `base` on, sends each received position back to its cell. */
  ghost predicate UndoesBlock(table: seq<nat>, cells: nat, r: nat, base: nat)
    requires CellCount(cells)
  {
    && base + cells <= |table|
    && forall w: nat :: w < cells ==> table[base + Position(cells, r, w)] == base + w
  }

  /** The unshifted order, as the source collects it from the register. */
  method FirstPermutation(cells: nat, first: array<nat>) returns (q: nat)
    requires CellCount(cells) && first.Length == Pow2(Degree(cells))
    modifies first
    ensures q == cells <= first.Length && first[..q] == BaseOrder(cells)
  {
    hide Pow2, CeilLog2, Register, Filter, Word, Or, IsPermutation;
    var g := CellRegister(cells);
    var lfsr: nat := 0;
    q := 0;
    NoWords(g, cells);
    for i := 0 to first.Length
      invariant i > 0 ==> lfsr == Word(g, i - 1) || lfsr == Word(g, i - 1) + g.Size()
      invariant q == |Filter(ToggledWords(g, i), cells)| && q <= i
      invariant first[..q] == Filter(ToggledWords(g, i), cells)
    {
      lfsr := Generate(g, i, lfsr);
      OrTop(lfsr, i % 2, g.n);
      lfsr := Or(lfsr, i % 2 * Pow2(g.n));
      FilterPlus(ToggledWords(g, i), Toggle(i, Word(g, i), g.Size()), cells);
      if lfsr < cells {
        first[q] := lfsr;
        q := q + 1;
      }
    }
    BaseOrderLength(cells);
  }

  lemma BaseOrderLength(cells: nat)
    requires CellCount(cells)
    ensures |BaseOrder(cells)| == cells
  {
    hide BaseOrder, CellCount;
    BaseOrderPermutes(cells);
  }

  lemma NoWords(g: Reg, cells: nat)
    requires g.Ok()
    ensures Filter(ToggledWords(g, 0), cells) == []
  {
  }

  /** The source's bit loop: reversal of the counter's low bits, doubled. */
  method ReverseDoubled(n: nat, d: nat) returns (shift: nat)
    ensures shift == Doubled(n, d)
  {
    shift := 0;
    var temp := n;
    for p := 0 to d
      invariant shift == Doubled(n, p)
      invariant forall k: nat :: BitAt(temp, k) == BitAt(n, p + k)
    {
      RevGrows(n, p);
      assert BitAt(temp, 0) == BitAt(n, p + 0);
      OrLowBit(Rev(n, p), temp % 2);
      shift := Or(shift, temp % 2);
      shift := shift * 2;
      forall k: nat ensures BitAt(temp / 2, k) == BitAt(n, p + 1 + k) {
        assert BitAt(temp, k + 1) == BitAt(n, p + (k + 1));
      }
      temp := temp / 2;
    }
  }

  /** Advances the counter past the values whose shift is too large; it stops at a multiple of 2^d at the latest. */
  method NextShift(cells: nat, start: nat, ghost r: nat) returns (shift: nat, n: nat)
    requires CellCount(cells) && |Accepted(cells, start)| == r
    ensures shift == ShiftOf(cells, r) && |Accepted(cells, n)| == r + 1
  {
    hide Pow2, CeilLog2, Accepted, Doubled, HalfShifts, ShiftOf;
    var d := Degree(cells);
    ghost var turn := Pow2(d);
    n := start;
    shift := cells;
    while shift >= cells
      invariant shift >= cells ==> |Accepted(cells, n)| == r
      invariant shift < cells ==> |Accepted(cells, n)| == r + 1 && shift == Accepted(cells, n)[r]
      decreases if shift >= cells then 1 else 0, ToTurn(n, turn)
    {
      AcceptedStep(cells, n);
      StopsAtTurn(cells, n);
      shift := ReverseDoubled(n, d);
      n := n + 1;
    }
    AcceptedAt(cells, n, r);
  }

  /** How far the counter is from the next multiple of `turn`. */
  ghost function ToTurn(n: nat, turn: nat): nat
    requires turn > 0
  {
    if n % turn == 0 then 0 else turn - n % turn
  }

  lemma {:induction false} RevOfMultiple(k: nat, d: nat)
    ensures Rev(Pow2(d) * k, d) == 0
  {
    if k == 0 {
      RevOfZero(d);
    } else {
      RevOfMultiple(k - 1, d);
      RevPeriodic(Pow2(d) * (k - 1), d);
      assert Pow2(d) * k == Pow2(d) * (k - 1) + Pow2(d);
    }
  }

  lemma {:induction false} RevOfZero(d: nat)
    ensures Rev(0, d) == 0
  {
    if d > 0 {
      RevOfZero(d - 1);
    }
  }

  lemma AcceptedAtTurn(cells: nat, n: nat)
    requires CellCount(cells) && n % Pow2(Degree(cells)) == 0
    ensures Doubled(n, Degree(cells)) < cells
  {
    hide Rev, CeilLog2, Pow2;
    var turn := Pow2(Degree(cells));
    DegreeBounds(cells);
    CeilLog2OfZero(cells);
    RevOfMultiple(n / turn, Degree(cells));
  }

  lemma CeilLog2OfZero(cells: nat)
    requires CellCount(cells)
    ensures cells > 0
  {
  }

  lemma StopsAtTurn(cells: nat, n: nat)
    requires CellCount(cells)
    ensures var turn := Pow2(Degree(cells)); Doubled(n, Degree(cells)) >= cells ==> ToTurn(n + 1, turn) < ToTurn(n, turn)
  {
    hide *;
    var turn := Pow2(Degree(cells));
    if n % turn == 0 {
      AcceptedAtTurn(cells, n);
    } else {
      NextRemainder(n, turn);
    }
  }

  lemma NextRemainder(n: nat, m: nat)
    requires m > 0 && n % m != 0
    ensures ToTurn(n + 1, m) < ToTurn(n, m)
  {
    var q, r := n / m, n % m;
    if r + 1 < m {
      assert n + 1 == m * q + (r + 1);
      QuotientIsUnique(m, q, r + 1);
      assert (n + 1) % m == r + 1;
    } else {
      assert n + 1 == m * (q + 1) + 0;
      QuotientIsUnique(m, q + 1, 0);
      assert (n + 1) % m == 0;
    }
  }

  lemma PositionFormula(cells: nat, r: nat, w: nat)
    requires CellCount(cells) && w < cells
    ensures |BaseOrder(cells)| == cells && Position(cells, r, w) == (BaseOrder(cells)[w] + ShiftOf(cells, r)) % cells
  {
    hide BaseOrder, ShiftOf, CellCount;
    BaseOrderPermutes(cells);
  }

  /** Fills one block's segment of the table. */
  method FillBlock(cells: nat, r: nat, shift: nat, index: nat, first: array<nat>, permutations: array<nat>)
    requires CellCount(cells) && shift == ShiftOf(cells, r) && first != permutations
    requires cells <= first.Length && first[..cells] == BaseOrder(cells) && index + cells <= permutations.Length
    modifies permutations
    ensures UndoesBlock(permutations[..], cells, r, index)
    ensures permutations[..index] == old(permutations[..index])
  {
    hide BaseOrder, ShiftOf, CellCount, Position, BasePosition;
    for w := 0 to cells
      invariant permutations[..index] == old(permutations[..index])
      invariant forall v: nat :: v < w ==> permutations[index + Position(cells, r, v)] == index + v
    {
      PositionFormula(cells, r, w);
      forall v: nat | v < w ensures Position(cells, r, v) != Position(cells, r, w) {
        if Position(cells, r, v) == Position(cells, r, w) {
          PositionsDiffer(cells, r, v, w);
        }
      }
      permutations[(first[w] + shift) % cells + index] := index + w;
    }
  }

  /** The whole table: each block's segment undoes the cell interleaver of that block. */
  method AddressCellDeinterleaving(blockMax: nat, cells: nat, permutations: array<nat>)
    requires CellCount(cells) && permutations.Length == blockMax * cells
    modifies permutations
    ensures forall r: nat :: r < blockMax ==> UndoesBlock(permutations[..], cells, r, r * cells)
  {
    hide Accepted, Pow2, CellCount, UndoesBlock, ShiftOf, BaseOrder;
    var first := new nat[Pow2(Degree(cells))];
    var q := FirstPermutation(cells, first);
    var n, index := 0, 0;
    NothingYet(cells);
    for r := 0 to blockMax
      invariant index == r * cells && |Accepted(cells, n)| == r && first[..cells] == BaseOrder(cells)
      invariant forall b: nat :: b < r ==> UndoesBlock(permutations[..], cells, b, b * cells)
    {
      var shift;
      shift, n := NextShift(cells, n, r);
      RoomFor(r, blockMax, cells);
      ghost var before := permutations[..];
      FillBlock(cells, r, shift, index, first, permutations);
      forall b: nat | b < r ensures UndoesBlock(permutations[..], cells, b, b * cells) {
        RoomFor(b, r, cells);
        StillUndone(before, permutations[..], cells, b, b * cells, index);
      }
      index := index + cells;
    }
  }

  lemma StillUndone(before: seq<nat>, after: seq<nat>, cells: nat, b: nat, base: nat, index: nat)
    requires CellCount(cells) && UndoesBlock(before, cells, b, base)
    requires base + cells <= index <= |before| == |after| && before[..index] == after[..index]
    ensures UndoesBlock(after, cells, b, base)
  {
    forall w: nat | w < cells ensures after[base + Position(cells, b, w)] == base + w {
      assert after[..index][base + Position(cells, b, w)] == before[..index][base + Position(cells, b, w)];
    }
  }
}
