/**
 The frequency deinterleaver's addresses (section 8.5 of EN 302 755): the generator over a
 shift register, a wire permutation and a parity toggle, then the lists kept for a number of
 carriers and their inverses, with the paired form of the 32K modes.
 */
module FreqDeinterleaver {
  import opened Bits
  import opened Lfsr
  import opened Registers
  import opened Permutations
  import opened Toggled

  datatype FftMode = Fft2K | Fft8K | Fft4K | Fft1K | Fft16K | Fft32K | Fft8KT2Gi | Fft32KT2Gi | Fft16KT2Gi

  function Degree(mode: FftMode): (n: nat)
    ensures 9 <= n <= 14
  {
    match mode
    case Fft1K => 9
    case Fft2K => 10
    case Fft4K => 11
    case Fft8K | Fft8KT2Gi => 12
    case Fft16K | Fft16KT2Gi => 13
    case Fft32K | Fft32KT2Gi => 14
  }

  predicate Is32K(mode: FftMode) { mode == Fft32K || mode == Fft32KT2Gi }

  function WiresEven(mode: FftMode): (wires: seq<nat>)
    ensures |wires| == Degree(mode)
  {
    match mode
    case Fft1K => [8, 7, 6, 5, 0, 1, 2, 3, 4]
    case Fft2K => [4, 3, 9, 6, 2, 8, 1, 5, 7, 0]
    case Fft4K => [6, 3, 0, 9, 4, 2, 1, 8, 5, 10, 7]
    case Fft8K | Fft8KT2Gi => [7, 1, 4, 2, 9, 6, 8, 10, 0, 3, 11, 5]
    case Fft16K | Fft16KT2Gi => [9, 7, 6, 10, 12, 5, 1, 11, 0, 2, 3, 4, 8]
    case Fft32K | Fft32KT2Gi => [7, 13, 3, 4, 9, 2, 12, 11, 1, 8, 10, 0, 5, 6]
  }

  function WiresOdd(mode: FftMode): (wires: seq<nat>)
    ensures |wires| == Degree(mode)
  {
    match mode
    case Fft1K => [6, 8, 7, 4, 1, 0, 5, 2, 3]
    case Fft2K => [6, 9, 4, 8, 5, 1, 0, 7, 2, 3]
    case Fft4K => [5, 9, 1, 4, 3, 0, 8, 10, 7, 2, 6]
    case Fft8K | Fft8KT2Gi => [11, 4, 9, 3, 1, 2, 5, 0, 6, 7, 10, 8]
    case Fft16K | Fft16KT2Gi => [6, 8, 10, 12, 2, 0, 4, 1, 11, 3, 5, 9, 7]
    case Fft32K | Fft32KT2Gi => [7, 13, 3, 4, 9, 2, 12, 11, 1, 8, 10, 0, 5, 6]
  }

  // ---- The wire permutation ----

  /** The first `k` bits of `w`, each moved to the position its wire leads to. */
  function Wired(wires: seq<nat>, w: nat, k: nat): nat
    requires k <= |wires|
  {
    if k == 0 then 0 else Or(Wired(wires, w, k - 1), BitAt(w, k - 1) * Pow2(wires[k - 1]))
  }

  lemma BitOfMoved(b: nat, p: nat, j: nat)
    requires b < 2
    ensures BitAt(b * Pow2(p), j) == if j == p then b else 0
  {
    if b == 0 {
      BitOfZero(j);
    } else {
      BitOfPow2(p, j);
    }
  }

  lemma {:induction false} WiredBelow(wires: seq<nat>, w: nat, k: nat, n: nat)
    requires k <= |wires| && forall i :: 0 <= i < k ==> wires[i] < n
    ensures Wired(wires, w, k) < Pow2(n)
  {
    if k > 0 {
      WiredBelow(wires, w, k - 1, n);
      Pow2Monotone(wires[k - 1] + 1, n);
      var b := BitAt(w, k - 1);
      assert b * Pow2(wires[k - 1]) <= Pow2(wires[k - 1]) < Pow2(n);
      OrBelow(Wired(wires, w, k - 1), b * Pow2(wires[k - 1]), n);
    }
  }

  /** With no two wires meeting, bit `i` of the word is bit `wires[i]` of the address. */
  lemma {:induction false} BitOfWired(wires: seq<nat>, w: nat, k: nat, i: nat)
    requires i < |wires| && k <= |wires| && forall a, b :: 0 <= a < b < |wires| ==> wires[a] != wires[b]
    ensures BitAt(Wired(wires, w, k), wires[i]) == if i < k then BitAt(w, i) else 0
    decreases k
  {
    if k == 0 {
      BitOfZero(wires[i]);
    } else {
      BitOfWired(wires, w, k - 1, i);
      BitOfOr(Wired(wires, w, k - 1), BitAt(w, k - 1) * Pow2(wires[k - 1]), wires[i]);
      BitOfMoved(BitAt(w, k - 1), wires[k - 1], wires[i]);
    }
  }

  lemma WiredInjective(wires: seq<nat>, v: nat, w: nat, n: nat)
    requires IsPermutation(wires, n) && v < Pow2(n) && w < Pow2(n)
    requires Wired(wires, v, n) == Wired(wires, w, n)
    ensures v == w
  {
    forall i: nat | i < n ensures BitAt(v, i) == BitAt(w, i) {
      BitOfWired(wires, v, n, i);
      BitOfWired(wires, w, n, i);
    }
    SameBits(v, w, n);
  }

  /** The even wires of the smaller modes are permutations. */
  lemma EvenWiresSmall(mode: FftMode)
    ensures Degree(mode) <= 11 ==> IsPermutation(WiresEven(mode), Degree(mode))
  {
    hide IsPermutation;
    match mode
    case Fft1K =>
      var inv := [4, 5, 6, 7, 8, 3, 2, 1, 0];
      assert MatchedFrom([8, 7, 6, 5, 0, 1, 2, 3, 4], inv, 5);
      assert MatchedFrom([8, 7, 6, 5, 0, 1, 2, 3, 4], inv, 1);
      PermutationByInverse([8, 7, 6, 5, 0, 1, 2, 3, 4], inv);
    case Fft2K =>
      var inv := [9, 6, 4, 1, 0, 7, 3, 8, 5, 2];
      assert MatchedFrom([4, 3, 9, 6, 2, 8, 1, 5, 7, 0], inv, 6);
      assert MatchedFrom([4, 3, 9, 6, 2, 8, 1, 5, 7, 0], inv, 2);
      PermutationByInverse([4, 3, 9, 6, 2, 8, 1, 5, 7, 0], inv);
    case Fft4K =>
      var inv := [2, 6, 5, 1, 4, 8, 0, 10, 7, 3, 9];
      assert MatchedFrom([6, 3, 0, 9, 4, 2, 1, 8, 5, 10, 7], inv, 7);
      assert MatchedFrom([6, 3, 0, 9, 4, 2, 1, 8, 5, 10, 7], inv, 3);
      PermutationByInverse([6, 3, 0, 9, 4, 2, 1, 8, 5, 10, 7], inv);
    case _ =>
  }

  lemma EvenWiresLarge(mode: FftMode)
    ensures 11 < Degree(mode) < 14 ==> IsPermutation(WiresEven(mode), Degree(mode))
  {
    hide IsPermutation;
    match mode
    case Fft8K | Fft8KT2Gi =>
      var inv := [8, 1, 3, 9, 2, 11, 5, 0, 6, 4, 7, 10];
      assert MatchedFrom([7, 1, 4, 2, 9, 6, 8, 10, 0, 3, 11, 5], inv, 8);
      assert MatchedFrom([7, 1, 4, 2, 9, 6, 8, 10, 0, 3, 11, 5], inv, 4);
      PermutationByInverse([7, 1, 4, 2, 9, 6, 8, 10, 0, 3, 11, 5], inv);
    case Fft16K | Fft16KT2Gi =>
      var inv := [8, 6, 9, 10, 11, 5, 2, 1, 12, 0, 3, 7, 4];
      assert MatchedFrom([9, 7, 6, 10, 12, 5, 1, 11, 0, 2, 3, 4, 8], inv, 9);
      assert MatchedFrom([9, 7, 6, 10, 12, 5, 1, 11, 0, 2, 3, 4, 8], inv, 5);
      assert MatchedFrom([9, 7, 6, 10, 12, 5, 1, 11, 0, 2, 3, 4, 8], inv, 1);
      PermutationByInverse([9, 7, 6, 10, 12, 5, 1, 11, 0, 2, 3, 4, 8], inv);
    case _ =>
  }

  lemma EvenWires32K(mode: FftMode)
    ensures Degree(mode) == 14 ==> IsPermutation(WiresEven(mode), Degree(mode))
  {
    hide IsPermutation;
    match mode
    case Fft32K | Fft32KT2Gi =>
      var inv := [11, 8, 5, 2, 3, 12, 13, 0, 9, 4, 10, 7, 6, 1];
      assert MatchedFrom([7, 13, 3, 4, 9, 2, 12, 11, 1, 8, 10, 0, 5, 6], inv, 10);
      assert MatchedFrom([7, 13, 3, 4, 9, 2, 12, 11, 1, 8, 10, 0, 5, 6], inv, 6);
      assert MatchedFrom([7, 13, 3, 4, 9, 2, 12, 11, 1, 8, 10, 0, 5, 6], inv, 2);
      PermutationByInverse([7, 13, 3, 4, 9, 2, 12, 11, 1, 8, 10, 0, 5, 6], inv);
    case _ =>
  }

  lemma EvenWiresPermute(mode: FftMode)
    ensures IsPermutation(WiresEven(mode), Degree(mode))
  {
    hide IsPermutation, WiresEven;
    EvenWiresSmall(mode);
    EvenWiresLarge(mode);
    EvenWires32K(mode);
  }

  lemma OddWiresSmall(mode: FftMode)
    ensures Degree(mode) <= 11 ==> IsPermutation(WiresOdd(mode), Degree(mode))
  {
    hide IsPermutation;
    match mode
    case Fft1K =>
      var inv := [5, 4, 7, 8, 3, 6, 0, 2, 1];
      assert MatchedFrom([6, 8, 7, 4, 1, 0, 5, 2, 3], inv, 5);
      assert MatchedFrom([6, 8, 7, 4, 1, 0, 5, 2, 3], inv, 1);
      PermutationByInverse([6, 8, 7, 4, 1, 0, 5, 2, 3], inv);
    case Fft2K =>
      var inv := [6, 5, 8, 9, 2, 4, 0, 7, 3, 1];
      assert MatchedFrom([6, 9, 4, 8, 5, 1, 0, 7, 2, 3], inv, 6);
      assert MatchedFrom([6, 9, 4, 8, 5, 1, 0, 7, 2, 3], inv, 2);
      PermutationByInverse([6, 9, 4, 8, 5, 1, 0, 7, 2, 3], inv);
    case Fft4K =>
      var inv := [5, 2, 9, 4, 3, 0, 10, 8, 6, 1, 7];
      assert MatchedFrom([5, 9, 1, 4, 3, 0, 8, 10, 7, 2, 6], inv, 7);
      assert MatchedFrom([5, 9, 1, 4, 3, 0, 8, 10, 7, 2, 6], inv, 3);
      PermutationByInverse([5, 9, 1, 4, 3, 0, 8, 10, 7, 2, 6], inv);
    case _ =>
  }

  lemma OddWiresLarge(mode: FftMode)
    ensures Degree(mode) > 11 ==> IsPermutation(WiresOdd(mode), Degree(mode))
  {
    hide IsPermutation;
    match mode
    case Fft8K | Fft8KT2Gi =>
      var inv := [7, 4, 5, 3, 1, 6, 8, 9, 11, 2, 10, 0];
      assert MatchedFrom([11, 4, 9, 3, 1, 2, 5, 0, 6, 7, 10, 8], inv, 8);
      assert MatchedFrom([11, 4, 9, 3, 1, 2, 5, 0, 6, 7, 10, 8], inv, 4);
      PermutationByInverse([11, 4, 9, 3, 1, 2, 5, 0, 6, 7, 10, 8], inv);
    case Fft16K | Fft16KT2Gi =>
      var inv := [5, 7, 4, 9, 6, 10, 0, 12, 1, 11, 2, 8, 3];
      assert MatchedFrom([6, 8, 10, 12, 2, 0, 4, 1, 11, 3, 5, 9, 7], inv, 9);
      assert MatchedFrom([6, 8, 10, 12, 2, 0, 4, 1, 11, 3, 5, 9, 7], inv, 5);
      assert MatchedFrom([6, 8, 10, 12, 2, 0, 4, 1, 11, 3, 5, 9, 7], inv, 1);
      PermutationByInverse([6, 8, 10, 12, 2, 0, 4, 1, 11, 3, 5, 9, 7], inv);
    case Fft32K | Fft32KT2Gi =>
      var inv := [11, 8, 5, 2, 3, 12, 13, 0, 9, 4, 10, 7, 6, 1];
      assert MatchedFrom([7, 13, 3, 4, 9, 2, 12, 11, 1, 8, 10, 0, 5, 6], inv, 10);
      assert MatchedFrom([7, 13, 3, 4, 9, 2, 12, 11, 1, 8, 10, 0, 5, 6], inv, 6);
      assert MatchedFrom([7, 13, 3, 4, 9, 2, 12, 11, 1, 8, 10, 0, 5, 6], inv, 2);
      PermutationByInverse([7, 13, 3, 4, 9, 2, 12, 11, 1, 8, 10, 0, 5, 6], inv);
    case _ =>
  }

  lemma OddWiresPermute(mode: FftMode)
    ensures IsPermutation(WiresOdd(mode), Degree(mode))
  {
    hide IsPermutation, WiresOdd;
    OddWiresSmall(mode);
    OddWiresLarge(mode);
  }

  // ---- The address lists ----

  function MaxStates(mode: FftMode): nat { Pow2(Degree(mode) + 1) }

  function Address(mode: FftMode, wires: seq<nat>, i: nat): nat
    requires |wires| == Degree(mode)
  {
    Toggle(i, Wired(wires, Word(Register(Degree(mode)), i), Degree(mode)), MaxStates(mode) / 2)
  }

  /** The wired image of every word of `n` bits. */
  function Rewired(wires: seq<nat>, n: nat): seq<nat>
    requires n == |wires|
  {
    seq(Pow2(n), w requires 0 <= w => Wired(wires, w, n))
  }

  lemma RewiredPermutes(wires: seq<nat>, n: nat)
    requires IsPermutation(wires, n)
    ensures IsPermutation(Rewired(wires, n), Pow2(n))
  {
    var f := Rewired(wires, n);
    forall w: nat | w < Pow2(n) ensures f[w] < Pow2(n) {
      WiredBelow(wires, w, n, n);
    }
    forall v: nat, w: nat | v < w < Pow2(n) ensures f[v] != f[w] {
      assert f[v] == Wired(wires, v, n) && f[w] == Wired(wires, w, n);
      if f[v] == f[w] {
        WiredInjective(wires, v, w, n);
      }
    }
  }

  lemma StateCount(mode: FftMode)
    ensures MaxStates(mode) == 2 * Pow2(Degree(mode)) && MaxStates(mode) / 2 == Pow2(Degree(mode))
  {
  }

  lemma AddressIsToggled(mode: FftMode, wires: seq<nat>, i: nat)
    requires |wires| == Degree(mode)
    ensures var g := Register(Degree(mode));
            var f := Rewired(wires, g.n);
            g.Ok() && |f| == g.Size() == Pow2(g.n) && MaxStates(mode) == 2 * g.Size() && Address(mode, wires, i) == Toggle(i, f[Word(g, i)], g.Size())
  {
    hide Wired, Word, Toggle, Register, Degree, Pow2, MaxStates;
    StateCount(mode);
  }

  /** The bits of an address: each bit of the register's word at its wire's end, and the parity of the index on top. */
  lemma AddressBits(mode: FftMode, wires: seq<nat>, i: nat, k: nat)
    requires IsPermutation(wires, Degree(mode)) && k < Degree(mode)
    ensures var a := Address(mode, wires, i);
            && BitAt(a, wires[k]) == BitAt(Word(Register(Degree(mode)), i), k)
            && BitAt(a, Degree(mode)) == i % 2
  {
    hide Word, Register, Degree, Pow2, MaxStates, BitAt, Wired;
    var n := Degree(mode);
    var w := Wired(wires, Word(Register(n), i), n);
    StateCount(mode);
    WiredBelow(wires, Word(Register(n), i), n, n);
    BitOfWired(wires, Word(Register(n), i), n, k);
    BitBelowTop(w, i % 2, n, wires[k]);
    BitBelowTop(w, i % 2, n, n);
  }

  /** Every mode's address list is a permutation of all its states, whichever permutation the wires make. */
  lemma AddressesArePermutation(mode: FftMode, wires: seq<nat>, s: seq<nat>)
    requires IsPermutation(wires, Degree(mode)) && |s| == MaxStates(mode)
    requires forall i :: 0 <= i < |s| ==> s[i] == Address(mode, wires, i)
    ensures IsPermutation(s, MaxStates(mode))
  {
    assert |wires| == Degree(mode);
    hide *;
    var n := Degree(mode);
    var g, f := Register(n), Rewired(wires, n);
    RegisterIsMaximal(n);
    RewiredPermutes(wires, n);
    AddressIsToggled(mode, wires, 0);
    forall i | 0 <= i < |s| ensures s[i] == Toggle(i, f[Word(g, i)], g.Size()) {
      AddressIsToggled(mode, wires, i);
    }
    ToggledPermutation(g, f, s);
  }

  // ---- The lists for one number of carriers ----

  /** The inverse of the odd list's inverse is the odd list, so the two inverses invert each other. */
  lemma DoubleInverse(hEven: seq<nat>, evenTx: seq<nat>, oddInverse: seq<nat>, odd: seq<nat>, hOdd: seq<nat>, m: nat)
    requires IsPermutation(odd, m) && m <= |oddInverse| && Inverts(oddInverse, odd, m) && evenTx == oddInverse[..m]
    requires Inverts(hEven, evenTx, m) && Inverts(hOdd, odd, m)
    ensures hEven[..m] == odd && Inverts(hEven, hOdd, m) && Inverts(hOdd, hEven, m)
  {
    InverseOfPermutation(oddInverse, odd, m);
    InverseIsUnique(hEven, odd, evenTx, m);
    InverseOfPermutation(hOdd, odd, m);
  }

  /** The tables invert both orders; in 32K that of even symbols is the odd order itself. */
  ghost predicate Inverted(even: seq<nat>, odd: seq<nat>, m: nat, is32K: bool, hEven: seq<nat>, hOdd: seq<nat>)
  {
    && IsPermutation(even, m) && IsPermutation(odd, m)
    && Inverts(hOdd, odd, m)
    && (!is32K ==> Inverts(hEven, even, m))
    && (is32K ==> m <= |hEven| && hEven[..m] == odd && Inverts(hEven, hOdd, m) && Inverts(hOdd, hEven, m))
  }

  /** The lists of one kind of symbol: transmit order and its inverse, for even and odd symbols. */
  class AddressPair {
    const hEven: array<nat>
    const hOdd: array<nat>
    const hEvenTx: array<nat>
    const hOddTx: array<nat>

    ghost const Repr: set<object>

    ghost predicate Valid()
    {
      && Repr == {hEven, hOdd, hEvenTx, hOddTx}
      && hEven.Length == hOdd.Length == hEvenTx.Length == hOddTx.Length == 32768
      && hEven != hOdd && hEven != hEvenTx && hEven != hOddTx
      && hOdd != hEvenTx && hOdd != hOddTx && hEvenTx != hOddTx
    }

    constructor ()
      ensures Valid() && fresh(Repr)
    {
      hEven := new nat[32768];
      hOdd := new nat[32768];
      hEvenTx := new nat[32768];
      hOddTx := new nat[32768];
      Repr := {hEven, hOdd, hEvenTx, hOddTx};
    }

    /** Keeps the addresses of `carriers` carriers and inverts them; in 32K the even list becomes the odd one's inverse. */
    method Fill(maxStates: nat, maxEven: array<nat>, maxOdd: array<nat>, carriers: nat, is32K: bool)
      requires Valid() && maxEven !in Repr && maxOdd !in Repr
      requires maxStates <= 32768 && maxEven.Length == maxOdd.Length == 32768
      requires IsPermutation(maxEven[..maxStates], maxStates) && IsPermutation(maxOdd[..maxStates], maxStates)
      modifies Repr
      ensures Inverted(Filter(maxEven[..maxStates], carriers), Filter(maxOdd[..maxStates], carriers), Min(carriers, maxStates), is32K,
                       hEven[..], hOdd[..])
    {
      ghost var even, odd := Filter(maxEven[..maxStates], carriers), Filter(maxOdd[..maxStates], carriers);
      ghost var m := Min(carriers, maxStates);
      FilterPermutation(maxEven[..maxStates], maxStates, carriers);
      FilterPermutation(maxOdd[..maxStates], maxStates, carriers);
      hide Filter, IsPermutation, Inverts;
      var qEven := Collect(maxStates, maxEven, carriers, hEvenTx);
      var qOdd := Collect(maxStates, maxOdd, carriers, hOddTx);
      if is32K {
        Invert(qOdd, hOddTx, hEvenTx, odd);
        InverseOfPermutation(hEvenTx[..], odd, m);
      }
      ghost var evenTx := hEvenTx[..m];
      Invert(qEven, hEvenTx, hEven, evenTx);
      ghost var h := hEven[..];
      Invert(qOdd, hOddTx, hOdd, odd);
      assert hEven[..] == h;
      if is32K {
        DoubleInverse(h, evenTx, hEvenTx[..], odd, hOdd[..], m);
      }
    }

    /** Copies the addresses below `carriers` into `tx`, in order. */
    static method Collect(maxStates: nat, max: array<nat>, carriers: nat, tx: array<nat>) returns (q: nat)
      requires max != tx && maxStates <= max.Length && maxStates <= tx.Length
      modifies tx
      ensures q == |Filter(max[..maxStates], carriers)| <= tx.Length && tx[..q] == Filter(max[..maxStates], carriers)
    {
      q := 0;
      for i := 0 to maxStates
        invariant q == |Filter(max[..i], carriers)| && q <= i
        invariant tx[..q] == Filter(max[..i], carriers)
      {
        assert max[..i + 1][..i] == max[..i];
        if max[i] < carriers {
          tx[q] := max[i];
          q := q + 1;
        }
      }
    }

    /** Writes the inverse of the list `tx` of `q` addresses into `h`. */
    static method Invert(q: nat, tx: array<nat>, h: array<nat>, ghost list: seq<nat>)
      requires tx != h && q <= tx.Length && q <= h.Length && IsPermutation(list, q) && tx[..q] == list
      modifies h
      ensures Inverts(h[..], list, q)
    {
      for i := 0 to q
        invariant forall j :: 0 <= j < i ==> list[j] < q && h[list[j]] == j
      {
        assert tx[i] == list[i];
        h[tx[i]] := i;
      }
    }
  }

  class AddressFreqDeinterleaver {
    var maxStates: nat
    const maxEven: array<nat>
    const maxOdd: array<nat>
    const p2: AddressPair
    const data: AddressPair
    const fc: AddressPair

    ghost predicate Valid()
      reads this
    {
      && maxEven.Length == maxOdd.Length == 32768 && maxEven != maxOdd
      && p2.Valid() && data.Valid() && fc.Valid()
      && p2.Repr !! data.Repr !! fc.Repr !! {maxEven, maxOdd}
      && maxStates <= 32768
    }

    /** The generated lists are the mode's permutations of all its states. */
    ghost predicate Generated(mode: FftMode)
      reads this, maxEven, maxOdd
    {
      && maxStates == MaxStates(mode) <= maxEven.Length && maxStates <= maxOdd.Length
      && (forall i :: 0 <= i < maxStates ==> maxEven[i] == EvenAddress(mode, i))
      && (forall i :: 0 <= i < maxStates ==> maxOdd[i] == OddAddress(mode, i))
      && IsPermutation(maxEven[..maxStates], maxStates)
      && IsPermutation(maxOdd[..maxStates], maxStates)
    }

    constructor ()
      ensures Valid()
    {
      maxStates := 0;
      maxEven := new nat[32768];
      maxOdd := new nat[32768];
      p2 := new AddressPair();
      data := new AddressPair();
      fc := new AddressPair();
    }

    method Init(mode: FftMode)
      requires Valid()
      modifies `maxStates, maxEven, maxOdd
      ensures Valid() && Generated(mode)
    {
      hide Reg.Size, Word, Pow2, Degree, Register, WiresEven, WiresOdd, EvenAddress, OddAddress, MaxStates, Wired, Address, IsPermutation;
      var g := Register(Degree(mode));
      StatesFit(mode);
      maxStates := Pow2(g.n + 1);
      assert Valid() && maxEven.Length == maxOdd.Length == 32768 && maxEven != maxOdd;
      hide Valid;
      var lfsr := 0;
      for i := 0 to maxStates
        invariant maxStates == MaxStates(mode) && Valid()
        invariant i > 0 ==> lfsr == Word(g, i - 1)
        invariant forall j :: 0 <= j < i ==> maxEven[j] == EvenAddress(mode, j)
        invariant forall j :: 0 <= j < i ==> maxOdd[j] == OddAddress(mode, j)
      {
        lfsr := Generate(g, i, lfsr);
        var even := Rewire(WiresEven(mode), lfsr);
        var odd := Rewire(WiresOdd(mode), lfsr);
        AddressFormulas(mode, i);
        maxEven[i] := even + i % 2 * (maxStates / 2);
        maxOdd[i] := odd + i % 2 * (maxStates / 2);
      }
      assert forall j :: 0 <= j < maxStates ==> maxEven[..maxStates][j] == EvenAddress(mode, j);
      assert forall j :: 0 <= j < maxStates ==> maxOdd[..maxStates][j] == OddAddress(mode, j);
      AllAddressesPermute(mode, maxEven[..maxStates], maxOdd[..maxStates]);
    }

    /** Moves each bit of `word` to where its wire leads. */
    static method Rewire(wires: seq<nat>, word: nat) returns (address: nat)
      ensures address == Wired(wires, word, |wires|)
    {
      address := 0;
      for n := 0 to |wires|
        invariant address == Wired(wires, word, n)
      {
        address := Or(address, BitAt(word, n) * Pow2(wires[n]));
      }
    }

    method P2Addresses(mode: FftMode, carriers: nat)
      requires Valid() && Generated(mode)
      modifies p2.Repr
      ensures Valid() && Generated(mode)
      ensures Deinterleaves(p2, mode, carriers)
    {
      hide IsPermutation, Inverted, Filter, EvenAddress, OddAddress, MaxStates, EvenList, OddList;
      GeneratedLists(mode);
      p2.Fill(maxStates, maxEven, maxOdd, carriers, Is32K(mode));
    }

    method DataAddresses(mode: FftMode, dataCarriers: nat, fcCarriers: nat)
      requires Valid() && Generated(mode)
      modifies data.Repr, fc.Repr
      ensures Valid() && Generated(mode)
      ensures Deinterleaves(data, mode, dataCarriers) && Deinterleaves(fc, mode, fcCarriers)
    {
      hide IsPermutation, Inverted, Filter, EvenAddress, OddAddress, MaxStates, EvenList, OddList;
      GeneratedLists(mode);
      data.Fill(maxStates, maxEven, maxOdd, dataCarriers, Is32K(mode));
      fc.Fill(maxStates, maxEven, maxOdd, fcCarriers, Is32K(mode));
    }

    lemma GeneratedLists(mode: FftMode)
      requires Valid() && Generated(mode)
      ensures maxStates == MaxStates(mode) && maxEven[..maxStates] == EvenList(mode) && maxOdd[..maxStates] == OddList(mode)
    {
      hide EvenAddress, OddAddress, MaxStates, IsPermutation;
    }

    /**
     What the tables of `pair` are for: they undo the standard's permutations of the first
     `carriers` carriers, where 32K interleaves even symbols by the inverse of the odd order.
     */
    ghost predicate Deinterleaves(pair: AddressPair, mode: FftMode, carriers: nat)
      reads pair.hEven, pair.hOdd
    {
      pair.Valid() && Undo(mode, carriers, pair.hEven[..], pair.hOdd[..])
    }
  }

  /** The addresses of a mode's even symbols, and of its odd ones. */
  function EvenList(mode: FftMode): (s: seq<nat>)
    ensures |s| == MaxStates(mode) && forall i :: 0 <= i < |s| ==> s[i] == EvenAddress(mode, i)
  {
    seq(MaxStates(mode), i requires 0 <= i => EvenAddress(mode, i))
  }

  function OddList(mode: FftMode): (s: seq<nat>)
    ensures |s| == MaxStates(mode) && forall i :: 0 <= i < |s| ==> s[i] == OddAddress(mode, i)
  {
    seq(MaxStates(mode), i requires 0 <= i => OddAddress(mode, i))
  }

  /** Those of so many carriers, in order. */
  function EvenOrder(mode: FftMode, carriers: nat): seq<nat> { Filter(EvenList(mode), carriers) }

  function OddOrder(mode: FftMode, carriers: nat): seq<nat> { Filter(OddList(mode), carriers) }

  /** The tables invert the orders of the first `carriers` carriers; in 32K that of even symbols is the odd order itself. */
  ghost predicate Undo(mode: FftMode, carriers: nat, hEven: seq<nat>, hOdd: seq<nat>)
  {
    Inverted(EvenOrder(mode, carriers), OddOrder(mode, carriers), Min(carriers, MaxStates(mode)), Is32K(mode), hEven, hOdd)
  }

  lemma StatesFit(mode: FftMode)
    ensures MaxStates(mode) == Pow2(Register(Degree(mode)).n + 1) <= 32768
  {
    hide Pow2;
    Pow2Monotone(Degree(mode) + 1, 15);
    PowersOfTwo();
  }

  lemma AddressFormulas(mode: FftMode, i: nat)
    ensures var w := Word(Register(Degree(mode)), i);
            && EvenAddress(mode, i) == Wired(WiresEven(mode), w, |WiresEven(mode)|) + i % 2 * (MaxStates(mode) / 2)
            && OddAddress(mode, i) == Wired(WiresOdd(mode), w, |WiresOdd(mode)|) + i % 2 * (MaxStates(mode) / 2)
  {
    hide WiresEven, WiresOdd, Wired, Word, MaxStates, Degree, Register;
  }

  /** Both lists of every mode are permutations of all its states (section 8.5 of EN 302 755). */
  lemma AllAddressesPermute(mode: FftMode, even: seq<nat>, odd: seq<nat>)
    requires |even| == |odd| == MaxStates(mode)
    requires forall i :: 0 <= i < |even| ==> even[i] == EvenAddress(mode, i)
    requires forall i :: 0 <= i < |odd| ==> odd[i] == OddAddress(mode, i)
    ensures IsPermutation(even, MaxStates(mode)) && IsPermutation(odd, MaxStates(mode))
  {
    EvenWiresPermute(mode);
    OddWiresPermute(mode);
    hide WiresEven, WiresOdd, Address, MaxStates, Degree;
    AddressesArePermutation(mode, WiresEven(mode), even);
    AddressesArePermutation(mode, WiresOdd(mode), odd);
  }

  function EvenAddress(mode: FftMode, i: nat): nat
  {
    Address(mode, WiresEven(mode), i)
  }

  function OddAddress(mode: FftMode, i: nat): nat
  {
    Address(mode, WiresOdd(mode), i)
  }
}
