/**
 The address sequences built on a shift register: two leading zeros, then the states of the
 register from 1 on, with the parity of the index as an extra top bit. For a register of
 maximal period the sequence lists every word of n + 1 bits once.
 */
module Toggled {
  import opened Bits
  import opened Lfsr
  import opened Period
  import opened Permutations
  import opened Primes

  /** The register's word at index `i` of the source's loops. */
  function Word(g: Reg, i: nat): (w: nat)
    requires g.Ok()
    ensures w < g.Size()
  {
    if i < 2 then 0 else Run(g, 1, i - 2)
  }

  lemma {:induction false} RunIsNonzero(g: Reg, s: nat, k: nat)
    requires g.Ok() && 0 < s < g.Size()
    ensures Run(g, s, k) != 0
  {
    if Run(g, s, k) == 0 {
      RunOfZero(g, k);
      RunInjective(g, s, 0, k);
    }
  }

  /** Equal words come from indices a whole number of periods apart. */
  lemma EqualRuns(g: Reg, j: nat, k: nat)
    requires g.Ok() && Maximal(g) && j < k < j + 2 * (g.Size() - 1)
    requires Run(g, 1, j) == Run(g, 1, k)
    ensures k - j == g.Size() - 1
  {
    var d, n := k - j, g.Size() - 1;
    RunAdds(g, 1, d, j);
    RunInjective(g, Run(g, 1, d), 1, j);
    assert Returns(g, d);
    if d > n {
      ReturnsAdd(g, n, d - n);
    }
  }

  /** Within 2^(n+1) indices no word comes twice at indices of the same parity. */
  lemma WordsOfOneParityDiffer(g: Reg, i: nat, j: nat)
    requires g.Ok() && Maximal(g) && i < j < 2 * g.Size() && i % 2 == j % 2
    ensures Word(g, i) != Word(g, j)
  {
    hide Run, Maximal, Pow2, Returns;
    RunIsNonzero(g, 1, j - 2);
    EvenSize(g);
    if i >= 2 && Word(g, i) == Word(g, j) {
      EqualRuns(g, i - 2, j - 2);
    }
  }

  lemma EvenSize(g: Reg)
    requires g.Ok()
    ensures g.Size() == 2 * Pow2(g.n - 1) && g.Size() > 1
  {
  }

  /** The address at an even index is its word, at an odd index its word under a set top bit. */
  function Toggle(i: nat, w: nat, size: nat): nat
  {
    if i % 2 == 0 then w else w + size
  }

  /**
   A list of 2^(n+1) addresses is a permutation when it takes its words, through a
   permutation `f` of them, under the toggle bit.
   */
  lemma ToggledPermutation(g: Reg, f: seq<nat>, s: seq<nat>)
    requires g.Ok() && Maximal(g) && |s| == 2 * g.Size() && IsPermutation(f, g.Size())
    requires forall i :: 0 <= i < |s| ==> s[i] == Toggle(i, f[Word(g, i)], g.Size())
    ensures IsPermutation(s, 2 * g.Size())
  {
    hide Word, Pow2, Maximal;
    forall i, j | 0 <= i < j < |s| ensures s[i] != s[j] {
      if i % 2 == j % 2 {
        WordsOfOneParityDiffer(g, i, j);
      }
    }
  }

  lemma NextWord(g: Reg, i: nat)
    requires g.Ok() && g.n > 1
    ensures Word(g, 0) == Word(g, 1) == 0 && Word(g, 2) == 1
    ensures i >= 3 ==> Word(g, i) == Step(g, Word(g, i - 1) % g.Size())
  {
    if i >= 3 {
      var w, size := Word(g, i - 1), g.Size();
      assert Run(g, 1, i - 2) == Step(g, Run(g, 1, i - 3));
      hide *;
      QuotientIsUnique(size, 0, w);
    }
  }

  /** From the fourth on, a word's bits are those of the word before moved down by one, below the exclusive or of its tapped bits. */
  lemma WordBits(g: Reg, i: nat, k: nat)
    requires g.Ok() && g.n > 1 && i >= 3 && k < g.n
    ensures BitAt(Word(g, i), k) == if k + 1 < g.n then BitAt(Word(g, i - 1), k + 1) else Feedback(g.taps, Word(g, i - 1))
  {
    hide BitAt, Feedback, Pow2, Word;
    var w := Word(g, i - 1);
    NextWord(g, i);
    DropToggle(g, w);
    HalfInside(g, w);
    BitBelowTop(w / 2, Feedback(g.taps, w), g.n - 1, k);
    LowBit(w, k + 1);
  }

  /** The source's register update: fold the taps, mask, shift, and feed the result in at the top. */
  method Advance(g: Reg, word: nat) returns (next: nat)
    requires g.Ok()
    ensures next == Step(g, word % g.Size())
  {
    hide Xor, Or, BitAt;
    var result := 0;
    for k := 0 to |g.taps|
      invariant result == Feedback(g.taps[..k], word % g.Size())
    {
      assert g.taps[..k + 1][..k] == g.taps[..k];
      BitOfLowPart(word, g.n, g.taps[k]);
      XorOfBits(result, BitAt(word, g.taps[k]));
      result := Xor(result, BitAt(word, g.taps[k]));
    }
    assert g.taps[..|g.taps|] == g.taps;
    next := word % g.Size();
    next := next / 2;
    OrTop(next, result, g.n - 1);
    next := Or(next, result * Pow2(g.n - 1));
  }

  /** The register word at loop index `i`, from the one before it with or without its toggle bit. */
  method Generate(g: Reg, i: nat, lfsr: nat) returns (word: nat)
    requires g.Ok() && g.n > 1
    requires i > 0 ==> lfsr == Word(g, i - 1) || lfsr == Word(g, i - 1) + g.Size()
    ensures word == Word(g, i)
  {
    hide Word, Step, Pow2;
    NextWord(g, i);
    if i == 0 || i == 1 {
      word := 0;
    } else if i == 2 {
      word := 1;
    } else {
      DropToggle(g, Word(g, i - 1));
      word := Advance(g, lfsr);
    }
  }

  lemma DropToggle(g: Reg, w: nat)
    requires w < g.Size()
    ensures w % g.Size() == (w + g.Size()) % g.Size() == w
  {
    hide Pow2;
    QuotientIsUnique(g.Size(), 0, w);
    QuotientIsUnique(g.Size(), 1, w);
  }

  lemma XorOfBits(a: nat, b: nat)
    requires a < 2 && b < 2
    ensures Xor(a, b) == (a + b) % 2
  {
  }

  lemma {:induction false} BitOfLowPart(x: nat, n: nat, k: nat)
    requires k < n
    ensures BitAt(x, k) == BitAt(x % Pow2(n), k)
    decreases k
  {
    ModHalf(x, n);
    if k > 0 {
      BitOfLowPart(x / 2, n - 1, k - 1);
    }
  }

  lemma ModHalf(x: nat, n: nat)
    requires n > 0
    ensures (x % Pow2(n)) % 2 == x % 2
    ensures (x % Pow2(n)) / 2 == (x / 2) % Pow2(n - 1)
  {
    var h := Pow2(n - 1);
    var q, r := (x / 2) / h, (x / 2) % h;
    QuotientIsUnique(2 * h, q, 2 * r + x % 2);
    assert x == 2 * (h * q + r) + x % 2 == (2 * h) * q + (2 * r + x % 2);
  }
}
