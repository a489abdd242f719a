/** The BCH stage, which drops the parity bits undecoded, and energy descrambling (section 5.2.4 of EN 302 755). */
module BchDecoder {
  import opened Bits
  import opened Batches
  import opened LlrDemapper
  import opened LdpcDecoder
  import Lfsr

  /** The scrambling sequence of 1 + X^14 + X^15; before it starts, what the register is loaded with. */
  function Prbs(i: int): (b: nat)
    requires i >= -15
    ensures b < 2
  {
    if i < 0 then Loaded(-1 - i) else (Prbs(i - 14) + Prbs(i - 15)) % 2
  }

  /** The scrambling register is loaded with 100101010000000, newest bit first. */
  function Loaded(k: nat): (b: nat)
    requires k < 15
    ensures b < 2
  {
    if k == 0 || k == 3 || k == 5 || k == 7 then 1 else 0
  }

  /** The sequence starts with the bits 00000011 11110110. */
  lemma PrbsStarts()
    ensures Prbs(0) == Prbs(1) == Prbs(2) == Prbs(3) == Prbs(4) == Prbs(5) == 0 && Prbs(6) == Prbs(7) == 1
    ensures Prbs(8) == Prbs(9) == Prbs(10) == Prbs(11) == 1 && Prbs(12) == 0 && Prbs(13) == Prbs(14) == 1 && Prbs(15) == 0
  {
  }

  /** The scrambler and its own inverse. */
  function Scrambled(bits: seq<Bit>): (r: seq<Bit>)
    ensures |r| == |bits|
  {
    seq(|bits|, i requires 0 <= i < |bits| => (bits[i] + Prbs(i)) % 2)
  }

  lemma ScrambledTwice(bits: seq<Bit>)
    ensures Scrambled(Scrambled(bits)) == bits
  {
    var s := Scrambled(bits);
    forall i | 0 <= i < |bits| ensures Scrambled(s)[i] == bits[i] {
      assert s[i] == (bits[i] + Prbs(i)) % 2;
    }
  }

  /** Information bits of the BCH code of each LDPC code. */
  function BchBits(size: FecSize, rate: CodeRate): nat
  {
    match (size, rate)
    case (Normal, C1_2) => 32208
    case (Normal, C3_5) => 38688
    case (Normal, C2_3) => 43040
    case (Normal, C3_4) => 48408
    case (Normal, C4_5) => 51648
    case (Normal, C5_6) => 53840
    case (Short, C1_2) => 7032
    case (Short, C3_5) => 9552
    case (Short, C2_3) => 10632
    case (Short, C3_4) => 11712
    case (Short, C4_5) => 12432
    case (Short, C5_6) => 13152
  }

  const DESCRAMBLER := 54000
  const OUT_SIZE := 53840

  lemma BchFits(size: FecSize, rate: CodeRate)
    ensures BchBits(size, rate) <= OUT_SIZE && BchBits(size, rate) <= CodeOf(size, rate).k <= DESCRAMBLER
  {
  }

  /** The register before output `i`: its bits, lowest first, are the sequence from `i` - 15 on. */
  ghost predicate Register(sr: nat, i: nat)
  {
    sr < Pow2(15) && forall k: nat :: k < 15 ==> BitAt(sr, k) == Prbs(i - 15 + k)
  }

  lemma RegisterLoaded()
    ensures Register(0x4A80, 0)
  {
    PowersOfTwo();
    forall k: nat | k < 15 ensures BitAt(0x4A80, k) == Prbs(k - 15) {
      LoadedBit(k);
    }
  }

  lemma LoadedBit(k: nat)
    requires k < 15
    ensures BitAt(0x4A80, k) == Loaded(14 - k)
  {
    PowersOfTwo();
    assert Pow2(7) == 128 by { assert Pow2(9) == 2 * Pow2(8) && Pow2(8) == 2 * Pow2(7); }
    ShiftedBits(149, 7, k);
    if k >= 7 {
      BitOf149(k - 7);
    }
  }

  lemma {:induction false} ShiftedBits(y: nat, m: nat, k: nat)
    ensures BitAt(y * Pow2(m), k) == if k < m then 0 else BitAt(y, k - m)
    decreases m
  {
    if m > 0 {
      assert y * Pow2(m) == 2 * (y * Pow2(m - 1));
      if k > 0 {
        ShiftedBits(y, m - 1, k - 1);
      }
    }
  }

  lemma BitOf149(k: nat)
    requires k < 8
    ensures BitAt(149, k) == if k == 0 || k == 2 || k == 4 || k == 7 then 1 else 0
  {
    if k >= 4 {
      assert BitAt(149, k) == BitAt(74, k - 1) == BitAt(37, k - 2) == BitAt(18, k - 3) == BitAt(9, k - 4);
      NineBits(k - 4);
    } else if k == 3 {
      assert BitAt(149, 3) == BitAt(74, 2) == BitAt(37, 1) == BitAt(18, 0);
    } else if k == 2 {
      assert BitAt(149, 2) == BitAt(74, 1) == BitAt(37, 0);
    }
  }

  lemma NineBits(k: nat)
    requires k < 4
    ensures BitAt(9, k) == if k == 0 || k == 3 then 1 else 0
  {
  }

  lemma LowBitsFeedBack(sr: nat)
    ensures Xor(sr, sr / 2) % 2 == (BitAt(sr, 0) + BitAt(sr, 1)) % 2
  {
    hide Xor, BitAt;
    XorHalf(sr, sr / 2);
    Lfsr.LowBit(sr, 1);
    Lfsr.LowBit(sr / 2, 0);
  }

  lemma NextPrbs(i: nat)
    ensures Prbs(i) == (Prbs(i - 15) + Prbs(i - 14)) % 2
  {
  }

  lemma HalfOfRegister(sr: nat)
    requires sr < Pow2(15)
    ensures sr / 2 < Pow2(14) && Pow2(15) == Pow2(14) + Pow2(14)
    ensures forall k: nat :: BitAt(sr / 2, k) == BitAt(sr, k + 1)
  {
  }

  lemma RegisterSteps(sr: nat, i: nat, b: nat)
    requires Register(sr, i) && b == Xor(sr, sr / 2) % 2
    ensures b == Prbs(i) && Or(sr / 2, b * Pow2(14)) == sr / 2 + b * Pow2(14)
    ensures Register(sr / 2 + b * Pow2(14), i + 1)
  {
    hide Prbs, BitAt, Xor, Or, Pow2;
    LowBitsFeedBack(sr);
    NextPrbs(i);
    assert BitAt(sr, 0) == Prbs(i - 15) && BitAt(sr, 1) == Prbs(i - 14);
    HalfOfRegister(sr);
    OrTop(sr / 2, b, 14);
    hide Register;
    NextRegister(sr, i, b, Pow2(14));
  }

  lemma NextRegister(sr: nat, i: nat, b: nat, top: nat)
    requires Register(sr, i) && b == Prbs(i) && top == Pow2(14)
    ensures Register(sr / 2 + b * top, i + 1)
  {
    hide *;
    var next := sr / 2 + b * top;
    RegisterHalf(sr, i);
    TopBit(sr / 2, b, top);
    forall k: nat | k < 15 ensures BitAt(next, k) == Prbs(i + 1 - 15 + k) {
      BitOfNext(sr, i, b, k, top);
    }
    RegisterFrom(next, i + 1);
  }

  lemma RegisterFrom(sr: nat, i: nat)
    requires sr < Pow2(15) && forall k: nat :: k < 15 ==> BitAt(sr, k) == Prbs(i - 15 + k)
    ensures Register(sr, i)
  {
    hide BitAt, Prbs, Pow2;
  }

  lemma RegisterHalf(sr: nat, i: nat)
    requires Register(sr, i)
    ensures sr / 2 < Pow2(14)
  {
    hide BitAt, Prbs, Pow2;
    HalfOfRegister(sr);
  }

  lemma BitOfNext(sr: nat, i: nat, b: nat, k: nat, top: nat)
    requires Register(sr, i) && b == Prbs(i) && k < 15 && top == Pow2(14)
    ensures BitAt(sr / 2 + b * top, k) == Prbs(i + 1 - 15 + k)
  {
    hide Prbs, BitAt, Pow2;
    RegisterHalf(sr, i);
    Lfsr.BitBelowTop(sr / 2, b, 14, k);
    if k < 14 {
      HalfOfRegister(sr);
      assert BitAt(sr, k + 1) == Prbs(i - 15 + (k + 1));
    }
  }

  lemma TopBit(x: nat, b: nat, top: nat)
    requires x < top && top == Pow2(14) && b < 2
    ensures x + b * top < Pow2(15)
  {
    hide Pow2;
    HalfOfRegister(0);
    assert b == 0 || b == 1;
  }

  class Decoder {
    const descrambler: array<Bit>
    const bufferA: array<Bit>
    const bufferB: array<Bit>

    var swapBuffer: bool
    var out: array<Bit>
    var sent: seq<seq<Bit>>   // the baseband frames emitted so far

    ghost predicate Valid()
      reads this, descrambler
    {
      && bufferA != bufferB && bufferA != descrambler && bufferB != descrambler
      && bufferA.Length == bufferB.Length == OUT_SIZE && descrambler.Length == FEC_SIZE_NORMAL
      && out == (if swapBuffer then bufferA else bufferB)
      && forall i :: 0 <= i < DESCRAMBLER ==> descrambler[i] == Prbs(i)
    }

    constructor ()
      ensures Valid() && sent == [] && fresh(descrambler) && fresh(bufferA) && fresh(bufferB)
    {
      var d := InitDescrambler();
      var a := new Bit[OUT_SIZE](_ => 0);
      var b := new Bit[OUT_SIZE](_ => 0);
      descrambler, bufferA, bufferB, out := d, a, b, a;
      swapBuffer, sent := true, [];
    }

    /** Tabulates the scrambling sequence with a shift register. */
    static method InitDescrambler() returns (d: array<Bit>)
      ensures fresh(d) && d.Length == FEC_SIZE_NORMAL && forall i :: 0 <= i < DESCRAMBLER ==> d[i] == Prbs(i)
    {
      hide Register, Prbs, Xor, Or, Pow2;
      d := new Bit[FEC_SIZE_NORMAL](_ => 0);
      var sr: nat := 0x4A80;
      RegisterLoaded();
      for i := 0 to DESCRAMBLER
        invariant Register(sr, i) && forall j :: 0 <= j < i ==> d[j] == Prbs(j)
      {
        var b := Xor(sr, sr / 2) % 2;
        RegisterSteps(sr, i, b);
        d[i] := b;
        sr := sr / 2;
        if b == 1 {
          sr := Or(sr, Pow2(14));
        }
      }
    }

    method Descramble(bits: seq<Bit>)
      requires Valid() && |bits| <= OUT_SIZE
      modifies out
      ensures Valid() && out[..|bits|] == Scrambled(bits)
    {
      hide Prbs;
      for i := 0 to |bits|
        invariant Valid() && out[..i] == Scrambled(bits)[..i]
      {
        DescramblesAt(bits, i);
        out[i] := (bits[i] as int + descrambler[i]) % 2;
      }
      assert Scrambled(bits)[..|bits|] == Scrambled(bits);
    }

    static lemma DescramblesAt(bits: seq<Bit>, i: nat)
      requires i < |bits|
      ensures Scrambled(bits)[..i + 1] == Scrambled(bits)[..i] + [(bits[i] + Prbs(i)) % 2]
    {
    }

    /** One batch: the first `k` bits of each block of `n` are descrambled and sent on, a frame at a time. */
    method Execute(k: nat, n: nat, batch: seq<Bit>)
      requires Valid() && k <= n && k <= OUT_SIZE && n > 0 && |batch| == LANES * n
      modifies this, bufferA, bufferB
      ensures Valid()
      ensures |sent| == |old(sent)| + LANES && old(sent) <= sent
      ensures forall j :: 0 <= j < LANES ==> sent[|old(sent)| + j] == Scrambled(BlockOf(batch, n, j)[..k])
    {
      for j := 0 to LANES
        invariant Valid() && |sent| == |old(sent)| + j && old(sent) <= sent
        invariant forall x :: 0 <= x < j ==> sent[|old(sent)| + x] == Scrambled(BlockOf(batch, n, x)[..k])
      {
        RoomForBlock(j, n, |batch|);
        Descramble(batch[j * n..j * n + k]);
        assert batch[j * n..j * n + k] == BlockOf(batch, n, j)[..k];
        if swapBuffer {
          swapBuffer := false;
          sent := sent + [bufferA[..k]];
          out := bufferB;
        } else {
          swapBuffer := true;
          sent := sent + [bufferB[..k]];
          out := bufferA;
        }
      }
    }
  }
}
