/**
 The two forms of the receiver's CRC-8 (annex F of EN 302 755) and the use of the
 low-bit-first form to tell the mode of a baseband frame (section 5.1.7).
 */
module Crc8 {

  const POLY: bv8 := 0xAB       // for the register that shifts right
  const POLY_REV: bv8 := 0xD5   // the same polynomial for the register that shifts left

  /** One bit into the register that shifts right. */
  function StepRight(crc: bv8, b: bool): bv8
  {
    if b != (crc & 1 == 1) then (crc >> 1) ^ POLY else crc >> 1
  }

  /** One bit into the register that shifts left, the form of the standard. */
  function StepLeft(crc: bv8, b: bool): bv8
  {
    if b != (crc & 0x80 != 0) then (crc << 1) ^ POLY_REV else crc << 1
  }

  function Right(bits: seq<bool>): bv8
  {
    if bits == [] then 0 else StepRight(Right(bits[..|bits| - 1]), bits[|bits| - 1])
  }

  /** The CRC of a string of bits. */
  function Left(crc: bv8, bits: seq<bool>): bv8
  {
    if bits == [] then crc else StepLeft(Left(crc, bits[..|bits| - 1]), bits[|bits| - 1])
  }

  /** The bits of a byte in the opposite order. */
  function Reverse(c: bv8): bv8
  {
    ((c & 0x01) << 7) | ((c & 0x02) << 5) | ((c & 0x04) << 3) | ((c & 0x08) << 1)
    | ((c & 0x10) >> 1) | ((c & 0x20) >> 3) | ((c & 0x40) >> 5) | ((c & 0x80) >> 7)
  }

  lemma StepsMirror(crc: bv8, b: bool)
    ensures StepRight(Reverse(crc), b) == Reverse(StepLeft(crc, b))
  {
  }

  /** The register that shifts right is always the mirror image of the standard's CRC. */
  lemma {:induction false} RightMirrorsLeft(bits: seq<bool>)
    ensures Right(bits) == Reverse(Left(0, bits))
  {
    if bits != [] {
      RightMirrorsLeft(bits[..|bits| - 1]);
      StepsMirror(Left(0, bits[..|bits| - 1]), bits[|bits| - 1]);
    }
  }

  // ---- The table form ----

  /** The bits of a byte, highest first. */
  function BitsOf(t: bv8): (s: seq<bool>)
    ensures |s| == 8
  {
    [t & 0x80 != 0, t & 0x40 != 0, t & 0x20 != 0, t & 0x10 != 0, t & 0x08 != 0, t & 0x04 != 0, t & 0x02 != 0, t & 0x01 != 0]
  }

  /** The register after the first `k` bits of byte `t`. */
  function After(crc: bv8, t: bv8, k: nat): bv8
    requires k <= 8
  {
    if k == 0 then crc else StepLeft(After(crc, t, k - 1), BitsOf(t)[k - 1])
  }

  function TableEntry(i: bv8): bv8 { After(0, i, 8) }

  lemma {:induction false} AfterIsLeft(crc: bv8, t: bv8, k: nat)
    requires k <= 8
    ensures Left(crc, BitsOf(t)[..k]) == After(crc, t, k)
  {
    if k > 0 {
      AfterIsLeft(crc, t, k - 1);
      assert BitsOf(t)[..k][..k - 1] == BitsOf(t)[..k - 1];
    }
  }

  /** One step of the register on a zero bit. */
  function Shift(c: bv8): bv8
  {
    if c & 0x80 != 0 then (c << 1) ^ POLY_REV else c << 1
  }

  function Shifts(c: bv8, k: nat): bv8
  {
    if k == 0 then c else Shift(Shifts(c, k - 1))
  }

  function Up(t: bv8, k: nat): bv8
  {
    if k == 0 then t else Up(t, k - 1) << 1
  }

  lemma UpShifts(t: bv8)
    ensures Up(t, 0) == t && Up(t, 1) == t << 1 && Up(t, 2) == t << 2 && Up(t, 3) == t << 3
    ensures Up(t, 4) == t << 4 && Up(t, 5) == t << 5 && Up(t, 6) == t << 6 && Up(t, 7) == t << 7
    ensures Up(t, 8) == 0
  {
    assert Up(t, 1) == t << 1;
    assert Up(t, 2) == t << 2;
    assert Up(t, 3) == t << 3;
    assert Up(t, 4) == t << 4;
    assert Up(t, 5) == t << 5;
    assert Up(t, 6) == t << 6;
    assert Up(t, 7) == t << 7;
  }

  lemma UpBit(t: bv8, k: nat)
    requires k < 8
    ensures BitsOf(t)[k] <==> Up(t, k) & 0x80 != 0
  {
    hide Up;
    UpShifts(t);
  }

  /** Bitwise difference, kept apart from the words' other operations. */
  function Diff(x: bv8, y: bv8): bv8 { x ^ y }

  function Higher(u: bv8): bv8 { u << 1 }

  predicate Top(u: bv8) { u & 0x80 != 0 }

  /** A bit fed in at the top is the same bit already in the register. */
  lemma BitAbsorbed(r: bv8, u: bv8)
    ensures StepLeft(r, u & 0x80 != 0) ^ (u << 1) == Shift(r ^ u)
  {
  }

  lemma StepAbsorbs(r: bv8, u: bv8)
    ensures Diff(StepLeft(r, Top(u)), Higher(u)) == Shift(Diff(r, u))
  {
    hide StepLeft, Shift;
    BitAbsorbed(r, u);
  }

  lemma DiffFacts(x: bv8, y: bv8)
    ensures Diff(x, y) == Diff(y, x) && Diff(x, 0) == x
  {
  }

  lemma {:induction false} AfterAbsorbs(c: bv8, t: bv8, k: nat)
    requires k <= 8
    ensures Diff(After(c, t, k), Up(t, k)) == Shifts(Diff(t, c), k)
  {
    hide StepLeft, Shift, BitsOf, Diff, Top, Higher;
    if k == 0 {
      DiffFacts(c, t);
    } else {
      AfterAbsorbs(c, t, k - 1);
      UpStep(t, k - 1);
      StepAbsorbs(After(c, t, k - 1), Up(t, k - 1));
    }
  }

  lemma UpStep(t: bv8, k: nat)
    requires k < 8
    ensures Up(t, k + 1) == Higher(Up(t, k)) && (BitsOf(t)[k] <==> Top(Up(t, k)))
  {
    hide BitsOf;
    UpBit(t, k);
  }

  /** GF(2) linearity: a byte and the register it meets count only through their difference. */
  lemma ByteStep(c: bv8, t: bv8)
    ensures Left(c, BitsOf(t)) == TableEntry(Diff(t, c)) == Shifts(Diff(t, c), 8)
  {
    AfterIsLeft(c, t, 8);
    assert BitsOf(t)[..8] == BitsOf(t);
    hide StepLeft, Shift, After, Up, Shifts, BitsOf, Left, Diff;
    var x := Diff(t, c);
    AfterAbsorbs(c, t, 8);
    AfterAbsorbs(0, x, 8);
    UpShifts(t);
    UpShifts(x);
    DiffFacts(After(c, t, 8), 0);
    DiffFacts(After(0, x, 8), 0);
    DiffFacts(x, 0);
  }

  // ---- Whole strings of bytes ----

  function BitString(bytes: seq<bv8>): seq<bool>
  {
    if bytes == [] then [] else BitString(bytes[..|bytes| - 1]) + BitsOf(bytes[|bytes| - 1])
  }

  /** The CRC by table lookup, a byte at a time. */
  function Fold(bytes: seq<bv8>): bv8
  {
    if bytes == [] then 0 else TableEntry(Diff(bytes[|bytes| - 1], Fold(bytes[..|bytes| - 1])))
  }

  lemma {:induction false} LeftAppend(crc: bv8, a: seq<bool>, b: seq<bool>)
    ensures Left(crc, a + b) == Left(Left(crc, a), b)
    decreases |b|
  {
    if b == [] {
      assert a + b == a;
    } else {
      assert (a + b)[..|a + b| - 1] == a + b[..|b| - 1];
      LeftAppend(crc, a, b[..|b| - 1]);
    }
  }

  /** The table form computes the standard's CRC. */
  lemma {:induction false} FoldIsCrc(bytes: seq<bv8>)
    ensures Fold(bytes) == Left(0, BitString(bytes))
  {
    if bytes != [] {
      var last := |bytes| - 1;
      hide TableEntry, BitsOf, Diff;
      FoldIsCrc(bytes[..last]);
      LeftAppend(0, BitString(bytes[..last]), BitsOf(bytes[last]));
      ByteStep(Fold(bytes[..last]), bytes[last]);
    }
  }

  lemma FoldPlus(bytes: seq<bv8>, x: bv8)
    ensures Fold(bytes + [x]) == TableEntry(Diff(x, Fold(bytes)))
  {
    hide TableEntry, Diff;
    assert (bytes + [x])[..|bytes|] == bytes;
  }

  lemma ShiftsEight(x: bv8)
    ensures Shifts(x, 8) == Shift(Shift(Shift(Shift(Shift(Shift(Shift(Shift(x))))))))
  {
    hide Shift;
    assert Shifts(x, 1) == Shift(x);
    assert Shifts(x, 2) == Shift(Shifts(x, 1));
    assert Shifts(x, 3) == Shift(Shifts(x, 2));
    assert Shifts(x, 4) == Shift(Shifts(x, 3));
    assert Shifts(x, 5) == Shift(Shifts(x, 4));
    assert Shifts(x, 6) == Shift(Shifts(x, 5));
    assert Shifts(x, 7) == Shift(Shifts(x, 6));
  }

  /** What the mirrored register holds tells exactly whether the last byte agreed with the CRC, or with the CRC but for its last bit. */
  lemma Residue(x: bv8)
    ensures Reverse(Shift(Shift(Shift(Shift(Shift(Shift(Shift(Shift(x))))))))) == 0 <==> x == 0
    ensures Reverse(Shift(Shift(Shift(Shift(Shift(Shift(Shift(Shift(x))))))))) == POLY <==> x == 1
  {
  }

  /**
   Mode detection: over header bytes `header` and a last byte `mode`, the check gives 0 exactly
   when that byte is the CRC of the header, and the polynomial exactly when it is the CRC with its last bit flipped.
   */
  lemma ModeDetection(header: seq<bv8>, mode: bv8)
    ensures Right(BitString(header + [mode])) == 0 <==> mode == Fold(header)
    ensures Right(BitString(header + [mode])) == POLY <==> mode == Diff(Fold(header), 1)
  {
    var bytes := header + [mode];
    RightMirrorsLeft(BitString(bytes));
    FoldIsCrc(bytes);
    FoldPlus(header, mode);
    var x := Diff(mode, Fold(header));
    hide Right, Left, Fold, TableEntry, Shift, Reverse, BitString;
    ByteStep(0, x);
    ByteStep(Fold(header), mode);
    ShiftsEight(x);
    Residue(x);
    SameOrFlipped(mode, Fold(header));
  }

  lemma FlippedDiffers(f: bv8)
    ensures Diff(f, 1) != f && POLY != 0
  {
  }

  lemma SameOrFlipped(m: bv8, f: bv8)
    ensures Diff(m, f) == 0 <==> m == f
    ensures Diff(m, f) == 1 <==> m == Diff(f, 1)
  {
  }

  // ---- The source's loops ----

  /** Runs the register that shifts right over the bits of a header. */
  method CheckMode(bits: seq<bool>) returns (crc: bv8)
    ensures crc == Right(bits)
  {
    crc := 0;
    for i := 0 to |bits|
      invariant crc == Right(bits[..i])
    {
      assert bits[..i + 1][..i] == bits[..i];
      var b := (if bits[i] then 1 else 0) ^ (crc & 0x01);
      ghost var before := crc;
      crc := crc >> 1;
      if b != 0 { crc := crc ^ POLY; }
    }
    assert bits[..|bits|] == bits;
  }

  /** The byte with number `i`. */
  function Byte(i: nat): bv8
    requires i < 256
  {
    if i == 0 then 0 else Byte(i - 1) + 1
  }

  /** Builds the table; the source's `int` register keeps bits above the byte, which the final cast drops. */
  method InitTable(table: array<bv8>)
    requires table.Length == 256
    modifies table
    ensures forall i :: 0 <= i < 256 ==> table[i] == TableEntry(Byte(i))
  {
    var r: bv8 := 0;
    for i := 0 to 256
      invariant i < 256 ==> r == Byte(i)
      invariant forall j :: 0 <= j < i ==> table[j] == TableEntry(Byte(j))
    {
      table[i] := Entry(r);
      r := r + 1;
    }
  }

  /** One table entry: the bits of `r`, highest first, into a register wider than the byte. */
  method Entry(r: bv8) returns (entry: bv8)
    ensures entry == TableEntry(r)
  {
    hide StepLeft, BitsOf;
    var crc: bv32 := 0;
    var bit: bv8 := 0x80;
    for k := 0 to 8
      invariant Low(crc) == After(0, r, k)
      invariant bit == Mask(k)
    {
      MaskedBit(r, k);
      WideStep(crc, r & bit != 0);
      if (r & bit != 0) != (crc & 0x80 != 0) {
        crc := (crc << 1) ^ 0xD5;
      } else {
        crc := crc << 1;
      }
      bit := bit >> 1;
    }
    entry := Low(crc);
  }

  function Low(crc: bv32): bv8 { (crc & 0xFF) as bv8 }

  function Mask(k: nat): bv8
  {
    if k == 0 then 0x80 else Mask(k - 1) >> 1
  }

  lemma MaskedBit(r: bv8, k: nat)
    requires k < 8
    ensures BitsOf(r)[k] <==> r & Mask(k) != 0
  {
    hide Mask;
    Masks();
  }

  lemma Masks()
    ensures Mask(0) == 0x80 && Mask(1) == 0x40 && Mask(2) == 0x20 && Mask(3) == 0x10
    ensures Mask(4) == 0x08 && Mask(5) == 0x04 && Mask(6) == 0x02 && Mask(7) == 0x01
  {
    assert Mask(1) == 0x40;
    assert Mask(2) == 0x20;
    assert Mask(3) == 0x10;
    assert Mask(4) == 0x08;
    assert Mask(5) == 0x04;
    assert Mask(6) == 0x02;
    assert Mask(7) == 0x01;
  }

  /** Only the low byte of the wide register matters. */
  lemma WideStep(crc: bv32, b: bool)
    ensures Low(if b != (crc & 0x80 != 0) then (crc << 1) ^ 0xD5 else crc << 1) == StepLeft(Low(crc), b)
  {
  }
}
