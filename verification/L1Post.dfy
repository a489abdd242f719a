/**
 L1-post signalling (section 7.2.3 of EN 302 755): its check, and its parsers, which find the parts of
 variable length at offsets computed from the numbers of RF channels, PLPs and auxiliary streams.
 */
module L1Post {
  import opened Bits
  import opened BitFields
  import opened L1Signalling
  import Crc32

  // Widths of the fields of each part.
  const HEADER: seq<nat> := [15, 8, 4, 8]      // SUB_SLICES_PER_FRAME, NUM_PLP, NUM_AUX, AUX_CONFIG_RFU
  const RF: seq<nat> := [3, 32]                // RF_IDX, FREQUENCY
  const FEF: seq<nat> := [4, 22, 8]            // FEF_TYPE, FEF_LENGTH, FEF_INTERVAL
  const PLP: seq<nat> := [8, 3, 5, 1, 3] + [8, 8, 3, 3, 1] + [2, 10, 8, 8, 1] + [1, 1, 11, 2, 1] + [1]
  const TAIL: seq<nat> := [2, 30]              // FEF_LENGTH_MSB, RESERVED_2
  const AUX: seq<nat> := [4, 28]               // AUX_STREAM_TYPE, AUX_PRIVATE_CONFIG
  const DYN: seq<nat> := [8, 22, 22, 8, 3] + [8]
  const DYN_PLP: seq<nat> := [8, 22, 10, 8]    // PLP_ID, PLP_START, PLP_NUM_BLOCKS, RESERVED_2
  const RESERVED_3: nat := 8

  // Widths the parsers read instead: one bit too many of FEF_TYPE, and two bits of RESERVED_2.
  const FEF_READ: seq<nat> := [5, 22, 8]
  const TAIL_READ: seq<nat> := [2, 2]
  const TAIL_LATE: nat := 10                   // how far behind FEF_LENGTH_MSB they read it

  lemma {:induction false} TotalAppend(a: seq<nat>, b: seq<nat>)
    ensures Total(a + b) == Total(a) + Total(b)
    decreases |b|
  {
    if b == [] {
      assert a + b == a;
    } else {
      TotalAppend(a, b[..|b| - 1]);
      assert (a + b)[..|a + b| - 1] == a + b[..|b| - 1];
    }
  }

  lemma TotalOne(a: nat)
    ensures Total([a]) == a
  {
    assert [a][..0] == [];
  }

  lemma TotalTwo(a: nat, b: nat)
    ensures Total([a, b]) == a + b
  {
    TotalOne(a);
    TotalOne(b);
    TotalAppend([a], [b]);
    assert [a] + [b] == [a, b];
  }

  lemma TotalFour(a: nat, b: nat, c: nat, d: nat)
    ensures Total([a, b, c, d]) == a + b + c + d
  {
    TotalTwo(a, b);
    TotalTwo(c, d);
    TotalAppend([a, b], [c, d]);
    assert [a, b] + [c, d] == [a, b, c, d];
  }

  lemma TotalFive(a: nat, b: nat, c: nat, d: nat, e: nat)
    ensures Total([a, b, c, d, e]) == a + b + c + d + e
  {
    TotalFour(a, b, c, d);
    TotalOne(e);
    TotalAppend([a, b, c, d], [e]);
    assert [a, b, c, d] + [e] == [a, b, c, d, e];
  }

  lemma TotalThree(a: nat, b: nat, c: nat)
    ensures Total([a, b, c]) == a + b + c
  {
    TotalTwo(a, b);
    TotalOne(c);
    TotalAppend([a, b], [c]);
    assert [a, b] + [c] == [a, b, c];
  }

  /** The parts' lengths, which the source's offsets are made of. */
  lemma Lengths()
    ensures Total(HEADER) == 35 && Total(RF) == 35 && Total(FEF) == 34 && Total(TAIL) == 32 && Total(AUX) == 32
    ensures Total(PLP) == 89 && Total(DYN) == 71 && Total(DYN_PLP) == 48
    ensures Total(FEF_READ) == 35 && Total(TAIL_READ) == 4
  {
    hide Total;
    TotalFour(15, 8, 4, 8);
    TotalTwo(3, 32);
    TotalThree(4, 22, 8);
    TotalThree(5, 22, 8);
    TotalTwo(2, 30);
    TotalTwo(2, 2);
    TotalTwo(4, 28);
    TotalFour(8, 22, 10, 8);
    TotalFive(8, 22, 22, 8, 3);
    TotalOne(8);
    TotalAppend([8, 22, 22, 8, 3], [8]);
    PlpLength();
  }

  lemma PlpLength()
    ensures Total(PLP) == 89
  {
    hide Total;
    var a, b, c, d: seq<nat> := [8, 3, 5, 1, 3], [8, 8, 3, 3, 1], [2, 10, 8, 8, 1], [1, 1, 11, 2, 1];
    TotalFive(8, 3, 5, 1, 3);
    TotalFive(8, 8, 3, 3, 1);
    TotalFive(2, 10, 8, 8, 1);
    TotalFive(1, 1, 11, 2, 1);
    TotalOne(1);
    TotalAppend(a, b);
    TotalAppend(a + b, c);
    TotalAppend(a + b + c, d);
    TotalAppend(a + b + c + d, [1]);
  }

  // ---- Where each field lies in its part ----

  const PLP_STARTS: seq<nat> := [0, 8, 11, 16, 17, 20, 28, 36, 39, 42, 43, 45, 55, 63, 71, 72, 73, 74, 85, 87, 88]

  lemma PlpFieldsAt(bits: seq<Bit>, i: nat)
    requires i + 89 <= |bits|
    ensures Total(PLP) == 89 && |PLP_STARTS| == |PLP| == 21
    ensures forall k :: 0 <= k < 21 ==> i + PLP_STARTS[k] + PLP[k] <= |bits| && Fields(bits, i, PLP)[k] == Number(bits, i + PLP_STARTS[k], PLP[k])
  {
    hide Total, Number, Fields;
    Lengths();
    FieldsAreAt(bits, i, PLP, PLP_STARTS);
  }

  lemma PlpPlaces(bits: seq<Bit>, i: nat)
    requires i + 89 <= |bits|
    ensures Total(PLP) == 89
    ensures var r := Fields(bits, i, PLP);
            && r[0] == Number(bits, i, 8) && r[1] == Number(bits, i + 8, 3) && r[2] == Number(bits, i + 11, 5)
            && r[3] == Number(bits, i + 16, 1) && r[4] == Number(bits, i + 17, 3) && r[5] == Number(bits, i + 20, 8)
            && r[6] == Number(bits, i + 28, 8) && r[7] == Number(bits, i + 36, 3) && r[8] == Number(bits, i + 39, 3)
            && r[9] == Number(bits, i + 42, 1) && r[10] == Number(bits, i + 43, 2) && r[11] == Number(bits, i + 45, 10)
            && r[12] == Number(bits, i + 55, 8) && r[13] == Number(bits, i + 63, 8) && r[14] == Number(bits, i + 71, 1)
            && r[15] == Number(bits, i + 72, 1) && r[16] == Number(bits, i + 73, 1) && r[17] == Number(bits, i + 74, 11)
            && r[18] == Number(bits, i + 85, 2) && r[19] == Number(bits, i + 87, 1) && r[20] == Number(bits, i + 88, 1)
  {
    hide Total, Number, Fields;
    PlpFieldsAt(bits, i);
  }

  lemma DynPlaces(bits: seq<Bit>, i: nat)
    requires i + 71 <= |bits|
    ensures Total(DYN) == 71
    ensures Fields(bits, i, DYN)
            == [Number(bits, i, 8), Number(bits, i + 8, 22), Number(bits, i + 30, 22), Number(bits, i + 52, 8),
                Number(bits, i + 60, 3), Number(bits, i + 63, 8)]
  {
    hide Total, Number, Fields;
    Lengths();
    FieldsAreAt(bits, i, DYN, [0, 8, 30, 52, 60, 63]);
  }

  /** PLP_START in bits 8 to 30 of a dynamic PLP record and PLP_NUM_BLOCKS in bits 30 to 40. */
  lemma DynPlpPlaces(bits: seq<Bit>, i: nat)
    requires i + 48 <= |bits|
    ensures Total(DYN_PLP) == 48
    ensures Fields(bits, i, DYN_PLP)
            == [Number(bits, i, 8), Number(bits, i + 8, 22), Number(bits, i + 30, 10), Number(bits, i + 40, 8)]
  {
    hide Total, Number, Fields;
    Lengths();
    FieldsAreAt(bits, i, DYN_PLP, [0, 8, 30, 40]);
  }

  lemma ShortPlaces(bits: seq<Bit>, i: nat)
    requires i + 35 <= |bits|
    ensures Total(HEADER) == 35 && Fields(bits, i, HEADER) == [Number(bits, i, 15), Number(bits, i + 15, 8), Number(bits, i + 23, 4), Number(bits, i + 27, 8)]
    ensures Total(RF) == 35 && Fields(bits, i, RF) == [Number(bits, i, 3), Number(bits, i + 3, 32)]
    ensures Total(AUX) == 32 && Fields(bits, i, AUX) == [Number(bits, i, 4), Number(bits, i + 4, 28)]
    ensures Total(FEF) == 34 && Fields(bits, i, FEF) == [Number(bits, i, 4), Number(bits, i + 4, 22), Number(bits, i + 26, 8)]
  {
    hide Total, Number, Fields;
    Lengths();
    FieldsAreAt(bits, i, HEADER, [0, 15, 23, 27]);
    FieldsAreAt(bits, i, RF, [0, 3]);
    FieldsAreAt(bits, i, AUX, [0, 4]);
    FieldsAreAt(bits, i, FEF, [0, 4, 26]);
  }

  /** The fields of a record, `fef` empty when none is signalled. */
  datatype Post = Post(header: seq<nat>, rf: seq<seq<nat>>, fef: seq<nat>, plp: seq<seq<nat>>, tail: seq<nat>, aux: seq<seq<nat>>,
                       dyn: seq<nat>, dynPlp: seq<seq<nat>>, reserved3: nat)

  // ---- The layout ----

  /** The numbers that shape a record. */
  datatype Counts = Counts(rf: nat, hasFef: bool, plp: nat, aux: nat) {
    function FefAt(): nat { 35 + 35 * rf }
    function PlpAt(): nat { FefAt() + if hasFef then 34 else 0 }
    function TailAt(): nat { PlpAt() + 89 * plp }
    function AuxAt(): nat { TailAt() + 32 }
    function DynAt(): nat { AuxAt() + 32 * aux }
    function DynPlpAt(): nat { DynAt() + 71 }
    function Reserved3At(): nat { DynPlpAt() + 48 * plp }
    function Size(): nat { Reserved3At() + RESERVED_3 }

    /** Where the program starts reading the repeated dynamic part, of a record without PLPs and auxiliary streams. */
    function RepeatAt(): nat { DynAt() - 25 }

    /** What the parsers read of the bits. */
    function End(repeats: bool): nat { if repeats && plp == 0 && aux == 0 then RepeatAt() + 127 else Size() }

    /** The parsers come to a list they have not allocated: of private auxiliary data, or of repeated PLPs. */
    predicate WritesNull(repeats: bool) { aux > 0 || (repeats && plp > 0) }
  }

  /** How the parsing of a record ends. */
  datatype Verdict = CheckFailed | NullWrite | Done(post: Post)

  /** The counts a record signals itself, with those L1-pre gives. */
  function Signalled(bits: seq<Bit>, numRf: nat, hasFef: bool): Counts
    requires |bits| >= 35
  {
    Counts(numRf, hasFef, Number(bits, 15, 8), Number(bits, 23, 4))
  }

  /** What the parsers read in a bit string laid out one part after another. */
  function Parsed(bits: seq<Bit>, c: Counts): Post
    requires c.Size() <= |bits|
  {
    Lengths();
    Post(Fields(bits, 0, HEADER), Records(bits, 35, RF, c.rf), if c.hasFef then Fields(bits, c.FefAt(), FEF_READ) else [],
         Records(bits, c.PlpAt(), PLP, c.plp), Fields(bits, c.TailAt() + TAIL_LATE, TAIL_READ), Records(bits, c.AuxAt(), AUX, c.aux),
         Fields(bits, c.DynAt(), DYN), Records(bits, c.DynPlpAt(), DYN_PLP, c.plp), bits[c.Reserved3At() + RESERVED_3 - 1])
  }

  /** START_RF_IDX of the repeated dynamic part goes into that of the dynamic part. */
  function WithRepeat(p: Post, bits: seq<Bit>, at: nat): Post
    requires |p.dyn| == |DYN| && at + Total(DYN) <= |bits|
  {
    p.(dyn := p.dyn[4 := Or(p.dyn[4], Fields(bits, at, DYN)[4])])
  }

  /** The end of parsing a checked record, with (`repeats`) or without a repeated dynamic part. */
  function Result(bits: seq<Bit>, c: Counts, repeats: bool): Verdict
    requires c.Size() <= |bits| && c.End(repeats) <= |bits|
  {
    Lengths();
    if c.WritesNull(repeats) then NullWrite
    else if repeats then Done(WithRepeat(Parsed(bits, c), bits, c.RepeatAt()))
    else Done(Parsed(bits, c))
  }

  /** The check over the `infoSize` bits is the one that follows them. */
  predicate Checked(bits: seq<Bit>, infoSize: nat)
    requires infoSize + CRC_BITS <= |bits|
  {
    Crc32.Check(bits[..infoSize]) == Number(bits, infoSize, CRC_BITS)
  }

  /** The parsers, at the source's offsets. */
  method PostInfo(bits: seq<Bit>, numRf: nat, hasFef: bool, repeats: bool, infoSize: nat) returns (r: Verdict)
    requires infoSize + CRC_BITS <= |bits| && |bits| >= 35
    requires Checked(bits, infoSize) ==>
               var c := Signalled(bits, numRf, hasFef); c.Size() <= |bits| && c.End(repeats) <= |bits|
    ensures r == if Checked(bits, infoSize) then Result(bits, Signalled(bits, numRf, hasFef), repeats) else CheckFailed
  {
    hide Total, Fields, Records, Number, Or, Crc32.Check;
    Lengths();
    var crc := Crc32.Compute(bits, infoSize);
    var field := ReadNumber(bits, infoSize, CRC_BITS);
    if field != crc {
      return CheckFailed;
    }
    var idxRfShift: int := (numRf as int - 1) * 35;
    var idxFefShift: int := if hasFef then 34 else 0;
    var numPlp := ReadNumber(bits, 15, 8);
    var idxPlpShift: int := (numPlp as int - 1) * 89;
    var numAux := ReadNumber(bits, 23, 4);
    var idxAuxShift: int := (numAux as int - 1) * 32;
    var idxDynAuxShift: int := (numAux as int - 1) * 48;
    var idxConfigurableShift := idxRfShift + idxFefShift + idxPlpShift + idxAuxShift + 223;
    var idxDynPlpShift: int := (numPlp as int - 1) * 48;
    var idxDynShift := idxConfigurableShift + idxDynPlpShift + idxDynAuxShift + 71;
    var post := Parts(bits, numRf, hasFef, numPlp, numAux, idxRfShift, idxFefShift, idxPlpShift, idxConfigurableShift, idxDynPlpShift);
    if numAux > 0 {
      return NullWrite;
    }
    if repeats {
      if numPlp > 0 {
        return NullWrite;
      }
      post := Repeated(bits, idxDynShift, post);
    }
    r := Done(post);
  }

  /** The parts of a record at the offsets the counts give. */
  method Parts(bits: seq<Bit>, numRf: nat, hasFef: bool, numPlp: nat, numAux: nat,
               idxRfShift: int, idxFefShift: int, idxPlpShift: int, idxConfigurableShift: int, idxDynPlpShift: int)
    returns (post: Post)
    requires Counts(numRf, hasFef, numPlp, numAux).Size() <= |bits|
    requires idxRfShift == (numRf - 1) * 35 && idxFefShift == (if hasFef then 34 else 0) && idxPlpShift == (numPlp - 1) * 89
    requires idxConfigurableShift == Counts(numRf, hasFef, numPlp, numAux).DynAt() && idxDynPlpShift == (numPlp - 1) * 48
    ensures post == Parsed(bits, Counts(numRf, hasFef, numPlp, numAux))
  {
    hide Total, Fields, Records, Number;
    Lengths();
    var header, at := ReadFields(bits, 0, HEADER);
    var plp := ReadRecords(bits, idxRfShift + idxFefShift + 70, PLP, numPlp);
    var rf := ReadRecords(bits, 35, RF, numRf);
    var fef: seq<nat> := [];
    if hasFef {
      fef, at := ReadFields(bits, idxRfShift + 70, FEF_READ);
    }
    var tail;
    tail, at := ReadFields(bits, idxRfShift + idxFefShift + idxPlpShift + 169, TAIL_READ);
    var aux := ReadRecords(bits, idxRfShift + idxFefShift + idxPlpShift + 191, AUX, numAux);
    var dyn;
    dyn, at := ReadFields(bits, idxConfigurableShift, DYN);
    var dynPlp := ReadRecords(bits, idxConfigurableShift + 71, DYN_PLP, numPlp);
    var reserved3 := LastShifted(bits, idxConfigurableShift + idxDynPlpShift + 119);
    post := Post(header, rf, fef, plp, tail, aux, dyn, dynPlp, reserved3);
  }

  /** The repeated dynamic part of a record without PLPs. */
  method Repeated(bits: seq<Bit>, idxDynShift: int, p: Post) returns (post: Post)
    requires |p.dyn| == |DYN| && 0 <= idxDynShift && idxDynShift + 127 <= |bits|
    ensures idxDynShift + Total(DYN) <= |bits| && post == WithRepeat(p, bits, idxDynShift)
  {
    hide Total, Fields, Or;
    Lengths();
    var next, at := ReadFields(bits, idxDynShift, DYN);
    var nextReserved3 := LastShifted(bits, idxDynShift + 119);
    post := p.(dyn := p.dyn[4 := Or(p.dyn[4], next[4])]);
  }

  /** The loop over RESERVED_3, which assigns each shifted bit instead of adding it. */
  method LastShifted(bits: seq<Bit>, idx: nat) returns (n: nat)
    requires idx + RESERVED_3 <= |bits|
    ensures n == bits[idx + RESERVED_3 - 1]
  {
    n := 0;
    var s: nat := RESERVED_3;
    while s > 0
      invariant s <= RESERVED_3
      invariant s < RESERVED_3 ==> n == bits[idx + RESERVED_3 - 1 - s] as nat * Pow2(s)
    {
      s := s - 1;
      n := bits[idx + RESERVED_3 - 1 - s] as nat * Pow2(s);
    }
  }

  // ---- Round trip ----

  ghost predicate Ok(p: Post)
  {
    && Fit(p.header, HEADER) && AllFit(p.rf, RF) && (p.fef == [] || Fit(p.fef, FEF)) && AllFit(p.plp, PLP) && Fit(p.tail, TAIL)
    && AllFit(p.aux, AUX) && Fit(p.dyn, DYN) && AllFit(p.dynPlp, DYN_PLP) && p.reserved3 < 0x100
    && p.header[1] == |p.plp| == |p.dynPlp| && p.header[2] == |p.aux|
  }

  function CountsOf(p: Post): Counts
  {
    Counts(|p.rf|, p.fef != [], |p.plp|, |p.aux|)
  }

  ghost function WriteFef(p: Post): (bits: seq<Bit>)
    requires Ok(p)
    ensures |bits| == if p.fef == [] then 0 else 34
  {
    Lengths();
    if p.fef == [] then [] else WriteAll(p.fef, FEF)
  }

  /** The parts up to the PLPs. */
  ghost function WriteFirst(p: Post): (bits: seq<Bit>)
    requires Ok(p)
  {
    WriteAll(p.header, HEADER) + WriteRecords(p.rf, RF) + WriteFef(p) + WriteRecords(p.plp, PLP)
  }

  /** The parts from FEF_LENGTH_MSB to RESERVED_3. */
  ghost function WriteLast(p: Post): (bits: seq<Bit>)
    requires Ok(p)
  {
    WriteAll(p.tail, TAIL) + WriteRecords(p.aux, AUX) + WriteAll(p.dyn, DYN) + WriteRecords(p.dynPlp, DYN_PLP)
    + Write(p.reserved3, RESERVED_3)
  }

  /** A record as transmitted; `more` is what follows it, the auxiliary streams' dynamic parts first. */
  ghost function WritePost(p: Post, more: seq<Bit>): (bits: seq<Bit>)
    requires Ok(p)
  {
    WriteFirst(p) + WriteLast(p) + more
  }

  /** Parts laid end to end, and where each of them lies. */
  lemma FourPartsAt(a: seq<Bit>, b: seq<Bit>, c: seq<Bit>, d: seq<Bit>)
    ensures var s := a + b + c + d;
            var j, k, l := |a|, |a| + |b|, |a| + |b| + |c|;
            |s| == l + |d| && s[0..0 + j] == a && s[j..k] == b && s[k..l] == c && s[l..l + |d|] == d
  {
  }

  lemma FivePartsAt(a: seq<Bit>, b: seq<Bit>, c: seq<Bit>, d: seq<Bit>, e: seq<Bit>)
    ensures var s := a + b + c + d + e;
            var j, k, l, m := |a|, |a| + |b|, |a| + |b| + |c|, |a| + |b| + |c| + |d|;
            |s| == m + |e| && s[0..0 + j] == a && s[j..k] == b && s[k..l] == c && s[l..m] == d && s[m..m + |e|] == e
  {
  }

  /** `part` lies at `i` in `bits`. */
  predicate LaidAt(bits: seq<Bit>, i: nat, part: seq<Bit>)
  {
    i + |part| <= |bits| && bits[i..i + |part|] == part
  }

  lemma LaidWithin(bits: seq<Bit>, s: seq<Bit>, at: nat, i: nat, part: seq<Bit>)
    requires LaidAt(bits, at, s) && LaidAt(s, i, part)
    ensures LaidAt(bits, at + i, part)
  {
    forall k | 0 <= k < |part| ensures bits[at + i..at + i + |part|][k] == part[k] {
      assert s[i..i + |part|][k] == part[k] && bits[at..at + |s|][i + k] == s[i + k];
    }
  }

  lemma FirstParts(p: Post, bits: seq<Bit>)
    requires Ok(p) && LaidAt(bits, 0, WriteFirst(p))
    ensures var c := CountsOf(p);
            && |WriteFirst(p)| == c.TailAt()
            && LaidAt(bits, 0, WriteAll(p.header, HEADER)) && LaidAt(bits, 35, WriteRecords(p.rf, RF))
            && LaidAt(bits, c.FefAt(), WriteFef(p)) && LaidAt(bits, c.PlpAt(), WriteRecords(p.plp, PLP))
  {
    hide Total, WriteAll, WriteRecords, WriteFef, LaidAt;
    Lengths();
    var c := CountsOf(p);
    var a, b, f, d := WriteAll(p.header, HEADER), WriteRecords(p.rf, RF), WriteFef(p), WriteRecords(p.plp, PLP);
    hide Fit, AllFit, Ok;
    FourPartsAt(a, b, f, d);
    LaidPart(bits, WriteFirst(p), 0, 0, a);
    LaidPart(bits, WriteFirst(p), 0, 35, b);
    LaidPart(bits, WriteFirst(p), 0, c.FefAt(), f);
    LaidPart(bits, WriteFirst(p), 0, c.PlpAt(), d);
  }

  lemma LaidPart(bits: seq<Bit>, s: seq<Bit>, at: nat, i: nat, part: seq<Bit>)
    requires LaidAt(bits, at, s) && i + |part| <= |s| && s[i..i + |part|] == part
    ensures LaidAt(bits, at + i, part)
  {
    LaidWithin(bits, s, at, i, part);
  }

  lemma LastParts(p: Post, bits: seq<Bit>)
    requires Ok(p) && LaidAt(bits, CountsOf(p).TailAt(), WriteLast(p))
    ensures var c := CountsOf(p);
            && |WriteLast(p)| == c.Size() - c.TailAt()
            && LaidAt(bits, c.TailAt(), WriteAll(p.tail, TAIL)) && LaidAt(bits, c.AuxAt(), WriteRecords(p.aux, AUX))
            && LaidAt(bits, c.DynAt(), WriteAll(p.dyn, DYN)) && LaidAt(bits, c.DynPlpAt(), WriteRecords(p.dynPlp, DYN_PLP))
            && LaidAt(bits, c.Reserved3At(), Write(p.reserved3, RESERVED_3))
  {
    hide Total, WriteAll, WriteRecords, Write, LaidAt;
    Lengths();
    var c, s := CountsOf(p), WriteLast(p);
    var a, b, d, e, f := WriteAll(p.tail, TAIL), WriteRecords(p.aux, AUX), WriteAll(p.dyn, DYN), WriteRecords(p.dynPlp, DYN_PLP),
      Write(p.reserved3, RESERVED_3);
    hide Fit, AllFit, Ok;
    FivePartsAt(a, b, d, e, f);
    var at := c.TailAt();
    LaidPart(bits, s, at, 0, a);
    LaidPart(bits, s, at, c.AuxAt() - at, b);
    LaidPart(bits, s, at, c.DynAt() - at, d);
    LaidPart(bits, s, at, c.DynPlpAt() - at, e);
    LaidPart(bits, s, at, c.Reserved3At() - at, f);
  }

  /**
   What is read of a record is what was written, but for these parts: FEF_LENGTH_MSB and RESERVED_2 are if and only if both are 0,
   RESERVED_3 if and only if it is below 2, and the FEF part if and only if it is all 0 and so is `after`, the bit after it.
   */
  ghost predicate ReadAs(p: Post, q: Post, after: Bit)
  {
    && q == p.(fef := q.fef, tail := q.tail, reserved3 := q.reserved3)
    && (q.tail == p.tail <==> p.tail == [0, 0])
    && (q.reserved3 == p.reserved3 <==> p.reserved3 < 2)
    && (q.fef == p.fef <==> p.fef == [] || (p.fef == [0, 0, 0] && after == 0))
  }

  /** The record is found in the bits with its check, and read; its parsing ends if and only if the program writes to no list it has not allocated. */
  ghost predicate Received(p: Post, n: nat, bits: seq<Bit>, repeats: bool)
  {
    var c := CountsOf(p);
    && 35 <= c.PlpAt() < c.Size() <= n && c.End(repeats) <= n + CRC_BITS <= |bits|
    && Checked(bits, n) && Signalled(bits, |p.rf|, p.fef != []) == c
    && ReadAs(p, Parsed(bits, c), bits[c.PlpAt()])
    && (Result(bits, c, repeats).NullWrite? <==> p.aux != [] || (repeats && p.plp != []))
    && (Result(bits, c, repeats) == Done(Parsed(bits, c)) <== p.aux == [] && !repeats)
  }

  /**
   A record, with any numbers of RF channels, PLPs and auxiliary streams, is found and read, as `ReadAs` says. The parsers then end
   in a record if and only if it has no auxiliary streams and, if the dynamic part is repeated, no PLPs.
   */
  lemma PostRoundTrip(p: Post, more: seq<Bit>, bits: seq<Bit>, repeats: bool)
    requires Ok(p)
    requires LaidAt(bits, 0, WritePost(p, more) + Write(Crc32.Check(WritePost(p, more)), CRC_BITS))
    ensures Received(p, |WritePost(p, more)|, bits, repeats)
  {
    hide WritePost, Ok, Write, Number, Crc32.Check, Parsed, ReadAs, Or;
    var s := WritePost(p, more);
    var t := Write(Crc32.Check(s), CRC_BITS);
    CheckReadBack(s, bits);
    assert bits[..|s + t|] == s + t;
    Prefix(s, t, bits);
    PartsReadBack(p, more, bits);
  }

  lemma Prefix(s: seq<Bit>, t: seq<Bit>, bits: seq<Bit>)
    requires |s| + |t| <= |bits| && bits[..|s| + |t|] == s + t
    ensures LaidAt(bits, 0, s)
  {
    assert bits[..|s| + |t|][..|s|] == (s + t)[..|s|];
  }

  lemma PartsReadBack(p: Post, more: seq<Bit>, bits: seq<Bit>)
    requires Ok(p) && LaidAt(bits, 0, WritePost(p, more))
    ensures var c := CountsOf(p);
            && 35 <= c.PlpAt() < c.Size() <= |WritePost(p, more)| <= |bits| && Signalled(bits, |p.rf|, p.fef != []) == c
            && ReadAs(p, Parsed(bits, c), bits[c.PlpAt()])
  {
    HalvesAt(p, more, bits);
    FirstBack(p, bits);
    FefBack(p, bits);
    LastBack(p, bits);
    TailBack(p, bits);
    Shape(CountsOf(p));
    hide Total, WriteAll, WriteRecords, Write, WriteFirst, WriteLast, WritePost, Fields, Records, Number, LaidAt, Fit, AllFit, Ok;
  }

  lemma Shape(c: Counts)
    ensures 35 <= c.PlpAt() <= c.TailAt() < c.Size()
  {
  }

  lemma FirstBack(p: Post, bits: seq<Bit>)
    requires Ok(p) && LaidAt(bits, 0, WriteFirst(p)) && CountsOf(p).Size() <= |bits|
    ensures var c := CountsOf(p);
            && 35 <= c.PlpAt() < |bits| && Signalled(bits, |p.rf|, p.fef != []) == c
            && var q := Parsed(bits, c);
               q.header == p.header && q.rf == p.rf && q.plp == p.plp
  {
    FirstParts(p, bits);
    Lengths();
    var c := CountsOf(p);
    hide Total, WriteAll, WriteRecords, WriteFirst, Fields, Records, Number, LaidAt, Fit, AllFit;
    FieldsBack(bits, 0, p.header, HEADER);
    RecordsBack(bits, 35, p.rf, RF);
    RecordsBack(bits, c.PlpAt(), p.plp, PLP);
    HeaderNumbers(bits);
  }

  lemma FefBack(p: Post, bits: seq<Bit>)
    requires Ok(p) && LaidAt(bits, 0, WriteFirst(p)) && CountsOf(p).Size() <= |bits|
    ensures var c := CountsOf(p);
            && c.PlpAt() < |bits|
            && (Parsed(bits, c).fef == p.fef <==> p.fef == [] || (p.fef == [0, 0, 0] && bits[c.PlpAt()] == 0))
  {
    hide Ok, Total, WriteAll, WriteFef, WriteFirst, Fields, Records, Number, LaidAt, Fit, Pow2, PLP;
    FirstParts(p, bits);
    var c := CountsOf(p);
    Shape(c);
    if p.fef != [] {
      FefFits(p);
      FefReadWide(bits, c.FefAt(), p.fef);
    }
  }

  lemma FefFits(p: Post)
    requires Ok(p) && p.fef != []
    ensures Fit(p.fef, FEF) && WriteFef(p) == WriteAll(p.fef, FEF)
  {
    hide Fit, AllFit, Pow2, Total;
  }

  lemma LastBack(p: Post, bits: seq<Bit>)
    requires Ok(p) && LaidAt(bits, CountsOf(p).TailAt(), WriteLast(p)) && CountsOf(p).Size() <= |bits|
    ensures var q := Parsed(bits, CountsOf(p)); q.aux == p.aux && q.dyn == p.dyn && q.dynPlp == p.dynPlp
  {
    LastParts(p, bits);
    Lengths();
    var c := CountsOf(p);
    hide Total, WriteAll, WriteRecords, Write, WriteLast, Fields, Records, Number, LaidAt, Fit, AllFit;
    RecordsBack(bits, c.AuxAt(), p.aux, AUX);
    FieldsBack(bits, c.DynAt(), p.dyn, DYN);
    RecordsBack(bits, c.DynPlpAt(), p.dynPlp, DYN_PLP);
  }

  lemma TailBack(p: Post, bits: seq<Bit>)
    requires Ok(p) && LaidAt(bits, CountsOf(p).TailAt(), WriteLast(p)) && CountsOf(p).Size() <= |bits|
    ensures var q := Parsed(bits, CountsOf(p));
            && (q.tail == p.tail <==> p.tail == [0, 0])
            && (q.reserved3 == p.reserved3 <==> p.reserved3 < 2)
  {
    hide Ok, Total, WriteAll, WriteRecords, Write, WriteLast, Fields, Records, Number, LaidAt, Fit, PLP;
    LastParts(p, bits);
    TailFits(p);
    var c := CountsOf(p);
    TailReadLate(bits, c.TailAt(), p.tail);
    LastBitKept(bits, c.Reserved3At(), p.reserved3);
  }

  lemma TailFits(p: Post)
    requires Ok(p)
    ensures Fit(p.tail, TAIL)
  {
    hide Fit, AllFit;
  }

  lemma HalvesAt(p: Post, more: seq<Bit>, bits: seq<Bit>)
    requires Ok(p) && LaidAt(bits, 0, WritePost(p, more))
    ensures LaidAt(bits, 0, WriteFirst(p)) && |WriteFirst(p)| == CountsOf(p).TailAt() && LaidAt(bits, CountsOf(p).TailAt(), WriteLast(p))
    ensures CountsOf(p).Size() <= |WritePost(p, more)| <= |bits|
  {
    hide Ok, WriteFirst, WriteLast, LaidAt;
    var a, b := WriteFirst(p), WriteLast(p);
    FirstTwo(a, b, more);
    LaidPart(bits, WritePost(p, more), 0, 0, a);
    LaidPart(bits, WritePost(p, more), 0, |a|, b);
    FirstParts(p, bits);
    LastParts(p, bits);
    LaidLength(bits, 0, WritePost(p, more));
  }

  lemma FirstTwo(a: seq<Bit>, b: seq<Bit>, c: seq<Bit>)
    ensures (a + b + c)[0..0 + |a|] == a && (a + b + c)[|a|..|a| + |b|] == b
  {
  }

  lemma LaidLength(bits: seq<Bit>, i: nat, part: seq<Bit>)
    requires LaidAt(bits, i, part)
    ensures i + |part| <= |bits|
  {
  }

  lemma FieldsBack(bits: seq<Bit>, i: nat, fields: seq<nat>, widths: seq<nat>)
    requires Fit(fields, widths) && LaidAt(bits, i, WriteAll(fields, widths))
    ensures i + Total(widths) <= |bits| && Fields(bits, i, widths) == fields
  {
    hide Total, WriteAll, Fields;
    FieldsReadBack(bits, i, fields, widths);
  }

  lemma RecordsBack(bits: seq<Bit>, i: nat, records: seq<seq<nat>>, widths: seq<nat>)
    requires AllFit(records, widths) && LaidAt(bits, i, WriteRecords(records, widths))
    ensures i + |records| * Total(widths) <= |bits| && Records(bits, i, widths, |records|) == records
  {
    hide Total, WriteRecords, Records, Fit;
    RecordsReadBack(bits, i, records, widths);
  }

  lemma TwoFields(bits: seq<Bit>, i: nat, a: nat, b: nat)
    requires i + a + b <= |bits|
    ensures Total([a, b]) == a + b && Fields(bits, i, [a, b]) == [Number(bits, i, a), Number(bits, i + a, b)]
  {
    hide Number;
    TotalTwo(a, b);
    TotalOne(a);
    assert [a, b][..1] == [a] && [a][..0] == [];
    assert Fields(bits, i, [a, b]) == Fields(bits, i, [a]) + [Number(bits, i + a, b)];
    assert Fields(bits, i, [a]) == Fields(bits, i, []) + [Number(bits, i, a)];
  }

  lemma ThreeFields(bits: seq<Bit>, i: nat, a: nat, b: nat, c: nat)
    requires i + a + b + c <= |bits|
    ensures Total([a, b, c]) == a + b + c
    ensures Fields(bits, i, [a, b, c]) == [Number(bits, i, a), Number(bits, i + a, b), Number(bits, i + a + b, c)]
  {
    hide Number;
    TotalThree(a, b, c);
    TwoFields(bits, i, a, b);
    assert [a, b, c][..2] == [a, b];
    assert Fields(bits, i, [a, b, c]) == Fields(bits, i, [a, b]) + [Number(bits, i + a + b, c)];
  }

  lemma HeaderNumbers(bits: seq<Bit>)
    requires |bits| >= 35
    ensures Total(HEADER) == 35
    ensures Fields(bits, 0, HEADER)[1] == Number(bits, 15, 8) && Fields(bits, 0, HEADER)[2] == Number(bits, 23, 4)
  {
    hide Number;
    Lengths();
    ThreeFields(bits, 0, 15, 8, 4);
    assert HEADER[..3] == [15, 8, 4];
    assert Fields(bits, 0, HEADER) == Fields(bits, 0, [15, 8, 4]) + [Number(bits, 27, 8)];
  }

  // ---- The parts read at other places than they are written ----

  /** The four bits read for FEF_LENGTH_MSB and RESERVED_2 lie inside RESERVED_2. */
  lemma TailReadLate(bits: seq<Bit>, at: nat, tail: seq<nat>)
    requires Fit(tail, TAIL) && LaidAt(bits, at, WriteAll(tail, TAIL))
    ensures at + 32 <= |bits| && Total(TAIL_READ) == 4
    ensures Fields(bits, at + TAIL_LATE, TAIL_READ) == tail <==> tail == [0, 0]
  {
    Lengths();
    hide Total, WriteAll, Fields, Number, Fit, LaidAt, Pow2;
    FieldsBack(bits, at, tail, TAIL);
    TwoFields(bits, at, 2, 30);
    TwoFields(bits, at + TAIL_LATE, 2, 2);
    NumberSplit(bits, at + 2, 8, 22);
    NumberSplit(bits, at + 10, 4, 18);
    NumberSplit(bits, at + 10, 2, 2);
    Powers();
    LateEqual(Number(bits, at, 2), Number(bits, at + 2, 8), Number(bits, at + 10, 2), Number(bits, at + 12, 2), Number(bits, at + 14, 18));
  }

  lemma LateEqual(m: nat, high: nat, a: nat, b: nat, low: nat)
    ensures a == m && b == high * 0x40_0000 + (a * 4 + b) * 0x4_0000 + low
            <==> m == 0 && high * 0x40_0000 + (a * 4 + b) * 0x4_0000 + low == 0
  {
  }

  lemma Powers()
    ensures Pow2(1) == 2 && Pow2(2) == 4 && Pow2(8) == 0x100 && Pow2(18) == 0x4_0000 && Pow2(22) == 0x40_0000 && Pow2(30) == 0x4000_0000
  {
    assert Pow2(8) == 0x100;
    assert Pow2(16) == 0x1_0000;
    assert Pow2(22) == 0x40_0000;
  }

  lemma LastBitKept(bits: seq<Bit>, at: nat, v: nat)
    requires LaidAt(bits, at, Write(v, RESERVED_3))
    ensures at + RESERVED_3 <= |bits| && (bits[at + RESERVED_3 - 1] as nat == v <==> v < 2)
  {
    var s := Write(v, RESERVED_3);
    assert s == Write(v / 2, RESERVED_3 - 1) + [v % 2];
    assert bits[at..at + |s|][RESERVED_3 - 1] == v % 2;
  }

  /** Reading one bit more of FEF_TYPE doubles what the 34 bits of the FEF part hold. */
  lemma FefReadWide(bits: seq<Bit>, at: nat, fef: seq<nat>)
    requires Fit(fef, FEF) && LaidAt(bits, at, WriteAll(fef, FEF)) && at + 35 <= |bits|
    ensures Total(FEF_READ) == 35 && (Fields(bits, at, FEF_READ) == fef <==> fef == [0, 0, 0] && bits[at + 34] == 0)
  {
    Lengths();
    hide Total, WriteAll, Fields, Number, Fit, LaidAt, Pow2;
    FieldsBack(bits, at, fef, FEF);
    ThreeFields(bits, at, 4, 22, 8);
    ThreeFields(bits, at, 5, 22, 8);
    Powers();
    NumberSplit(bits, at, 4, 30);
    NumberSplit(bits, at + 4, 22, 8);
    NumberSplit(bits, at, 5, 30);
    NumberSplit(bits, at + 5, 22, 8);
    NumberSplit(bits, at, 34, 1);
    OneBit(bits, at + 34);
  }

  lemma OneBit(bits: seq<Bit>, i: nat)
    requires i < |bits|
    ensures Number(bits, i, 1) == bits[i] as nat
  {
    assert Number(bits, i, 0) == 0;
  }
}
