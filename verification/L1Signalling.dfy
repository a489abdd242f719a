/**
 The parser of L1-pre signalling (section 7.2.2 of EN 302 755): the switch over bit positions that cuts its
 fields, and its check.
 */
module L1Signalling {
  import opened Bits
  import opened BitFields
  import Crc32

  datatype Option<T> = None | Some(value: T)

  const CRC_BITS: nat := 32

  // ---- L1-pre ----

  const PRE_FIELDS := 28
  const PRE_BITS := 168

  /** Width of each L1-pre field, in order. */
  function PreWidth(f: nat): nat
    requires f < PRE_FIELDS
  {
    match f
    case 0 => 8   // TYPE
    case 1 => 1   // BWT_EXT
    case 2 => 3   // S1
    case 3 => 3   // S2_FIELD1
    case 4 => 1   // S2_FIELD2
    case 5 => 1   // L1_REPETITION_FLAG
    case 6 => 3   // GUARD_INTERVAL
    case 7 => 4   // PAPR
    case 8 => 4   // L1_MOD
    case 9 => 2   // L1_COD
    case 10 => 2   // L1_FEC_TYPE
    case 11 => 18   // L1_POST_SIZE
    case 12 => 18   // L1_POST_INFO_SIZE
    case 13 => 4   // PILOT_PATTERN
    case 14 => 8   // TX_ID_AVAILABILITY
    case 15 => 16   // CELL_ID
    case 16 => 16   // NETWORK_ID
    case 17 => 16   // T2_SYSTEM_ID
    case 18 => 8   // NUM_T2_FRAMES
    case 19 => 12   // NUM_DATA_SYMBOLS
    case 20 => 3   // REGEN_FLAG
    case 21 => 1   // L1_POST_EXTENSION
    case 22 => 3   // NUM_RF
    case 23 => 3   // CURRENT_RF_IDX
    case 24 => 4   // T2_VERSION
    case 25 => 1   // L1_POST_SCRAMBLED
    case 26 => 1   // T2_BASE_LITE
    case _ => 4    // RESERVED
  }

  function PreWidths(): (w: seq<nat>)
    ensures |w| == PRE_FIELDS
  {
    seq(PRE_FIELDS, f requires 0 <= f < PRE_FIELDS => PreWidth(f))
  }

  /** Where each field starts. */
  function PreStart(f: nat): nat
    requires f <= PRE_FIELDS
  {
    match f
    case 0 => 0
    case 1 => 8
    case 2 => 9
    case 3 => 12
    case 4 => 15
    case 5 => 16
    case 6 => 17
    case 7 => 20
    case 8 => 24
    case 9 => 28
    case 10 => 30
    case 11 => 32
    case 12 => 50
    case 13 => 68
    case 14 => 72
    case 15 => 80
    case 16 => 96
    case 17 => 112
    case 18 => 128
    case 19 => 136
    case 20 => 148
    case 21 => 151
    case 22 => 152
    case 23 => 155
    case 24 => 158
    case 25 => 162
    case 26 => 163
    case 27 => 164
    case _ => 168
  }

  datatype Case = Inside | NextShift(shift: int)

  /** The source's switch on the bit just read: at a field's last bit, the shift of the next field's first bit. */
  function Switch(i: nat): Case
  {
    match i
    case 7 => NextShift(0)
    case 8 => NextShift(2)
    case 11 => NextShift(2)
    case 14 => NextShift(0)
    case 15 => NextShift(0)
    case 16 => NextShift(2)
    case 19 => NextShift(3)
    case 23 => NextShift(3)
    case 27 => NextShift(1)
    case 29 => NextShift(1)
    case 31 => NextShift(17)
    case 49 => NextShift(17)
    case 67 => NextShift(3)
    case 71 => NextShift(7)
    case 79 => NextShift(15)
    case 95 => NextShift(15)
    case 111 => NextShift(15)
    case 127 => NextShift(7)
    case 135 => NextShift(11)
    case 147 => NextShift(2)
    case 150 => NextShift(0)
    case 151 => NextShift(2)
    case 154 => NextShift(2)
    case 157 => NextShift(3)
    case 161 => NextShift(0)
    case 162 => NextShift(0)
    case 163 => NextShift(3)
    case 167 => NextShift(0)
    case _ => Inside
  }

  lemma StartsFollow(f: nat)
    requires f < PRE_FIELDS
    ensures PreStart(f + 1) == PreStart(f) + PreWidth(f) && PreWidth(f) > 0
  {
  }

  lemma {:induction false} StartsAreTotals(f: nat)
    requires f <= PRE_FIELDS
    ensures Total(PreWidths()[..f]) == PreStart(f)
  {
    hide PreWidth, PreStart;
    if f == 0 {
      FirstStart();
    } else {
      StartsAreTotals(f - 1);
      StartsFollow(f - 1);
      assert PreWidths()[..f][..f - 1] == PreWidths()[..f - 1];
    }
  }

  lemma FirstStart()
    ensures PreStart(0) == 0 && PreWidth(0) == 8 && Switch(PRE_BITS - 1) == NextShift(0) && PreStart(PRE_FIELDS) == PRE_BITS
  {
  }

  /** The switch has a case exactly for the last bit of each field, with the next field's width less one. */
  lemma SwitchCutsFields(f: nat, i: nat)
    requires f < PRE_FIELDS && PreStart(f) <= i < PreStart(f + 1)
    ensures Switch(i).NextShift? <==> i + 1 == PreStart(f + 1)
    ensures i + 1 == PreStart(f + 1) && f + 1 < PRE_FIELDS ==> Switch(i).shift == PreWidth(f + 1) - 1
  {
    if f < 14 {
      SwitchLow(f, i);
    } else {
      SwitchHigh(f, i);
    }
  }

  lemma SwitchLow(f: nat, i: nat)
    requires f < 14 && PreStart(f) <= i < PreStart(f + 1)
    ensures Switch(i).NextShift? <==> i + 1 == PreStart(f + 1)
    ensures i + 1 == PreStart(f + 1) ==> Switch(i).shift == PreWidth(f + 1) - 1
  {
  }

  lemma SwitchHigh(f: nat, i: nat)
    requires 14 <= f < PRE_FIELDS && PreStart(f) <= i < PreStart(f + 1)
    ensures Switch(i).NextShift? <==> i + 1 == PreStart(f + 1)
    ensures i + 1 == PreStart(f + 1) && f + 1 < PRE_FIELDS ==> Switch(i).shift == PreWidth(f + 1) - 1
  {
  }

  /** The first `k` of the `width` bits from `pos`, in place. */
  function Leading(bits: seq<Bit>, pos: nat, k: nat, width: nat): nat
    requires pos + k <= |bits| && k <= width
  {
    Number(bits, pos, k) * Pow2(width - k)
  }

  lemma LeadingGrows(bits: seq<Bit>, pos: nat, k: nat, width: nat)
    requires pos + k < |bits| && k < width
    ensures Or(Leading(bits, pos, k, width), bits[pos + k] * Pow2(width - 1 - k)) == Leading(bits, pos, k + 1, width)
  {
    var h, b, i := Number(bits, pos, k), bits[pos + k], width - 1 - k;
    OrBelowSet(h, b, i);
    Scaled(h, b, i);
  }

  lemma LeadingEnds(bits: seq<Bit>, pos: nat, width: nat)
    requires pos + width <= |bits|
    ensures Leading(bits, pos, 0, width) == 0 && Leading(bits, pos, width, width) == Number(bits, pos, width)
  {
  }

  /** The L1-pre fields at the start of a bit string. */
  function PreRecord(bits: seq<Bit>): (fields: seq<nat>)
    requires |bits| >= PRE_BITS
    ensures |fields| == PRE_FIELDS
  {
    PreTotal();
    Fields(bits, 0, PreWidths())
  }

  /** The loop over the signalling bits, a field at a time by the switch. */
  method PreFields(bits: seq<Bit>) returns (fields: seq<nat>)
    requires |bits| >= PRE_BITS
    ensures fields == PreRecord(bits)
  {
    hide PreWidth, PreStart, Switch, Leading, Fields, InField;
    PreTotal();
    fields := [];
    var field: nat, shift := 0, 7;
    FirstStart();
    FieldsStart(bits);
    FirstField(bits);
    for i := 0 to PRE_BITS
      invariant |fields| <= PRE_FIELDS && (|fields| == PRE_FIELDS ==> i == PRE_BITS)
      invariant |fields| < PRE_FIELDS ==> InField(bits, |fields|, i, field, shift)
      invariant Total(PreWidths()[..|fields|]) <= |bits| && fields == Fields(bits, 0, PreWidths()[..|fields|])
    {
      ghost var f := |fields|;
      BitOfField(bits, f, i, field, shift);
      field := Or(field, bits[i] * Pow2(shift));
      shift := shift - 1;
      var c := Switch(i);
      if c.NextShift? {
        FieldDone(bits, f);
        fields := fields + [field];
        field := 0;
        shift := c.shift;
      }
    }
    NoFieldLeft(bits, |fields|, field, shift);
    assert PreWidths()[..PRE_FIELDS] == PreWidths();
  }

  lemma FirstField(bits: seq<Bit>)
    ensures InField(bits, 0, 0, 0, 7)
  {
    hide Leading;
    LeadingEnds(bits, 0, 0);
    assert Leading(bits, 0, 0, 8) == 0 by { LeadingNone(bits, 8); }
  }

  lemma LeadingNone(bits: seq<Bit>, width: nat)
    ensures Leading(bits, 0, 0, width) == 0
  {
  }

  lemma NoFieldLeft(bits: seq<Bit>, f: nat, field: nat, shift: int)
    ensures f < PRE_FIELDS ==> !InField(bits, f, PRE_BITS, field, shift)
  {
    hide PreStart, PreWidth, Leading;
    if f < PRE_FIELDS {
      StartsInside(f);
    }
  }

  /** Bit `i` is in field `f`, the bits before it are in place in `field`, and `shift` is its own place. */
  ghost predicate InField(bits: seq<Bit>, f: nat, i: nat, field: nat, shift: int)
    requires f < PRE_FIELDS
  {
    && PreStart(f) <= i < PreStart(f) + PreWidth(f) && i <= |bits|
    && field == Leading(bits, PreStart(f), i - PreStart(f), PreWidth(f))
    && shift == PreWidth(f) - 1 - (i - PreStart(f))
  }

  lemma FieldsStart(bits: seq<Bit>)
    ensures Total(PreWidths()[..0]) == 0 && Fields(bits, 0, PreWidths()[..0]) == []
  {
  }

  /** One more bit: it stays in the field, or completes it and the next field starts. */
  lemma BitOfField(bits: seq<Bit>, f: nat, i: nat, field: nat, shift: int)
    requires f < PRE_FIELDS && |bits| >= PRE_BITS && i < PRE_BITS && InField(bits, f, i, field, shift)
    ensures shift >= 0
    ensures var more, c := Or(field, bits[i] * Pow2(shift)), Switch(i);
            && (c.Inside? ==> InField(bits, f, i + 1, more, shift - 1))
            && (c.NextShift? ==> more == Number(bits, PreStart(f), PreWidth(f)))
            && (c.NextShift? && f + 1 < PRE_FIELDS ==> InField(bits, f + 1, i + 1, 0, c.shift))
            && (f + 1 == PRE_FIELDS ==> (c.NextShift? <==> i + 1 == PRE_BITS))
    ensures PreStart(f) + PreWidth(f) <= PRE_BITS
  {
    hide PreWidth, PreStart, Switch, Leading;
    StartsFollow(f);
    StartsInside(f);
    FirstStart();
    SwitchCutsFields(f, i);
    LeadingGrows(bits, PreStart(f), i - PreStart(f), PreWidth(f));
    LeadingEnds(bits, PreStart(f), PreWidth(f));
    if f + 1 < PRE_FIELDS {
      StartsFollow(f + 1);
      StartsInside(f + 1);
      LeadingEnds(bits, PreStart(f + 1), PreWidth(f + 1));
    }
  }

  lemma StartsInside(f: nat)
    requires f < PRE_FIELDS
    ensures PreStart(f) + PreWidth(f) <= PRE_BITS
  {
  }

  lemma FieldDone(bits: seq<Bit>, f: nat)
    requires f < PRE_FIELDS && |bits| >= PRE_BITS
    ensures PreStart(f) + PreWidth(f) <= PRE_BITS
    ensures Total(PreWidths()[..f]) <= |bits| && Total(PreWidths()[..f + 1]) <= |bits|
    ensures Fields(bits, 0, PreWidths()[..f + 1])
            == Fields(bits, 0, PreWidths()[..f]) + [Number(bits, PreStart(f), PreWidth(f))]
  {
    hide PreWidth, PreStart;
    StartsInside(f);
    StartsFollow(f);
    StartsAreTotals(f);
    StartsAreTotals(f + 1);
    assert PreWidths()[..f + 1][..f] == PreWidths()[..f];
  }

  /** L1-pre: the fields, if the check after them is theirs. */
  method PreInfo(bits: seq<Bit>) returns (r: Option<seq<nat>>)
    requires |bits| >= PRE_BITS + CRC_BITS
    ensures r == if Crc32.Check(bits[..PRE_BITS]) == Number(bits, PRE_BITS, CRC_BITS) then Some(PreRecord(bits)) else None
  {
    hide PreRecord;
    var crc := Crc32.Compute(bits, PRE_BITS);
    var field := ReadNumber(bits, PRE_BITS, CRC_BITS);
    if crc != field {
      return None;
    }
    var fields := PreFields(bits);
    r := Some(fields);
  }

  lemma PreTotal()
    ensures Total(PreWidths()) == PRE_BITS
  {
    hide PreWidth, PreStart, Total;
    StartsAreTotals(PRE_FIELDS);
    FirstStart();
    assert PreWidths()[..PRE_FIELDS] == PreWidths();
  }

  /** Each field of L1-pre is the number at its own place. */
  lemma PreFieldAt(bits: seq<Bit>, f: nat)
    requires |bits| >= PRE_BITS && f < PRE_FIELDS
    ensures PreStart(f) + PreWidth(f) <= |bits| && PreRecord(bits)[f] == Number(bits, PreStart(f), PreWidth(f))
  {
    hide Total, Number, Fields, PreWidth, PreStart;
    PreTotal();
    var starts := seq(PRE_FIELDS, k requires 0 <= k < PRE_FIELDS => PreStart(k));
    FirstStart();
    forall k | 0 < k < PRE_FIELDS ensures starts[k] == starts[k - 1] + PreWidths()[k - 1] {
      StartsFollow(k - 1);
    }
    FieldsAreAt(bits, 0, PreWidths(), starts);
    assert starts[f] == PreStart(f) && PreWidths()[f] == PreWidth(f);
    assert PreRecord(bits)[f] == Fields(bits, 0, PreWidths())[f];
  }

  lemma PrePlaces1(bits: seq<Bit>)
    requires |bits| >= PRE_BITS
    ensures var r := PreRecord(bits);
            && r[0] == Number(bits, 0, 8)
            && r[1] == Number(bits, 8, 1)
            && r[2] == Number(bits, 9, 3)
            && r[3] == Number(bits, 12, 3)
            && r[4] == Number(bits, 15, 1)
            && r[5] == Number(bits, 16, 1)
            && r[6] == Number(bits, 17, 3)
  {
    hide Number, PreRecord;
    PreFieldAt(bits, 0);
    PreFieldAt(bits, 1);
    PreFieldAt(bits, 2);
    PreFieldAt(bits, 3);
    PreFieldAt(bits, 4);
    PreFieldAt(bits, 5);
    PreFieldAt(bits, 6);
  }

  lemma PrePlaces2(bits: seq<Bit>)
    requires |bits| >= PRE_BITS
    ensures var r := PreRecord(bits);
            && r[7] == Number(bits, 20, 4)
            && r[8] == Number(bits, 24, 4)
            && r[9] == Number(bits, 28, 2)
            && r[10] == Number(bits, 30, 2)
            && r[11] == Number(bits, 32, 18)
            && r[12] == Number(bits, 50, 18)
            && r[13] == Number(bits, 68, 4)
  {
    hide Number, PreRecord;
    PreFieldAt(bits, 7);
    PreFieldAt(bits, 8);
    PreFieldAt(bits, 9);
    PreFieldAt(bits, 10);
    PreFieldAt(bits, 11);
    PreFieldAt(bits, 12);
    PreFieldAt(bits, 13);
  }

  lemma PrePlaces3(bits: seq<Bit>)
    requires |bits| >= PRE_BITS
    ensures var r := PreRecord(bits);
            && r[14] == Number(bits, 72, 8)
            && r[15] == Number(bits, 80, 16)
            && r[16] == Number(bits, 96, 16)
            && r[17] == Number(bits, 112, 16)
            && r[18] == Number(bits, 128, 8)
            && r[19] == Number(bits, 136, 12)
            && r[20] == Number(bits, 148, 3)
  {
    hide Number, PreRecord;
    PreFieldAt(bits, 14);
    PreFieldAt(bits, 15);
    PreFieldAt(bits, 16);
    PreFieldAt(bits, 17);
    PreFieldAt(bits, 18);
    PreFieldAt(bits, 19);
    PreFieldAt(bits, 20);
  }

  lemma PrePlaces4(bits: seq<Bit>)
    requires |bits| >= PRE_BITS
    ensures var r := PreRecord(bits);
            && r[21] == Number(bits, 151, 1)
            && r[22] == Number(bits, 152, 3)
            && r[23] == Number(bits, 155, 3)
            && r[24] == Number(bits, 158, 4)
            && r[25] == Number(bits, 162, 1)
            && r[26] == Number(bits, 163, 1)
            && r[27] == Number(bits, 164, 4)
  {
    hide Number, PreRecord;
    PreFieldAt(bits, 21);
    PreFieldAt(bits, 22);
    PreFieldAt(bits, 23);
    PreFieldAt(bits, 24);
    PreFieldAt(bits, 25);
    PreFieldAt(bits, 26);
    PreFieldAt(bits, 27);
  }

  /** Where each field of L1-pre lies. */
  lemma PrePlaces(bits: seq<Bit>)
    requires |bits| >= PRE_BITS
    ensures var r := PreRecord(bits);
            && r[0] == Number(bits, 0, 8) && r[1] == Number(bits, 8, 1) && r[2] == Number(bits, 9, 3) && r[3] == Number(bits, 12, 3)
            && r[4] == Number(bits, 15, 1) && r[5] == Number(bits, 16, 1) && r[6] == Number(bits, 17, 3) && r[7] == Number(bits, 20, 4)
            && r[8] == Number(bits, 24, 4) && r[9] == Number(bits, 28, 2) && r[10] == Number(bits, 30, 2) && r[11] == Number(bits, 32, 18)
            && r[12] == Number(bits, 50, 18) && r[13] == Number(bits, 68, 4) && r[14] == Number(bits, 72, 8) && r[15] == Number(bits, 80, 16)
            && r[16] == Number(bits, 96, 16) && r[17] == Number(bits, 112, 16) && r[18] == Number(bits, 128, 8) && r[19] == Number(bits, 136, 12)
            && r[20] == Number(bits, 148, 3) && r[21] == Number(bits, 151, 1) && r[22] == Number(bits, 152, 3) && r[23] == Number(bits, 155, 3)
            && r[24] == Number(bits, 158, 4) && r[25] == Number(bits, 162, 1) && r[26] == Number(bits, 163, 1) && r[27] == Number(bits, 164, 4)
  {
    hide Number, PreRecord;
    PrePlaces1(bits);
    PrePlaces2(bits);
    PrePlaces3(bits);
    PrePlaces4(bits);
  }

  /** A written L1-pre record with its check. */
  function WritePre(fields: seq<nat>): (bits: seq<Bit>)
    requires |fields| == PRE_FIELDS
    ensures |bits| == PRE_BITS + CRC_BITS
  {
    PreTotal();
    var s := WriteAll(fields, PreWidths());
    s + Write(Crc32.Check(s), CRC_BITS)
  }

  /** Round trip: every L1-pre record whose fields fit their widths comes back as it was written, whatever follows it. */
  lemma PreRoundTrip(fields: seq<nat>, bits: seq<Bit>)
    requires Fit(fields, PreWidths()) && |bits| >= PRE_BITS + CRC_BITS && bits[..PRE_BITS + CRC_BITS] == WritePre(fields)
    ensures Crc32.Check(bits[..PRE_BITS]) == Number(bits, PRE_BITS, CRC_BITS) && PreRecord(bits) == fields
  {
    hide PreWidths, Total, Fields, WriteAll, Write, Number, Crc32.Check;
    PreTotal();
    var s := WriteAll(fields, PreWidths());
    assert bits[..PRE_BITS] == bits[..PRE_BITS + CRC_BITS][..PRE_BITS] == s;
    assert bits[0..0 + Total(PreWidths())] == s;
    FieldsReadBack(bits, 0, fields, PreWidths());
    CheckReadBack(s, bits);
  }

  lemma CheckReadBack(s: seq<Bit>, bits: seq<Bit>)
    requires |s| + CRC_BITS <= |bits| && bits[..|s| + CRC_BITS] == s + Write(Crc32.Check(s), CRC_BITS)
    ensures Number(bits, |s|, CRC_BITS) == Crc32.Check(s)
  {
    hide Write, Number, Pow2, Crc32.Check;
    Crc32.PowerIs();
    NumberFollows(s, Crc32.Check(s), CRC_BITS, bits);
  }

  lemma NumberFollows(s: seq<Bit>, v: nat, n: nat, bits: seq<Bit>)
    requires v < Pow2(n) && |s| + n <= |bits| && bits[..|s| + n] == s + Write(v, n)
    ensures Number(bits, |s|, n) == v
  {
    NumberOfWrite(v, n);
    hide *;
    Follows(s, Write(v, n), bits);
    NumberElsewhere(bits, |s|, Write(v, n), 0, n);
  }

  lemma Follows(s: seq<Bit>, w: seq<Bit>, bits: seq<Bit>)
    requires |s| + |w| <= |bits| && bits[..|s| + |w|] == s + w
    ensures bits[|s|..|s| + |w|] == w[0..0 + |w|]
  {
    var a := bits[|s|..|s| + |w|];
    forall k | 0 <= k < |w| ensures a[k] == w[k] {
      assert bits[..|s| + |w|][|s| + k] == (s + w)[|s| + k];
    }
  }
}
