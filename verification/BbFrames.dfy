/**
 Baseband frames as transmitted in high-efficiency mode (section 5.1.7 of EN 302 755): a header with its check,
 then the data field, most significant bits first; and what the de-framer makes of a run of them.
 */
module BbFrames {
  import opened Bits
  import opened BitFields
  import opened PacketStream
  import opened BbDeHeader
  import Crc8

  const WIDTHS: seq<nat> := [16, 16, 16, 8, 16]   // MATYPE, UPL, DFL, SYNC, SYNCD
  const FIELD_BITS := 72

  datatype Header = Header(matype: nat, upl: nat, dfl: nat, sync: nat, syncd: nat) {
    function Fields(): seq<nat> { [matype, upl, dfl, sync, syncd] }
  }

  function Bools(bits: seq<Bit>): (b: seq<bool>)
    ensures |b| == |bits|
  {
    seq(|bits|, i requires 0 <= i < |bits| => bits[i] == 1)
  }

  /** The fields' CRC with its last bit flipped, which says high-efficiency mode. */
  function ModeByte(fields: seq<Bit>): bv8
  {
    Crc8.Diff(Crc8.Left(0, Bools(fields)), 1)
  }

  function WriteFields(h: Header): (bits: seq<Bit>)
    ensures |bits| == FIELD_BITS
  {
    WidthsTotal();
    WriteAll(h.Fields(), WIDTHS)
  }

  function WriteHeader(h: Header): (bits: seq<Bit>)
    ensures |bits| == HEADER_BITS
  {
    OneByte(ModeByte(WriteFields(h)));
    WriteFields(h) + HeaderBits([ModeByte(WriteFields(h))])
  }

  lemma OneByte(t: bv8)
    ensures Crc8.BitString([t]) == Crc8.BitsOf(t)
  {
    hide Crc8.BitsOf;
    assert [t][..0] == [];
    assert Crc8.BitString([]) == [];
  }

  lemma WidthsTotal()
    ensures Total(WIDTHS) == FIELD_BITS && Total([16]) == 16 && Total([16, 16]) == 32 && Total([16, 16, 16]) == 48 && Total([16, 16, 16, 8]) == 56
  {
    assert [16][..0] == [] && [16, 16][..1] == [16] && [16, 16, 16][..2] == [16, 16] && [16, 16, 16, 8][..3] == [16, 16, 16];
    assert WIDTHS[..4] == [16, 16, 16, 8];
  }

  // ---- The header ----

  /** Where the de-framer's two fields lie. */
  lemma HeaderPlaces(bits: seq<Bit>)
    requires |bits| >= HEADER_BITS
    ensures Total(WIDTHS) == FIELD_BITS
    ensures Fields(bits, 0, WIDTHS)[2] == DataFieldLength(bits) && Fields(bits, 0, WIDTHS)[4] == SyncDistance(bits)
  {
    WidthsTotal();
    hide Number, Total;
    assert WIDTHS[..4] == [16, 16, 16, 8] && [16, 16, 16, 8][..3] == [16, 16, 16] && [16, 16, 16][..2] == [16, 16];
    LastField(bits, 0, WIDTHS);
    LastField(bits, 0, [16, 16, 16, 8]);
    LastField(bits, 0, [16, 16, 16]);
  }

  /**
   Header round trip: whatever its fields, DFL and SYNCD are read as they were written, and the frame is de-framed if and only if
   it is of the wanted PLP and a packet starts in it.
   */
  lemma HeaderRoundTrip(h: Header, bits: seq<Bit>, plp: nat, wanted: nat)
    requires Fit(h.Fields(), WIDTHS) && |bits| >= HEADER_BITS && bits[..HEADER_BITS] == WriteHeader(h)
    ensures DataFieldLength(bits) == h.dfl && SyncDistance(bits) == h.syncd
    ensures var v := Judge(bits, plp, wanted);
            && (v.Sent? <==> plp == wanted && h.syncd != NO_PACKET_STARTS)
            && !v.CrcError? && !v.NormalMode? && (v.OtherPlp? <==> plp != wanted)
  {
    hide Fields, WriteAll, Total, Fit, DataFieldLength, SyncDistance, Judge, HeaderBits, ModeByte, Crc8.Diff, Crc8.Left;
    FieldsFirst(h, bits);
    HeaderPlaces(bits);
    var header := BytesOf(WriteFields(h));
    var mode := ModeByte(WriteFields(h));
    HeaderAsBytes(header, mode, WriteFields(h));
    HeadersAccepted(header, mode, bits, plp, wanted);
    ModeIsFlipped(header, WriteFields(h));
    Crc8.FlippedDiffers(Crc8.Fold(header));
  }

  lemma FieldsFirst(h: Header, bits: seq<Bit>)
    requires Fit(h.Fields(), WIDTHS) && |bits| >= HEADER_BITS && bits[..HEADER_BITS] == WriteHeader(h)
    ensures Total(WIDTHS) == FIELD_BITS && Fields(bits, 0, WIDTHS) == h.Fields()
  {
    hide Fields, WriteAll, Total, Fit, HeaderBits, ModeByte;
    WidthsTotal();
    assert bits[0..0 + FIELD_BITS] == bits[..HEADER_BITS][..FIELD_BITS] == WriteFields(h);
    FieldsReadBack(bits, 0, h.Fields(), WIDTHS);
  }

  /** Bits in whole bytes are those of some bytes. */
  lemma {:induction false} BytesOf(bits: seq<Bit>) returns (bytes: seq<bv8>)
    requires |bits| % 8 == 0
    ensures 8 * |bytes| == |bits| && HeaderBits(bytes) == bits && Crc8.BitString(bytes) == Bools(bits)
  {
    if bits == [] {
      bytes := [];
    } else {
      var n := |bits| - 8;
      var front := BytesOf(bits[..n]);
      var t := ByteOfBits(Bools(bits[n..]));
      bytes := front + [t];
      assert bytes[..|front|] == front;
      hide Crc8.BitsOf;
      assert Crc8.BitString(bytes) == Bools(bits[..n]) + Bools(bits[n..]) == Bools(bits);
    }
  }

  lemma ByteOfBits(b: seq<bool>) returns (t: bv8)
    requires |b| == 8
    ensures Crc8.BitsOf(t) == b
  {
    hide *;
    var x7, x6, x5, x4 := Placed(b[0], 0x80), Placed(b[1], 0x40), Placed(b[2], 0x20), Placed(b[3], 0x10);
    var x3, x2, x1, x0 := Placed(b[4], 0x08), Placed(b[5], 0x04), Placed(b[6], 0x02), Placed(b[7], 0x01);
    t := x7 | x6 | x5 | x4 | x3 | x2 | x1 | x0;
    Masked(x7, x6, x5, x4, x3, x2, x1, x0);
    BitsAre(t, b);
  }

  lemma BitsAre(t: bv8, b: seq<bool>)
    requires |b| == 8
    requires (t & 0x80 != 0 <==> b[0]) && (t & 0x40 != 0 <==> b[1]) && (t & 0x20 != 0 <==> b[2]) && (t & 0x10 != 0 <==> b[3])
    requires (t & 0x08 != 0 <==> b[4]) && (t & 0x04 != 0 <==> b[5]) && (t & 0x02 != 0 <==> b[6]) && (t & 0x01 != 0 <==> b[7])
    ensures Crc8.BitsOf(t) == b
  {
  }

  function Placed(b: bool, mask: bv8): (x: bv8)
    ensures x == 0 || x == mask
    ensures mask != 0 ==> (x != 0 <==> b)
  {
    if b then mask else 0
  }

  lemma Masked(x7: bv8, x6: bv8, x5: bv8, x4: bv8, x3: bv8, x2: bv8, x1: bv8, x0: bv8)
    requires (x7 == 0 || x7 == 0x80) && (x6 == 0 || x6 == 0x40) && (x5 == 0 || x5 == 0x20) && (x4 == 0 || x4 == 0x10)
    requires (x3 == 0 || x3 == 0x08) && (x2 == 0 || x2 == 0x04) && (x1 == 0 || x1 == 0x02) && (x0 == 0 || x0 == 0x01)
    ensures var t := x7 | x6 | x5 | x4 | x3 | x2 | x1 | x0;
            && t & 0x80 == x7 && t & 0x40 == x6 && t & 0x20 == x5 && t & 0x10 == x4
            && t & 0x08 == x3 && t & 0x04 == x2 && t & 0x02 == x1 && t & 0x01 == x0
  {
  }

  lemma HeaderAsBytes(header: seq<bv8>, mode: bv8, fields: seq<Bit>)
    requires HeaderBits(header) == fields
    ensures HeaderBits(header + [mode]) == fields + HeaderBits([mode])
  {
    hide Crc8.BitString, Crc8.BitsOf;
    OneByte(mode);
    OneMoreByte(header, mode);
    var a, b, c := HeaderBits(header + [mode]), HeaderBits(header), HeaderBits([mode]);
    var n := |b|;
    forall i | 0 <= i < |a| ensures a[i] == (b + c)[i] {
      if i < n {
        assert Crc8.BitString(header + [mode])[i] == Crc8.BitString(header)[i];
      } else {
        assert Crc8.BitString(header + [mode])[i] == Crc8.BitString([mode])[i - n];
      }
    }
  }

  lemma OneMoreByte(header: seq<bv8>, mode: bv8)
    ensures Crc8.BitString(header + [mode]) == Crc8.BitString(header) + Crc8.BitsOf(mode)
  {
    hide Crc8.BitsOf;
    assert (header + [mode])[..|header|] == header;
  }

  lemma ModeIsFlipped(header: seq<bv8>, fields: seq<Bit>)
    requires Crc8.BitString(header) == Bools(fields)
    ensures ModeByte(fields) == Crc8.Diff(Crc8.Fold(header), 1)
  {
    hide Crc8.Diff, Crc8.Left, Crc8.Fold, Crc8.BitString;
    Crc8.FoldIsCrc(header);
  }

  // ---- The data field ----

  /** Bytes as bits, most significant first. */
  function WriteBytes(bytes: seq<Byte>): (bits: seq<Bit>)
    ensures |bits| == 8 * |bytes|
  {
    if bytes == [] then [] else WriteBytes(bytes[..|bytes| - 1]) + Write(bytes[|bytes| - 1], 8)
  }

  /** Bytes written are read back, whatever follows them. */
  lemma {:induction false} BytesReadBack(bytes: seq<Byte>, bits: seq<Bit>)
    requires 8 * |bytes| <= |bits| && bits[..8 * |bytes|] == WriteBytes(bytes)
    ensures BytesAt(bits, 0, |bytes|) == bytes
    decreases |bytes|
  {
    if bytes != [] {
      var last := |bytes| - 1;
      LastByteWritten(bytes, bits);
      hide WriteBytes, ByteAt;
      BytesReadBack(bytes[..last], bits);
    }
  }

  lemma LastByteWritten(bytes: seq<Byte>, bits: seq<Bit>)
    requires bytes != [] && 8 * |bytes| <= |bits| && bits[..8 * |bytes|] == WriteBytes(bytes)
    ensures var last := |bytes| - 1;
            bits[..8 * last] == WriteBytes(bytes[..last]) && ByteAt(bits, 8 * last) == bytes[last]
  {
    hide *;
    var last := |bytes| - 1;
    var s, w := WriteBytes(bytes[..last]), Write(bytes[last], 8);
    WriteLast(bytes);
    FrontAndBack(bits, s, w);
    NumberElsewhere(bits, 8 * last, w, 0, 8);
    EightBits();
    NumberOfWrite(bytes[last], 8);
    ByteIsNumber(bits, 8 * last);
  }

  lemma WriteLast(bytes: seq<Byte>)
    requires bytes != []
    ensures WriteBytes(bytes) == WriteBytes(bytes[..|bytes| - 1]) + Write(bytes[|bytes| - 1], 8)
  {
    hide Write;
  }

  lemma ByteIsNumber(bits: seq<Bit>, pos: nat)
    requires pos + 8 <= |bits|
    ensures ByteAt(bits, pos) == Number(bits, pos, 8)
  {
    hide Number;
  }

  lemma FrontAndBack(bits: seq<Bit>, s: seq<Bit>, w: seq<Bit>)
    requires |s| + |w| <= |bits| && bits[..|s| + |w|] == s + w
    ensures bits[..|s|] == s && bits[|s|..|s| + |w|] == w[0..0 + |w|]
  {
    assert bits[..|s|] == bits[..|s| + |w|][..|s|];
    assert bits[|s|..|s| + |w|] == bits[..|s| + |w|][|s|..];
  }

  lemma EightBits()
    ensures Pow2(8) == 256
  {
    assert Pow2(4) == 16;
  }

  /** Writing part of a stream into a data field, with the SYNCD that belongs to it and any padding, is a cut of the stream. */
  lemma CutIsWritten(stream: seq<Byte>, o: nat, len: nat, padding: seq<Bit>)
    requires o + len <= |stream| && 8 * ToBoundary(o) < 8 * len
    ensures Cut(stream, o, len, WriteBytes(stream[o..o + len]) + padding, 8 * ToBoundary(o))
  {
    hide ToBoundary, BytesAt, WriteBytes;
    var bits := WriteBytes(stream[o..o + len]);
    assert (bits + padding)[..8 * len] == bits;
    BytesReadBack(stream[o..o + len], bits + padding);
  }

  // ---- Runs of frames ----

  /** A frame on the channel, for one PLP. */
  datatype Frame = Frame(header: Header, field: seq<Bit>, plp: nat) {
    ghost predicate Ok() {
      Fit(header.Fields(), WIDTHS) && header.dfl <= |field| && Readable(field, header.syncd)
    }

    function Bits(): seq<Bit> { WriteHeader(header) + field }

    predicate For(wanted: nat) { plp == wanted && header.syncd != NO_PACKET_STARTS }
  }

  /** A frame is read by its own header. */
  lemma FrameReceived(st: Framer, f: Frame, wanted: nat)
    requires st.Ok() && f.Ok()
    ensures Receivable(f.Bits(), f.plp, wanted)
    ensures Received(st, f.Bits(), f.plp, wanted)
            == if f.For(wanted) then Deframe(st, f.field, f.header.syncd, f.header.dfl) else Outcome(st, [])
  {
    var bits := f.Bits();
    hide Deframe, Judge, DataFieldLength, SyncDistance, Fit, WriteHeader;
    assert bits[..HEADER_BITS] == WriteHeader(f.header) && bits[HEADER_BITS..] == f.field;
    HeaderRoundTrip(f.header, bits, f.plp, wanted);
  }

  /** The data fields of the frames that are de-framed. */
  function FieldsFor(frames: seq<Frame>, wanted: nat): seq<Field>
  {
    if frames == [] then []
    else
      var f := frames[|frames| - 1];
      FieldsFor(frames[..|frames| - 1], wanted)
      + if f.For(wanted) then [Field(f.field, f.header.syncd, f.header.dfl)] else []
  }

  ghost predicate AllOk(frames: seq<Frame>)
  {
    forall i :: 0 <= i < |frames| ==> frames[i].Ok()
  }

  /** The de-framer after a run of frames, with all it has sent. */
  ghost function ReceivedAll(st: Framer, frames: seq<Frame>, wanted: nat): (r: Outcome)
    requires st.Ok() && AllOk(frames)
    ensures r.st.Ok()
  {
    if frames == [] then Outcome(st, [])
    else
      var last := |frames| - 1;
      var before := ReceivedAll(st, frames[..last], wanted);
      FrameReceived(before.st, frames[last], wanted);
      var r := Received(before.st, frames[last].Bits(), frames[last].plp, wanted);
      Outcome(r.st, before.out + r.out)
  }

  /** The frames for other PLPs and those no packet starts in leave no trace. */
  lemma {:induction false} RunIsDeframed(st: Framer, frames: seq<Frame>, wanted: nat)
    requires st.Ok() && AllOk(frames)
    ensures var fields := FieldsFor(frames, wanted);
            && (forall i :: 0 <= i < |fields| ==> fields[i].Ok())
            && ReceivedAll(st, frames, wanted) == DeframeAll(st, fields)
  {
    if frames != [] {
      var last := |frames| - 1;
      var f, fields := frames[last], FieldsFor(frames[..last], wanted);
      hide Deframe, Received, Receivable, Fit, WriteHeader, Readable;
      RunIsDeframed(st, frames[..last], wanted);
      var before := ReceivedAll(st, frames[..last], wanted);
      FrameReceived(before.st, f, wanted);
      if f.For(wanted) {
        var more := fields + [Field(f.field, f.header.syncd, f.header.dfl)];
        assert more[..|fields|] == fields;
      } else {
        assert fields + [] == fields;
        assert before.out + [] == before.out;
      }
    }
  }

  /**
   From frames to packets: when the fields of the frames for the wanted PLP are consecutive cuts of a stream of packets, in each of
   which a packet starts, whatever frames come between them, exactly the packets from the first boundary on come out.
   */
  lemma FramesRestored(ps: seq<seq<Byte>>, offsets: seq<nat>, frames: seq<Frame>, wanted: nat)
    requires Packets(ps) && AllOk(frames) && |FieldsFor(frames, wanted)| > 0 && Cuts(Stripped(ps), offsets, FieldsFor(frames, wanted))
    requires offsets[1] - offsets[0] - ToBoundary(offsets[0]) >= PACKET && offsets[|FieldsFor(frames, wanted)|] == 187 * |ps|
    ensures var r, first := ReceivedAll(FRESH, frames, wanted), (offsets[0] + ToBoundary(offsets[0])) / 187;
            first <= |ps| && r.out + r.st.pending == Concat(ps[first..])
  {
    hide ReceivedAll, DeframeAll, FieldsFor, AllOk, Cuts, Concat, Stripped, ToBoundary;
    RunIsDeframed(FRESH, frames, wanted);
    PacketsRestored(ps, offsets, FieldsFor(frames, wanted));
  }
}
