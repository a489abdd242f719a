/**
 The baseband de-framer's high-efficiency-mode branch: split packets are completed across
 frames, sync bytes are put back, and a bad SYNCD is resynchronised by skipping or padding.
 */
module BbDeHeader {
  import opened Bits
  import opened PacketStream
  import opened BitFields
  import Crc8

  const PACKET_BITS := 1504   // a transport packet
  const OUT_SIZE := 7106      // 53840 / 8 + 2 * PACKET
  const MIN_FRAME := 7032     // the shortest and the longest baseband frame, header included
  const MAX_FRAME := 53840
  const MAX_DFL := 53760      // the longest data field
  const FILL: Byte := 0xF0

  /** The byte whose bits, highest first, start at `pos`. */
  function ByteAt(bits: seq<Bit>, pos: nat): Byte
    requires pos + 8 <= |bits|
  {
    NumberBelow(bits, pos, 8);
    assert Pow2(8) == 256 by { assert Pow2(4) == 16; }
    Number(bits, pos, 8)
  }

  function BytesAt(bits: seq<Bit>, pos: nat, n: nat): (s: seq<Byte>)
    requires pos + 8 * n <= |bits|
    ensures |s| == n
  {
    if n == 0 then [] else BytesAt(bits, pos, n - 1) + [ByteAt(bits, pos + 8 * (n - 1))]
  }

  // ---- What a frame does ----

  /** The state kept between frames; `pending` is the part of a packet read ahead when `split`. */
  datatype Framer = Framer(split: bool, idx: nat, pending: seq<Byte>) {
    predicate Ok() {
      idx <= PACKET && |pending| <= PACKET && (!split ==> pending == [])
    }
  }

  /** The state that keeps `tail`, read from position `idx` of a packet on. */
  function KeptFrom(idx: nat, tail: seq<Byte>): (st: Framer)
    requires idx <= PACKET && |tail| < PACKET
    ensures st.Ok()
  {
    TailFits(idx, tail);
    Framer(true, AfterFrom(idx, |tail|), InsertFrom(idx, tail))
  }

  /** Before any packet nothing is put in; the first whole packet starts as at a boundary. */
  function InsertFrom(idx: nat, bytes: seq<Byte>): seq<Byte>
    requires idx <= PACKET
  {
    if idx == 0 then bytes else Insert(idx, bytes)
  }

  function AfterFrom(idx: nat, n: nat): nat
    requires idx <= PACKET
  {
    if idx == 0 then n else After(idx, n)
  }

  function Fill(n: nat): (s: seq<Byte>)
    ensures |s| == n && forall i :: 0 <= i < n ==> s[i] == FILL
  {
    if n == 0 then [] else Fill(n - 1) + [FILL]
  }

  /** What the part of the field before SYNCD gives: bytes out, the position in the packet, and where reading goes on. */
  datatype Start = Start(out: seq<Byte>, idx: nat, pos: nat)

  /** The bytes that complete a packet can be read: they end before SYNCD, and are never more than a packet. */
  predicate Readable(field: seq<Bit>, syncd: nat)
  {
    syncd <= |field| || |field| >= PACKET_BITS
  }

  function Head(st: Framer, field: seq<Bit>, syncd: nat): (h: Start)
    requires st.Ok() && Readable(field, syncd)
    ensures h.idx <= PACKET && h.pos <= syncd
  {
    var need, given := PACKET - st.idx, syncd / 8;
    if !st.split then Start([], st.idx, syncd)
    else if need == given then Start(st.pending + BytesAt(field, 0, need), PACKET, 8 * need)
    else if need < given then Start(st.pending + BytesAt(field, 0, need), PACKET, syncd)
    else Start(st.pending + BytesAt(field, 0, given) + Fill(need - given), PACKET, 8 * given)
  }

  /** Bytes put out directly while at least a packet's worth of `left` bits remains. */
  function Direct(left: nat): (m: nat)
    ensures 8 * m <= left && left - 8 * m < PACKET_BITS && (m > 0 <==> left >= PACKET_BITS)
    ensures m > 0 ==> 8 * m <= left - PACKET_BITS + 8
  {
    if left < PACKET_BITS then 0 else (left - PACKET_BITS) / 8 + 1
  }

  /** Bytes read after those and kept for the next frame. */
  function Kept(left: nat): (n: nat)
    ensures 8 * Direct(left) + 8 * n <= left && n < PACKET
  {
    (left - 8 * Direct(left)) / 8
  }

  /** The position direct output starts from. */
  function Boundary(idx: nat): nat
  {
    if idx == 0 then PACKET else idx
  }

  datatype Outcome = Outcome(st: Framer, out: seq<Byte>)

  /** One data field of `dfl` bits: what goes out, and what is kept for the next; nothing is read after a SYNCD at or past its end. */
  function Deframe(st: Framer, field: seq<Bit>, syncd: nat, dfl: nat): (r: Outcome)
    requires st.Ok() && Readable(field, syncd) && dfl <= |field|
    ensures r.st.Ok()
  {
    var h := Head(st, field, syncd);
    if dfl <= syncd then Outcome(Framer(false, h.idx, []), h.out) else AfterHead(h, field, dfl - syncd)
  }

  /** The `left` bits of a field from `h.pos` on. */
  function AfterHead(h: Start, field: seq<Bit>, left: nat): (r: Outcome)
    requires h.idx <= PACKET && left > 0 && h.pos + left <= |field|
    ensures r.st.Ok()
  {
    var m := Direct(left);
    var direct, tail := BytesAt(field, h.pos, m), BytesAt(field, h.pos + 8 * m, Kept(left));
    var idx := if m == 0 then h.idx else After(Boundary(h.idx), m);
    Outcome(KeptFrom(idx, tail),
            if m == 0 then h.out else h.out + Insert(Boundary(h.idx), direct))
  }

  lemma TailFits(idx: nat, tail: seq<Byte>)
    requires idx <= PACKET && |tail| < PACKET
    ensures |InsertFrom(idx, tail)| <= PACKET && AfterFrom(idx, |tail|) <= PACKET
  {
    if idx > 0 {
      var k := InsertPosition(idx, tail);
    }
  }

  /** The field's bytes after SYNCD: those put out directly, then those kept. */
  function Payload(field: seq<Bit>, pos: nat, left: nat): seq<Byte>
    requires pos + left <= |field|
  {
    var m := Direct(left);
    BytesAt(field, pos, m) + BytesAt(field, pos + 8 * m, Kept(left))
  }

  /** Once packets have begun, output and pending bytes together are the payload with sync bytes put in. */
  lemma PacketsJoin(h: Start, field: seq<Bit>, left: nat)
    requires h.idx <= PACKET && h.pos + left <= |field| && left > 0
    requires h.idx > 0 || left >= PACKET_BITS
    ensures var r, p, idx := AfterHead(h, field, left), Payload(field, h.pos, left), Boundary(h.idx);
            r.st.split && r.st.idx == After(idx, |p|) && r.out + r.st.pending == h.out + Insert(idx, p)
  {
    hide Insert, After, Direct, Kept, BytesAt;
    var m, idx := Direct(left), Boundary(h.idx);
    var direct, tail := BytesAt(field, h.pos, m), BytesAt(field, h.pos + 8 * m, Kept(left));
    if m == 0 {
      assert direct + tail == tail;
    } else {
      InsertAppend(idx, direct, tail);
      AfterAdds(idx, m, |tail|);
    }
  }

  /**
   What the head of a field puts out while a packet is pending: the pending bytes, then exactly as many as the packet still needs,
   those before SYNCD from the field and the rest filled in. Reading goes on at SYNCD, or at its last whole byte if it comes too early.
   */
  lemma HeadCompletesPacket(st: Framer, field: seq<Bit>, syncd: nat)
    requires st.Ok() && Readable(field, syncd)
    ensures var h, n := Head(st, field, syncd), |st.pending|;
            if st.split then
              && |h.out| == n + PACKET - st.idx && h.out[..n] == st.pending && h.idx == PACKET
              && (forall i :: 0 <= i < PACKET - st.idx && 8 * i + 8 <= syncd ==> 8 * i + 8 <= |field| && h.out[n + i] == ByteAt(field, 8 * i))
              && (forall i :: 0 <= i < PACKET - st.idx && 8 * i + 8 > syncd ==> h.out[n + i] == FILL)
              && h.pos == (if syncd / 8 > PACKET - st.idx then syncd else syncd - syncd % 8)
            else h == Start([], st.idx, syncd)
  {
    if st.split {
      var need, given := PACKET - st.idx, syncd / 8;
      var k := if need <= given then need else given;
      var bytes, n := BytesAt(field, 0, k), |st.pending|;
      hide BytesAt, ByteAt;
      forall i | 0 <= i < k ensures bytes[i] == ByteAt(field, 8 * i) {
        ByteOf(field, k, i);
      }
      assert Head(st, field, syncd).out == st.pending + bytes + Fill(need - k) by {
        NoFill(st.pending + bytes);
      }
    }
  }

  lemma NoFill(s: seq<Byte>)
    ensures s + Fill(0) == s
  {
  }

  lemma HeadFits(st: Framer, field: seq<Bit>, syncd: nat)
    requires st.Ok() && Readable(field, syncd)
    ensures |Head(st, field, syncd).out| <= 2 * PACKET
  {
  }

  /** No frame puts out more than the buffer holds, whatever was left pending before it. */
  lemma OutputFits(st: Framer, field: seq<Bit>, syncd: nat, dfl: nat)
    requires st.Ok() && Readable(field, syncd) && dfl <= |field| && dfl <= MAX_DFL
    ensures |Deframe(st, field, syncd, dfl).out| <= OUT_SIZE
  {
    hide Head, Insert, After, Direct, Kept, BytesAt;
    HeadFits(st, field, syncd);
    if syncd < dfl {
      var h, m := Head(st, field, syncd), Direct(dfl - syncd);
      InsertLength(Boundary(h.idx), BytesAt(field, h.pos, m));
    }
  }

  // ---- Alignment: sync bytes stay where they belong whatever SYNCD says ----

  ghost predicate SyncsAt(h: seq<Byte>)
  {
    forall i :: 0 <= i < |h| && i % PACKET == 0 ==> h[i] == SYNC
  }

  /** What has been sent and what is pending form whole packets up to position `st.idx`. */
  ghost predicate Aligned(st: Framer, sent: seq<Byte>)
  {
    && st.Ok()
    && (st.idx == 0 ==> !st.split && sent == [])
    && |sent + st.pending| % PACKET == st.idx % PACKET
    && SyncsAt(sent + st.pending)
    && (!st.split ==> st.idx == 0 || st.idx == PACKET)
  }

  lemma OneMore(h: seq<Byte>, x: Byte)
    requires SyncsAt(h) && (|h| % PACKET == 0 ==> x == SYNC)
    ensures SyncsAt(h + [x])
  {
  }

  lemma NextMod(n: nat, m: nat)
    requires n % PACKET == m % PACKET
    ensures (n + 1) % PACKET == (m + 1) % PACKET
  {
  }

  lemma InsertNone(idx: nat, h: seq<Byte>)
    requires 1 <= idx <= PACKET
    ensures h + Insert(idx, []) == h && After(idx, 0) == idx
  {
    assert h + [] == h;
  }

  lemma InsertOneMore(idx: nat, h: seq<Byte>, bytes: seq<Byte>)
    requires 1 <= idx <= PACKET && bytes != []
    ensures var last := |bytes| - 1;
            var at, g := After(idx, last), h + Insert(idx, bytes[..last]);
            && After(idx, |bytes|) == (if at == PACKET then 2 else at + 1)
            && h + Insert(idx, bytes) == if at == PACKET then (g + [SYNC]) + [bytes[last]] else g + [bytes[last]]
  {
  }

  lemma {:induction false} InsertKeepsSyncs(idx: nat, h: seq<Byte>, bytes: seq<Byte>)
    requires 1 <= idx <= PACKET && |h| % PACKET == idx % PACKET && SyncsAt(h)
    ensures SyncsAt(h + Insert(idx, bytes))
    ensures |h + Insert(idx, bytes)| % PACKET == After(idx, |bytes|) % PACKET
    decreases |bytes|
  {
    hide SyncsAt, Insert, After;
    if bytes == [] {
      InsertNone(idx, h);
    } else {
      var last := |bytes| - 1;
      var at := After(idx, last);
      var g := h + Insert(idx, bytes[..last]);
      InsertKeepsSyncs(idx, h, bytes[..last]);
      InsertOneMore(idx, h, bytes);
      NextMod(|g|, at);
      if at == PACKET {
        OneMore(g, SYNC);
        NextMod(|g| + 1, 1);
        OneMore(g + [SYNC], bytes[last]);
      } else {
        OneMore(g, bytes[last]);
      }
    }
  }

  /** Completing a packet with any bytes keeps the sync bytes in place and ends on a boundary. */
  lemma CompletionKeepsSyncs(idx: nat, h: seq<Byte>, x: seq<Byte>)
    requires 1 <= idx <= PACKET && |h| % PACKET == idx % PACKET && SyncsAt(h) && |x| == PACKET - idx
    ensures SyncsAt(h + x) && |h + x| % PACKET == 0
  {
    forall i | 0 <= i < |h + x| && i % PACKET == 0 ensures (h + x)[i] == SYNC {
      assert i < |h|;
    }
  }

  /** Before the first packet, the frame brings no packet data or at least a whole packet's worth. */
  predicate FirstFieldLongEnough(st: Framer, syncd: nat, dfl: nat)
  {
    st.idx == 0 ==> dfl <= syncd || dfl - syncd >= PACKET_BITS
  }

  lemma HeadAligned(st: Framer, field: seq<Bit>, syncd: nat, sent: seq<Byte>)
    requires Aligned(st, sent) && Readable(field, syncd)
    ensures var h := Head(st, field, syncd);
            SyncsAt(sent + h.out) && |sent + h.out| % PACKET == 0 && (h.idx == PACKET || (h.idx == st.idx == 0 && !st.split && sent + h.out == []))
  {
    var h := Head(st, field, syncd);
    if st.split {
      var x := h.out[|st.pending|..];
      assert sent + h.out == sent + st.pending + x;
      CompletionKeepsSyncs(st.idx, sent + st.pending, x);
    } else {
      assert sent + [] == sent;
    }
  }

  /**
   Alignment under any SYNCD: every frame keeps each sync byte at a multiple of 188 of all that
   is sent and pending, even when SYNCD disagrees with the pending packet and bytes are skipped or filled in.
   */
  lemma DeframeAligned(st: Framer, field: seq<Bit>, syncd: nat, dfl: nat, sent: seq<Byte>)
    requires Aligned(st, sent) && Readable(field, syncd) && dfl <= |field| && FirstFieldLongEnough(st, syncd, dfl)
    ensures var r := Deframe(st, field, syncd, dfl); Aligned(r.st, sent + r.out)
  {
    hide Insert, After, SyncsAt, Head, Payload, Direct, Kept, BytesAt;
    var h, r := Head(st, field, syncd), Deframe(st, field, syncd, dfl);
    HeadAligned(st, field, syncd, sent);
    if syncd < dfl {
      PacketsJoin(h, field, dfl - syncd);
      var p, idx := Payload(field, h.pos, dfl - syncd), Boundary(h.idx);
      InsertKeepsSyncs(idx, sent + h.out, p);
      Regroup(sent, r.out, r.st.pending, h.out, Insert(idx, p));
    } else {
      assert sent + r.out + r.st.pending == sent + h.out;
    }
  }

  lemma Regroup(s: seq<Byte>, a: seq<Byte>, b: seq<Byte>, c: seq<Byte>, d: seq<Byte>)
    requires a + b == c + d
    ensures (s + a) + b == (s + c) + d
  {
    assert (s + a) + b == s + (a + b);
    assert (s + c) + d == s + (c + d);
  }

  // ---- Round trip: correct SYNCD gives back the packets ----

  /** Bytes from position `o` of a stream of stripped packets to the next packet boundary. */
  function ToBoundary(o: nat): nat
  {
    (187 - o % 187) % 187
  }

  /** `field` starts with the bytes of `stream` from `o` to `o + len`, with the SYNCD the transmitter computes; padding may follow. */
  ghost predicate Cut(stream: seq<Byte>, o: nat, len: nat, field: seq<Bit>, syncd: nat)
  {
    && o + len <= |stream| && 8 * len <= |field|
    && BytesAt(field, 0, len) == stream[o..o + len]
    && syncd == 8 * ToBoundary(o) < 8 * len
  }

  /** The receiver has restored the packets of `stream` from the boundary `s` up to position `o`. */
  ghost predicate InStep(st: Framer, sent: seq<Byte>, stream: seq<Byte>, s: nat, o: nat)
  {
    && s < o <= |stream| && s % 187 == 0
    && st.split && st.idx == After(PACKET, o - s)
    && sent + st.pending == Insert(PACKET, stream[s..o])
  }

  lemma {:induction false} BytesSlice(bits: seq<Bit>, n: nat, k: nat, j: nat)
    requires 8 * n <= |bits| && k + j <= n
    ensures BytesAt(bits, 0, n)[k..k + j] == BytesAt(bits, 8 * k, j)
    decreases j
  {
    if j > 0 {
      BytesSlice(bits, n, k, j - 1);
      ByteOf(bits, n, k + j - 1);
    }
  }

  lemma {:induction false} ByteOf(bits: seq<Bit>, n: nat, i: nat)
    requires 8 * n <= |bits| && i < n
    ensures BytesAt(bits, 0, n)[i] == ByteAt(bits, 8 * i)
    decreases n
  {
    if i + 1 < n {
      ByteOf(bits, n - 1, i);
    }
  }

  lemma DirectAndKept(n: nat)
    ensures Direct(8 * n) + Kept(8 * n) == n
  {
  }

  /** The payload from byte `k` of a cut field is the rest of its bytes. */
  lemma PayloadIsRest(field: seq<Bit>, len: nat, k: nat)
    requires 8 * len <= |field| && k < len
    ensures Payload(field, 8 * k, 8 * (len - k)) == BytesAt(field, 0, len)[k..]
  {
    hide BytesAt, Direct, Kept;
    var left := 8 * (len - k);
    var m, n := Direct(left), Kept(left);
    DirectAndKept(len - k);
    BytesSlice(field, len, k, m);
    BytesSlice(field, len, k + m, n);
    var bytes := BytesAt(field, 0, len);
    assert bytes[k..] == bytes[k..k + m] + bytes[k + m..k + m + n];
  }

  /** A field cut at `o` starts in the packet at the position a synchronised receiver has reached. */
  lemma BoundaryAgrees(s: nat, o: nat)
    requires s < o && s % 187 == 0
    ensures PACKET - After(PACKET, o - s) == ToBoundary(o)
  {
    AfterBoundary(o - s);
    assert (o - s) % 187 == o % 187;
  }

  /** When SYNCD agrees with the pending packet, the field's first bytes complete it. */
  lemma HeadCompletes(st: Framer, field: seq<Bit>, b: nat)
    requires st.Ok() && st.split && st.idx + b == PACKET && 8 * b <= |field|
    ensures Head(st, field, 8 * b) == Start(st.pending + BytesAt(field, 0, b), PACKET, 8 * b)
  {
    hide BytesAt;
  }

  /** A synchronised receiver stays synchronised over any correctly signalled field. */
  lemma FieldInStep(st: Framer, sent: seq<Byte>, stream: seq<Byte>, s: nat, o: nat, len: nat, field: seq<Bit>, syncd: nat)
    requires st.Ok() && InStep(st, sent, stream, s, o) && Cut(stream, o, len, field, syncd)
    ensures var r := Deframe(st, field, syncd, 8 * len); InStep(r.st, sent + r.out, stream, s, o + len)
  {
    hide Head, Insert, After, Direct, Kept, BytesAt, Payload, ToBoundary;
    var b, bytes := ToBoundary(o), BytesAt(field, 0, len);
    BoundaryAgrees(s, o);
    var h, r := Head(st, field, syncd), Deframe(st, field, syncd, 8 * len);
    HeadCompletes(st, field, b);
    PacketsJoin(h, field, 8 * (len - b));
    PayloadIsRest(field, len, b);
    BytesSlice(field, len, 0, b);
    InsertInside(st.idx, bytes[..b]);
    assert bytes == bytes[..b] + bytes[b..];
    InsertAppend(st.idx, bytes[..b], bytes[b..]);
    AfterAdds(st.idx, b, len - b);
    AfterAdds(PACKET, o - s, len);
    InsertAppend(PACKET, stream[s..o], bytes);
    assert stream[s..o] + bytes == stream[s..o + len];
    Pieces(sent, st.pending, r.out, r.st.pending, bytes[..b], Insert(PACKET, bytes[b..]));
  }

  /**
   Resynchronisation. Whatever the packet in progress and whether or not SYNCD agrees with it, one correctly
   signalled field puts the receiver in step from its first packet boundary on: only the bytes of that one packet
   may be wrong.
   */
  lemma FieldResynchronises(st: Framer, stream: seq<Byte>, o: nat, len: nat, field: seq<Bit>, syncd: nat)
    requires st.Ok() && (st.split || st.idx == PACKET) && Cut(stream, o, len, field, syncd)
    ensures var h, r, s := Head(st, field, syncd), Deframe(st, field, syncd, 8 * len), o + ToBoundary(o);
            && h.out <= r.out && |h.out| <= |st.pending| + PACKET
            && r.out + r.st.pending == h.out + Insert(PACKET, stream[s..o + len])
            && InStep(r.st, r.out[|h.out|..], stream, s, o + len)
  {
    hide Insert, After, Direct, Kept, BytesAt, Payload, ToBoundary, Head;
    var b, bytes := ToBoundary(o), BytesAt(field, 0, len);
    var h, r := Head(st, field, syncd), Deframe(st, field, syncd, 8 * len);
    HeadEnds(st, field, b);
    PacketsJoin(h, field, 8 * (len - b));
    PayloadIsRest(field, len, b);
    assert bytes[b..] == stream[o + b..o + len];
    OnBoundary(o);
    AfterHeadExtends(h, field, 8 * (len - b));
    assert r.out[|h.out|..] + r.st.pending == (r.out + r.st.pending)[|h.out|..];
  }

  lemma HeadEnds(st: Framer, field: seq<Bit>, b: nat)
    requires st.Ok() && (st.split || st.idx == PACKET) && 8 * b <= |field|
    ensures var h := Head(st, field, 8 * b); h.idx == PACKET && h.pos == 8 * b && |h.out| <= |st.pending| + PACKET
  {
    hide BytesAt;
  }

  lemma AfterHeadExtends(h: Start, field: seq<Bit>, left: nat)
    requires h.idx <= PACKET && left > 0 && h.pos + left <= |field|
    ensures h.out <= AfterHead(h, field, left).out
  {
    hide Insert, After, Direct, Kept, BytesAt;
  }

  lemma Pieces(sent: seq<Byte>, pending: seq<Byte>, out: seq<Byte>, next: seq<Byte>, a: seq<Byte>, b: seq<Byte>)
    requires out + next == (pending + a) + b
    ensures (sent + out) + next == (sent + pending) + (a + b)
  {
    assert (sent + out) + next == sent + (out + next);
    assert sent + ((pending + a) + b) == (sent + pending) + (a + b);
  }

  /** The state of a new de-framer. */
  const FRESH := Framer(false, 0, [])

  /** The receiver locks on at the first boundary of a first field exactly when a whole packet's worth of bytes follows it. */
  lemma FirstField(stream: seq<Byte>, o: nat, len: nat, field: seq<Bit>, syncd: nat)
    requires Cut(stream, o, len, field, syncd)
    ensures var r, s := Deframe(FRESH, field, syncd, 8 * len), o + ToBoundary(o);
            r.out + r.st.pending == Insert(PACKET, stream[s..o + len]) <==> len - ToBoundary(o) >= PACKET
    ensures len - ToBoundary(o) >= PACKET ==>
              var r := Deframe(FRESH, field, syncd, 8 * len); InStep(r.st, [] + r.out, stream, o + ToBoundary(o), o + len)
  {
    hide Insert, After, Direct, BytesAt, Payload;
    var b := ToBoundary(o);
    var s := o + b;
    var h, r := Head(FRESH, field, syncd), Deframe(FRESH, field, syncd, 8 * len);
    BytesSlice(field, len, b, len - b);
    PayloadIsRest(field, len, b);
    OnBoundary(o);
    var rest := stream[s..o + len];
    assert BytesAt(field, 0, len)[b..] == rest;
    if len - b >= PACKET {
      PacketsJoin(h, field, 8 * (len - b));
      assert [] + r.out + r.st.pending == r.out + r.st.pending;
    } else {
      assert |r.out + r.st.pending| == len - b;
      var k := InsertPosition(PACKET, rest);
    }
  }

  lemma OnBoundary(o: nat)
    ensures (o + ToBoundary(o)) % 187 == 0
  {
  }

  // ---- Whole runs ----

  /** One frame as received: the bits after its header, its SYNCD and its data field length. */
  datatype Field = Field(bits: seq<Bit>, syncd: nat, dfl: nat) {
    predicate Ok() {
      dfl <= |bits| && Readable(bits, syncd)
    }
  }

  /** The de-framer after `fields`, with all it has sent. */
  function DeframeAll(st: Framer, fields: seq<Field>): (r: Outcome)
    requires st.Ok() && forall i :: 0 <= i < |fields| ==> fields[i].Ok()
    ensures r.st.Ok()
  {
    if fields == [] then Outcome(st, [])
    else
      var last := |fields| - 1;
      var before := DeframeAll(st, fields[..last]);
      assert fields[last].Ok();
      var r := Deframe(before.st, fields[last].bits, fields[last].syncd, fields[last].dfl);
      Outcome(r.st, before.out + r.out)
  }

  /** `fields` are consecutive cuts of `stream` at `offsets`. */
  ghost predicate Cuts(stream: seq<Byte>, offsets: seq<nat>, fields: seq<Field>)
  {
    && |offsets| == |fields| + 1
    && forall i :: 0 <= i < |fields| ==>
         && offsets[i] <= offsets[i + 1] && fields[i].dfl == 8 * (offsets[i + 1] - offsets[i])
         && Cut(stream, offsets[i], offsets[i + 1] - offsets[i], fields[i].bits, fields[i].syncd)
  }

  /**
   Round trip. For any stripped stream cut into data fields of any lengths with correct SYNCD,
   the first of them with a whole packet's worth of bytes after it, all that is sent, followed by
   what is pending, is the stream from the first packet boundary on with its sync bytes back.
   */
  lemma {:induction false} StreamRestored(stream: seq<Byte>, offsets: seq<nat>, fields: seq<Field>)
    requires |fields| > 0 && Cuts(stream, offsets, fields)
    requires offsets[1] - offsets[0] - ToBoundary(offsets[0]) >= PACKET
    ensures forall i :: 0 <= i < |fields| ==> fields[i].Ok()
    ensures var r := DeframeAll(FRESH, fields);
            InStep(r.st, r.out, stream, offsets[0] + ToBoundary(offsets[0]), offsets[|fields|])
  {
    hide InStep, Deframe, Cut, ToBoundary;
    var last := |fields| - 1;
    CutSizes(stream, offsets, fields);
    var o, f := offsets[last], fields[last];
    var len := offsets[last + 1] - o;
    if last == 0 {
      assert fields[..0] == [];
      FirstField(stream, o, len, f.bits, f.syncd);
    } else {
      StreamRestored(stream, offsets[..last + 1], fields[..last]);
      var before := DeframeAll(FRESH, fields[..last]);
      FieldInStep(before.st, before.out, stream, offsets[0] + ToBoundary(offsets[0]), o, len, f.bits, f.syncd);
    }
  }

  /** Run by run: from any packet in progress, correct fields give the stream from the first boundary on, after what completed that packet. */
  lemma {:induction false} StreamResumed(st: Framer, stream: seq<Byte>, offsets: seq<nat>, fields: seq<Field>)
    requires st.Ok() && (st.split || st.idx == PACKET) && |fields| > 0 && Cuts(stream, offsets, fields)
    ensures fields[0].Ok() && forall i :: 0 <= i < |fields| ==> fields[i].Ok()
    ensures var h, r := Head(st, fields[0].bits, fields[0].syncd), DeframeAll(st, fields);
            && h.out <= r.out
            && InStep(r.st, r.out[|h.out|..], stream, offsets[0] + ToBoundary(offsets[0]), offsets[|fields|])
    decreases |fields|
  {
    hide InStep, Deframe, Cut, ToBoundary, Head;
    var last := |fields| - 1;
    CutSizes(stream, offsets, fields);
    var o, f := offsets[last], fields[last];
    var len := offsets[last + 1] - o;
    if last == 0 {
      assert fields[..0] == [];
      FieldResynchronises(st, stream, o, len, f.bits, f.syncd);
      NothingBefore(st, fields);
    } else {
      StreamResumed(st, stream, offsets[..last + 1], fields[..last]);
      var before := DeframeAll(st, fields[..last]);
      var k := |Head(st, fields[0].bits, fields[0].syncd).out|;
      FieldInStep(before.st, before.out[k..], stream, offsets[0] + ToBoundary(offsets[0]), o, len, f.bits, f.syncd);
      var r := DeframeAll(st, fields);
      assert r.out[k..] == before.out[k..] + Deframe(before.st, f.bits, f.syncd, f.dfl).out;
    }
  }

  lemma NothingBefore(st: Framer, fields: seq<Field>)
    requires st.Ok() && |fields| == 1 && fields[0].Ok()
    ensures DeframeAll(st, fields) == Deframe(st, fields[0].bits, fields[0].syncd, fields[0].dfl)
  {
    hide Deframe;
    assert fields[..0] == [];
  }

  lemma CutSizes(stream: seq<Byte>, offsets: seq<nat>, fields: seq<Field>)
    requires Cuts(stream, offsets, fields)
    ensures forall i :: 0 <= i < |fields| ==> fields[i].Ok() && fields[i].dfl == 8 * (offsets[i + 1] - offsets[i])
  {
    hide BytesAt, ToBoundary;
    forall i | 0 <= i < |fields| ensures fields[i].Ok() && fields[i].dfl == 8 * (offsets[i + 1] - offsets[i]) {
      assert Cut(stream, offsets[i], offsets[i + 1] - offsets[i], fields[i].bits, fields[i].syncd);
    }
  }

  /** When the stream is whole packets, received to its end, exactly those packets from the first boundary on come out. */
  lemma PacketsRestored(ps: seq<seq<Byte>>, offsets: seq<nat>, fields: seq<Field>)
    requires PacketStream.Packets(ps) && |fields| > 0 && Cuts(Stripped(ps), offsets, fields)
    requires offsets[1] - offsets[0] - ToBoundary(offsets[0]) >= PACKET && offsets[|fields|] == 187 * |ps|
    ensures forall i :: 0 <= i < |fields| ==> fields[i].Ok()
    ensures var r, first := DeframeAll(FRESH, fields), (offsets[0] + ToBoundary(offsets[0])) / 187;
            first <= |ps| && r.out + r.st.pending == Concat(ps[first..])
  {
    hide DeframeAll, Cut, ToBoundary, InStep, Stripped;
    StreamRestored(Stripped(ps), offsets, fields);
    var r := DeframeAll(FRESH, fields);
    InStepRestores(ps, r.st, r.out, offsets[0] + ToBoundary(offsets[0]));
  }

  lemma InStepRestores(ps: seq<seq<Byte>>, st: Framer, sent: seq<Byte>, s: nat)
    requires PacketStream.Packets(ps) && InStep(st, sent, Stripped(ps), s, 187 * |ps|)
    ensures s / 187 <= |ps| && sent + st.pending == Concat(ps[s / 187..])
  {
    hide Insert, After, Stripped, Restore, Concat;
    var k, bytes := s / 187, Stripped(ps);
    assert s == 187 * k && k <= |ps| && bytes[s..187 * |ps|] == bytes[s..];
    assert sent + st.pending == Insert(PACKET, bytes[s..]);
    StrippedFrom(ps, k);
    InsertRestores(bytes[s..]);
    RestoreStripped(ps[k..]);
  }

  lemma {:induction false} StrippedFrom(ps: seq<seq<Byte>>, k: nat)
    requires PacketStream.Packets(ps) && k <= |ps|
    ensures Stripped(ps)[187 * k..] == Stripped(ps[k..])
    decreases k
  {
    if k == 0 {
      assert ps[0..] == ps;
    } else {
      StrippedFrom(ps[1..], k - 1);
      assert ps[1..][k - 1..] == ps[k..];
      assert Stripped(ps)[187..] == Stripped(ps[1..]);
      assert Stripped(ps)[187 * k..] == Stripped(ps)[187..][187 * (k - 1)..];
    }
  }

  /** In every run, alignment holds after every frame. */
  lemma {:induction false} AlwaysAligned(fields: seq<Field>)
    requires forall i :: 0 <= i < |fields| ==> fields[i].Ok()
    requires forall i :: 0 <= i < |fields| ==>
               FirstFieldLongEnough(DeframeAll(FRESH, fields[..i]).st, fields[i].syncd, fields[i].dfl)
    ensures var r := DeframeAll(FRESH, fields); Aligned(r.st, r.out)
  {
    if fields != [] {
      hide Deframe, Aligned, FirstFieldLongEnough;
      var last := |fields| - 1;
      forall i | 0 <= i < last ensures fields[..last][..i] == fields[..i] {}
      AlwaysAligned(fields[..last]);
      var before := DeframeAll(FRESH, fields[..last]);
      DeframeAligned(before.st, fields[last].bits, fields[last].syncd, fields[last].dfl, before.out);
    }
  }

  // ---- The header ----

  const HEADER_BITS := 80
  const NO_PACKET_STARTS := 65535

  function DataFieldLength(bits: seq<Bit>): nat
    requires |bits| >= HEADER_BITS
  {
    Number(bits, 32, 16)
  }

  function SyncDistance(bits: seq<Bit>): nat
    requires |bits| >= HEADER_BITS
  {
    Number(bits, 56, 16)
  }

  /** The header's register value: 0 in normal mode, the polynomial in high-efficiency mode. */
  function HeaderCheck(bits: seq<Bit>): bv8
    requires |bits| >= HEADER_BITS
  {
    Crc8.Right(seq(HEADER_BITS, i requires 0 <= i < HEADER_BITS => bits[i] == 1))
  }

  datatype Verdict = CrcError | NormalMode | OtherPlp | NoPacketStarts | Sent(length: nat)

  /** What the receiver does with a frame for PLP `plp` when it wants PLP `wanted`. */
  function Judge(bits: seq<Bit>, plp: nat, wanted: nat): Verdict
    requires |bits| >= HEADER_BITS
  {
    if HeaderCheck(bits) != 0 && HeaderCheck(bits) != Crc8.POLY then CrcError
    else if plp != wanted then OtherPlp
    else if SyncDistance(bits) == NO_PACKET_STARTS then NoPacketStarts
    else if HeaderCheck(bits) == 0 then NormalMode
    else Sent(0)
  }

  /** Frames the de-framer can read: not in normal mode, and when de-framed with their data field inside them. */
  ghost predicate Receivable(bits: seq<Bit>, plp: nat, wanted: nat)
  {
    && |bits| >= HEADER_BITS && !Judge(bits, plp, wanted).NormalMode?
    && (Judge(bits, plp, wanted).Sent? ==>
          Readable(bits[HEADER_BITS..], SyncDistance(bits)) && HEADER_BITS + DataFieldLength(bits) <= |bits|)
  }

  /** What a whole frame does: it is de-framed or it changes nothing. */
  function Received(st: Framer, bits: seq<Bit>, plp: nat, wanted: nat): (r: Outcome)
    requires st.Ok() && Receivable(bits, plp, wanted)
    ensures r.st.Ok()
  {
    if Judge(bits, plp, wanted).Sent? then Deframe(st, bits[HEADER_BITS..], SyncDistance(bits), DataFieldLength(bits))
    else Outcome(st, [])
  }

  /** A header given as bytes. */
  function HeaderBits(bytes: seq<bv8>): (bits: seq<Bit>)
    ensures |bits| == |Crc8.BitString(bytes)|
  {
    var b := Crc8.BitString(bytes);
    seq(|b|, i requires 0 <= i < |b| => if b[i] then 1 else 0)
  }

  /**
   Which headers are accepted: of nine bytes and their check byte, those whose check byte is the CRC of the others, in
   normal mode, or that CRC with its last bit flipped, in high-efficiency mode. Only the latter are de-framed, for the
   wanted PLP and where a packet starts; any other check byte is an error.
   */
  lemma HeadersAccepted(header: seq<bv8>, mode: bv8, bits: seq<Bit>, plp: nat, wanted: nat)
    requires |header| == 9 && |bits| >= HEADER_BITS && bits[..HEADER_BITS] == HeaderBits(header + [mode])
    ensures var v, crc := Judge(bits, plp, wanted), Crc8.Fold(header);
            && (v.CrcError? <==> mode != crc && mode != Crc8.Diff(crc, 1))
            && (v.Sent? <==> mode == Crc8.Diff(crc, 1) && plp == wanted && SyncDistance(bits) != NO_PACKET_STARTS)
            && (v.NormalMode? <==> mode == crc && plp == wanted && SyncDistance(bits) != NO_PACKET_STARTS)
            && (v.OtherPlp? <==> (mode == crc || mode == Crc8.Diff(crc, 1)) && plp != wanted)
            && (v.NoPacketStarts? <==> (mode == crc || mode == Crc8.Diff(crc, 1)) && plp == wanted && SyncDistance(bits) == NO_PACKET_STARTS)
  {
    hide Crc8.Fold, Crc8.Right, Crc8.BitString, Crc8.Diff, SyncDistance;
    var b := Crc8.BitString(header + [mode]);
    var c := seq(HEADER_BITS, i requires 0 <= i < HEADER_BITS => bits[i] == 1);
    assert c == b by {
      forall i | 0 <= i < |b| ensures c[i] == b[i] {
        assert bits[i] == bits[..HEADER_BITS][i] == HeaderBits(header + [mode])[i];
      }
    }
    Crc8.ModeDetection(header, mode);
    Crc8.FlippedDiffers(Crc8.Fold(header));
  }

  // ---- The object ----

  class DeFramer {
    var split: bool
    var idxPacket: nat
    var idxBuffer: nat
    const buffer: array<Byte>
    const out: array<Byte>

    ghost predicate Valid()
      reads this
    {
      && buffer.Length == PACKET && out.Length == OUT_SIZE && buffer != out
      && idxPacket <= PACKET && idxBuffer <= PACKET
    }

    ghost function State(): (st: Framer)
      requires Valid()
      reads this, buffer
      ensures st.Ok()
    {
      Framer(split, idxPacket, if split then buffer[..idxBuffer] else [])
    }

    constructor ()
      ensures Valid() && State() == FRESH
    {
      split, idxPacket, idxBuffer := false, 0, 0;
      buffer := new Byte[PACKET](_ => 0);
      out := new Byte[OUT_SIZE](_ => 0);
    }

    /**
     One baseband frame. Frames with a bad header, for another PLP or without a packet start change nothing; of a
     normal-mode frame only the verdict is promised.
     */
    method Execute(bits: seq<Bit>, plp: nat, wanted: nat) returns (verdict: Verdict)
      requires Valid() && MIN_FRAME <= |bits| <= MAX_FRAME
      requires Judge(bits, plp, wanted).Sent? ==> HEADER_BITS + DataFieldLength(bits) <= |bits|
      modifies this, buffer, out
      ensures !verdict.NormalMode? ==> Valid()
      ensures !Judge(bits, plp, wanted).Sent? ==>
                verdict == Judge(bits, plp, wanted) && (!verdict.NormalMode? ==> State() == old(State()))
      ensures Judge(bits, plp, wanted).Sent? ==>
                && verdict.Sent? && verdict.length <= out.Length
                && var r := Deframe(old(State()), bits[HEADER_BITS..], SyncDistance(bits), DataFieldLength(bits));
                   State() == r.st && out[..verdict.length] == r.out
      ensures !Judge(bits, plp, wanted).NormalMode? ==>
                && Receivable(bits, plp, wanted) && (verdict.Sent? ==> verdict.length <= out.Length)
                && Outcome(State(), if verdict.Sent? then out[..verdict.length] else []) == Received(old(State()), bits, plp, wanted)
    {
      var check := Crc8.CheckMode(seq(HEADER_BITS, i requires 0 <= i < HEADER_BITS => bits[i] == 1));
      if check != 0 && check != Crc8.POLY {
        return CrcError;
      }
      if plp != wanted {
        return OtherPlp;
      }
      var dfl := ReadNumber(bits, 32, 16);
      var syncd := ReadNumber(bits, 56, 16);
      if syncd == NO_PACKET_STARTS {
        return NoPacketStarts;
      }
      if check == 0 {
        return NormalMode;
      }
      var lenOut := HighEfficiency(bits[HEADER_BITS..], syncd, dfl);
      verdict := Sent(lenOut);
    }

    /** The high-efficiency branch: deframes one data field into `out`, which it never overruns. */
    method HighEfficiency(field: seq<Bit>, syncd: nat, dfl: nat) returns (lenOut: nat)
      requires Valid() && Readable(field, syncd) && dfl <= |field| && dfl <= MAX_DFL
      modifies this, buffer, out
      ensures Valid() && lenOut <= out.Length
      ensures var r := Deframe(old(State()), field, syncd, dfl); State() == r.st && out[..lenOut] == r.out
    {
      hide Head, BytesAt, Insert, After, Direct, Kept, InsertFrom, AfterFrom;
      ghost var h := Head(State(), field, syncd);
      var pos;
      lenOut, pos := FinishPacket(field, syncd);
      if dfl > syncd {
        var left := dfl - syncd;
        KeptIsRest(left);
        lenOut, pos, left := DirectOut(field, pos, left, lenOut);
        KeepRest(field, pos, left / 8);
      }
    }

    /** Puts out the pending part of a packet and completes it up to SYNCD, skipping or filling if they disagree. */
    method FinishPacket(field: seq<Bit>, syncd: nat) returns (lenOut: nat, pos: nat)
      requires Valid() && Readable(field, syncd)
      modifies this, out
      ensures Valid() && !split && buffer[..] == old(buffer[..])
      ensures lenOut <= 2 * PACKET
      ensures Head(old(State()), field, syncd) == Start(out[..lenOut], idxPacket, pos)
    {
      hide BytesAt, Fill;
      FillGrows();
      lenOut := 0;
      if split {
        split := false;
        lenOut := PutPending();
        var lenSplit := PACKET - idxPacket;
        var syncdByte := syncd / 8;
        if lenSplit == syncdByte {
          lenOut, pos := CopyOut(field, 0, lenSplit, lenOut);
        } else if lenSplit < syncdByte {
          lenOut, pos := CopyOut(field, 0, lenSplit, lenOut);
          pos := pos + (syncd - lenSplit * 8);
        } else {
          lenOut, pos := CopyOut(field, 0, syncdByte, lenOut);
          var dump := lenSplit - syncdByte;
          ghost var done := out[..lenOut];
          ghost var start := lenOut;
          for i := 0 to dump
            invariant lenOut == start + i && out[..lenOut] == done + Fill(i)
            invariant Valid() && !split && idxPacket == PACKET - dump + i && buffer[..] == old(buffer[..])
          {
            lenOut := Put(FILL, lenOut);
          }
        }
      } else {
        pos := syncd;
      }
    }

    /** Puts the bytes kept from the last frame out. */
    method PutPending() returns (lenOut: nat)
      requires Valid()
      modifies out
      ensures lenOut == idxBuffer && out[..lenOut] == buffer[..idxBuffer]
    {
      lenOut := 0;
      for i := 0 to idxBuffer
        invariant lenOut == i && out[..i] == buffer[..i]
      {
        out[lenOut] := buffer[i];
        lenOut := lenOut + 1;
      }
    }

    /** Puts one byte of a packet out. */
    method Put(x: Byte, at: nat) returns (lenOut: nat)
      requires Valid() && at < out.Length && idxPacket < PACKET
      modifies this`idxPacket, out
      ensures Valid() && idxPacket == old(idxPacket) + 1 && lenOut == at + 1
      ensures out[..lenOut] == old(out[..at]) + [x]
    {
      out[at] := x;
      lenOut := at + 1;
      idxPacket := idxPacket + 1;
    }

    /** Starts a packet with its sync byte. */
    method PutSync(at: nat) returns (lenOut: nat)
      requires Valid() && at < out.Length
      modifies this`idxPacket, out
      ensures Valid() && idxPacket == 1 && lenOut == at + 1
      ensures out[..lenOut] == old(out[..at]) + [SYNC]
    {
      idxPacket := 0;
      lenOut := Put(SYNC, at);
    }

    /** Copies `n` bytes of the field to `out`, advancing the position in the packet. */
    method CopyOut(field: seq<Bit>, start: nat, n: nat, at: nat) returns (lenOut: nat, pos: nat)
      requires Valid() && start + 8 * n <= |field| && at + n <= out.Length && idxPacket + n <= PACKET
      modifies this`idxPacket, out
      ensures Valid() && idxPacket == old(idxPacket) + n
      ensures lenOut == at + n && pos == start + 8 * n
      ensures out[..lenOut] == old(out[..at]) + BytesAt(field, start, n)
    {
      lenOut, pos := at, start;
      for i := 0 to n
        invariant Valid() && idxPacket == old(idxPacket) + i
        invariant lenOut == at + i && pos == start + 8 * i
        invariant out[..lenOut] == old(out[..at]) + BytesAt(field, start, i)
      {
        var temp := ReadByte(field, pos);
        pos := pos + 8;
        lenOut := Put(temp, lenOut);
      }
    }

    /** Puts out the next byte of the field, or at a packet boundary the sync byte before it. */
    method PutNext(field: seq<Bit>, start: nat, bits: nat, at: nat) returns (lenOut: nat, pos: nat, left: nat)
      requires Valid() && start + 8 <= |field| && bits >= 8 && at < out.Length
      modifies this`idxPacket, out
      ensures Valid() && lenOut == at + 1
      ensures if old(idxPacket) == PACKET || old(idxPacket) == 0 then
                out[..lenOut] == old(out[..at]) + [SYNC] && idxPacket == 1 && pos == start && left == bits
              else
                && out[..lenOut] == old(out[..at]) + [ByteAt(field, start)] && idxPacket == old(idxPacket) + 1
                && pos == start + 8 && left == bits - 8
    {
      pos, left := start, bits;
      if idxPacket == PACKET || idxPacket == 0 {
        lenOut := PutSync(at);
      } else {
        var temp := ReadByte(field, pos);
        pos := pos + 8;
        lenOut := Put(temp, at);
        left := left - 8;
      }
    }

    /** Puts out bytes and sync bytes while at least a packet's worth of bits is left. */
    method DirectOut(field: seq<Bit>, start: nat, bits: nat, at: nat) returns (lenOut: nat, pos: nat, left: nat)
      requires Valid() && start + bits <= |field| && bits <= MAX_DFL && at <= 2 * PACKET
      modifies this`idxPacket, out
      ensures Valid() && lenOut <= out.Length
      ensures pos == start + 8 * Direct(bits) && left == bits - 8 * Direct(bits)
      ensures Direct(bits) == 0 ==> lenOut == at && out[..at] == old(out[..at]) && idxPacket == old(idxPacket)
      ensures Direct(bits) > 0 ==>
                && out[..lenOut] == old(out[..at]) + Insert(Boundary(old(idxPacket)), BytesAt(field, start, Direct(bits)))
                && idxPacket == After(Boundary(old(idxPacket)), Direct(bits))
    {
      hide Progress, BytesAt, ByteAt, Insert, After, Direct;
      lenOut, pos, left := at, start, bits;
      ghost var j := 0;
      ghost var before := out[..at];
      ProgressStarts(idxPacket, before, left);
      while left >= PACKET_BITS
        invariant Valid() && pos == start + 8 * j && left == bits - 8 * j && j <= Direct(bits)
        invariant lenOut <= out.Length
        invariant Progress(old(idxPacket), before, BytesAt(field, start, j), out[..lenOut], idxPacket, left)
        decreases left, if idxPacket == PACKET || idxPacket == 0 then 1 else 0
      {
        ghost var bytes, done := BytesAt(field, start, j), out[..lenOut];
        ProgressFits(old(idxPacket), before, bytes, done, idxPacket, left);
        ProgressSteps(old(idxPacket), before, bytes, done, idxPacket, left, ByteAt(field, pos));
        BytesGrow(field, start, j);
        j := if idxPacket == PACKET || idxPacket == 0 then j else j + 1;
        lenOut, pos, left := PutNext(field, pos, left, lenOut);
      }
      ProgressEnds(old(idxPacket), before, BytesAt(field, start, j), out[..lenOut], idxPacket, left);
    }

    /** Keeps `n` bytes, with their sync byte, for the next frame. */
    method KeepRest(field: seq<Bit>, start: nat, n: nat)
      requires Valid() && start + 8 * n <= |field| && n < PACKET
      modifies this, buffer
      ensures Valid()
      ensures State() == Framer(true, AfterFrom(old(idxPacket), n), InsertFrom(old(idxPacket), BytesAt(field, start, n)))
    {
      hide BytesAt, ByteAt, InsertFrom, AfterFrom;
      split := true;
      idxBuffer := 0;
      var pos := start;
      ghost var from := idxPacket;
      KeepStep(from, BytesAt(field, start, 0), 0);
      for i := 0 to n
        invariant Valid() && split && pos == start + 8 * i
        invariant idxPacket == AfterFrom(from, i)
        invariant buffer[..idxBuffer] == InsertFrom(from, BytesAt(field, start, i))
      {
        ghost var bytes, done := BytesAt(field, start, i), buffer[..idxBuffer];
        KeepStep(from, bytes, ByteAt(field, pos));
        BytesGrow(field, start, i);
        if idxPacket == PACKET {
          idxPacket := 0;
          buffer[idxBuffer] := SYNC;
          idxBuffer := idxBuffer + 1;
          idxPacket := idxPacket + 1;
          assert buffer[..idxBuffer] == done + [SYNC];
        }
        ghost var synced := buffer[..idxBuffer];
        var temp := ReadByte(field, pos);
        pos := pos + 8;
        buffer[idxBuffer] := temp;
        idxBuffer := idxBuffer + 1;
        idxPacket := idxPacket + 1;
        assert buffer[..idxBuffer] == synced + [temp];
      }
    }
  }

  lemma KeptIsRest(left: nat)
    ensures Kept(left) == (left - 8 * Direct(left)) / 8
    ensures left - 8 * Direct(left) == 0 <==> left == 0
  {
  }

  lemma FillGrows()
    ensures Fill(0) == [] && forall i: nat :: Fill(i + 1) == Fill(i) + [FILL]
  {
  }

  lemma BytesGrow(field: seq<Bit>, start: nat, i: nat)
    requires start + 8 * i + 8 <= |field|
    ensures BytesAt(field, start, i + 1) == BytesAt(field, start, i) + [ByteAt(field, start + 8 * i)]
  {
  }

  /** What keeping one more byte does, and that the buffer has room for it. */
  lemma KeepStep(from: nat, bytes: seq<Byte>, x: Byte)
    requires from <= PACKET && |bytes| < 187
    ensures InsertFrom(from, []) == [] && AfterFrom(from, 0) == from
    ensures var at := AfterFrom(from, |bytes|);
            && at <= PACKET
            && AfterFrom(from, |bytes| + 1) == (if at == PACKET then 2 else at + 1)
            && InsertFrom(from, bytes + [x]) == InsertFrom(from, bytes) + (if at == PACKET then [SYNC, x] else [x])
            && |InsertFrom(from, bytes + [x])| <= PACKET
  {
    assert (bytes + [x])[..|bytes|] == bytes;
    if from > 0 {
      var k := InsertPosition(from, bytes + [x]);
    }
  }

  /** The source's bit loop, highest bit first. */
  method ReadByte(bits: seq<Bit>, pos: nat) returns (temp: Byte)
    requires pos + 8 <= |bits|
    ensures temp == ByteAt(bits, pos)
  {
    ghost var x := ByteAt(bits, pos);
    temp := ReadNumber(bits, pos, 8);
  }

  /** Inside the direct loop: all of `bytes` is out, or all of it and the sync byte the next one needs. */
  ghost predicate Progress(idx0: nat, before: seq<Byte>, bytes: seq<Byte>, out: seq<Byte>, idx: nat, left: nat)
  {
    && idx0 <= PACKET
    && var from := Boundary(idx0);
       var done := before + Insert(from, bytes);
       || (out == done && idx == if bytes == [] then idx0 else After(from, |bytes|))
       || (out == done + [SYNC] && idx == 1 && After(from, |bytes|) == PACKET && left >= PACKET_BITS)
  }

  lemma ProgressStarts(idx0: nat, before: seq<Byte>, left: nat)
    requires idx0 <= PACKET
    ensures Progress(idx0, before, [], before, idx0, left)
  {
    assert before + [] == before;
  }

  lemma ProgressFits(idx0: nat, before: seq<Byte>, bytes: seq<Byte>, out: seq<Byte>, idx: nat, left: nat)
    requires Progress(idx0, before, bytes, out, idx, left) && |before| <= 2 * PACKET && |bytes| <= 6532
    ensures |out| < OUT_SIZE
  {
    InsertLength(Boundary(idx0), bytes);
  }

  lemma ProgressSteps(idx0: nat, before: seq<Byte>, bytes: seq<Byte>, out: seq<Byte>, idx: nat, left: nat, x: Byte)
    requires Progress(idx0, before, bytes, out, idx, left) && left >= PACKET_BITS
    ensures idx <= PACKET
    ensures idx == PACKET || idx == 0 ==> Progress(idx0, before, bytes, out + [SYNC], 1, left)
    ensures 0 < idx < PACKET ==> Progress(idx0, before, bytes + [x], out + [x], idx + 1, left - 8)
  {
    assert (bytes + [x])[..|bytes|] == bytes;
    var done := before + Insert(Boundary(idx0), bytes);
    assert done + [x] == before + (Insert(Boundary(idx0), bytes) + [x]);
    assert (done + [SYNC]) + [x] == before + (Insert(Boundary(idx0), bytes) + [SYNC, x]);
  }

  lemma ProgressEnds(idx0: nat, before: seq<Byte>, bytes: seq<Byte>, out: seq<Byte>, idx: nat, left: nat)
    requires Progress(idx0, before, bytes, out, idx, left) && left < PACKET_BITS
    ensures bytes == [] ==> out == before && idx == idx0
    ensures bytes != [] ==> out == before + Insert(Boundary(idx0), bytes) && idx == After(Boundary(idx0), |bytes|)
  {
    if bytes == [] {
      assert before + [] == before;
    }
  }
}
