/**
 The high-efficiency-mode packet stream (section 5.1.7 of EN 302 755) as the de-framer
 rebuilds it: sync bytes put back before every 187 bytes, from any position in a packet.
 */
module PacketStream {

  type Byte = b: nat | b < 256

  const PACKET := 188
  const SYNC: Byte := 0x47

  /** Position in the packet after `n` more bytes, the sync bytes put in as the packets fill. */
  function After(idx: nat, n: nat): (next: nat)
    requires 1 <= idx <= PACKET
    ensures 1 <= next <= PACKET
  {
    if n == 0 then idx
    else if After(idx, n - 1) == PACKET then 2 else After(idx, n - 1) + 1
  }

  /** `bytes` with the sync bytes put in, from position `idx` of a packet. */
  function Insert(idx: nat, bytes: seq<Byte>): seq<Byte>
    requires 1 <= idx <= PACKET
  {
    if bytes == [] then []
    else
      var last := |bytes| - 1;
      Insert(idx, bytes[..last]) + if After(idx, last) == PACKET then [SYNC, bytes[last]] else [bytes[last]]
  }

  lemma {:induction false} AfterAdds(idx: nat, m: nat, n: nat)
    requires 1 <= idx <= PACKET
    ensures After(After(idx, m), n) == After(idx, m + n)
  {
    if n > 0 {
      AfterAdds(idx, m, n - 1);
    }
  }

  lemma {:induction false} InsertAppend(idx: nat, a: seq<Byte>, b: seq<Byte>)
    requires 1 <= idx <= PACKET
    ensures Insert(idx, a + b) == Insert(idx, a) + Insert(After(idx, |a|), b)
    decreases |b|
  {
    if b == [] {
      assert a + b == a;
    } else {
      var last := |b| - 1;
      assert (a + b)[..|a| + last] == a + b[..last];
      InsertAppend(idx, a, b[..last]);
      AfterAdds(idx, |a|, last);
    }
  }

  /** Inside a packet nothing is put in. */
  lemma {:induction false} InsertInside(idx: nat, bytes: seq<Byte>)
    requires 1 <= idx && idx + |bytes| <= PACKET
    ensures Insert(idx, bytes) == bytes && After(idx, |bytes|) == idx + |bytes|
    decreases |bytes|
  {
    if bytes != [] {
      InsertInside(idx, bytes[..|bytes| - 1]);
    }
  }

  /** The position says how many bytes of packets have been put together, modulo a packet. */
  lemma {:induction false} InsertPosition(idx: nat, bytes: seq<Byte>) returns (k: nat)
    requires 1 <= idx <= PACKET
    ensures idx + |Insert(idx, bytes)| == After(idx, |bytes|) + PACKET * k
    ensures |Insert(idx, bytes)| == |bytes| + k
  {
    if bytes == [] {
      k := 0;
    } else {
      var j := InsertPosition(idx, bytes[..|bytes| - 1]);
      k := if After(idx, |bytes| - 1) == PACKET then j + 1 else j;
    }
  }

  /** At most one sync byte goes in for every 187 bytes, rounded up. */
  lemma InsertLength(idx: nat, bytes: seq<Byte>)
    requires 1 <= idx <= PACKET
    ensures |bytes| <= |Insert(idx, bytes)|
    ensures 187 * |Insert(idx, bytes)| <= PACKET * |bytes| + 187
  {
    var k := InsertPosition(idx, bytes);
  }

  /** Whole stripped packets: `up` is a packet without its sync byte. */
  function Restore(bytes: seq<Byte>): seq<Byte>
    decreases |bytes|
  {
    if bytes == [] then []
    else if |bytes| <= 187 then [SYNC] + bytes
    else [SYNC] + bytes[..187] + Restore(bytes[187..])
  }

  /** From a packet boundary, putting in sync bytes restores the packets. */
  lemma {:induction false} InsertRestores(bytes: seq<Byte>)
    ensures Insert(PACKET, bytes) == Restore(bytes)
    decreases |bytes|
  {
    if bytes != [] {
      var n := if |bytes| <= 187 then |bytes| else 187;
      FirstPacket(bytes[..n]);
      assert bytes == bytes[..n] + bytes[n..];
      InsertAppend(PACKET, bytes[..n], bytes[n..]);
      if n < |bytes| {
        InsertRestores(bytes[187..]);
      }
    }
  }

  lemma FirstPacket(bytes: seq<Byte>)
    requires 0 < |bytes| <= 187
    ensures Insert(PACKET, bytes) == [SYNC] + bytes && After(PACKET, |bytes|) == |bytes| + 1
  {
    hide Insert, After;
    var a, b := bytes[..1], bytes[1..];
    assert bytes == a + b;
    FirstByte(a);
    InsertAppend(PACKET, a, b);
    InsertInside(2, b);
    AfterAdds(PACKET, 1, |b|);
    assert [SYNC, a[0]] + b == [SYNC] + (a + b);
  }

  lemma FirstByte(b: seq<Byte>)
    requires |b| == 1
    ensures Insert(PACKET, b) == [SYNC, b[0]] && After(PACKET, 1) == 2
  {
    assert b[..0] == [] && After(PACKET, 0) == PACKET;
  }

  /** A list of transport packets, each starting with a sync byte. */
  ghost predicate Packets(ps: seq<seq<Byte>>)
  {
    forall i :: 0 <= i < |ps| ==> |ps[i]| == PACKET && ps[i][0] == SYNC
  }

  function Concat(ps: seq<seq<Byte>>): seq<Byte>
  {
    if ps == [] then [] else ps[0] + Concat(ps[1..])
  }

  function Stripped(ps: seq<seq<Byte>>): (s: seq<Byte>)
    requires forall i :: 0 <= i < |ps| ==> |ps[i]| == PACKET
    ensures |s| == 187 * |ps|
  {
    if ps == [] then [] else ps[0][1..] + Stripped(ps[1..])
  }

  /** Restoring the stripped packets gives the packets. */
  lemma {:induction false} RestoreStripped(ps: seq<seq<Byte>>)
    requires Packets(ps)
    ensures Restore(Stripped(ps)) == Concat(ps)
  {
    if ps != [] {
      RestoreStripped(ps[1..]);
      var s := Stripped(ps);
      assert s[..187] == ps[0][1..] && s[187..] == Stripped(ps[1..]);
      assert ps[0] == [SYNC] + ps[0][1..];
      if |s| == 187 {
        assert ps[1..] == [];
      }
    }
  }

  /** Position in a packet, after `t` stripped bytes from a packet boundary. */
  lemma {:induction false} AfterBoundary(t: nat)
    ensures After(PACKET, t) == if t == 0 then PACKET else if t % 187 == 0 then PACKET else t % 187 + 1
  {
    if t > 0 {
      AfterBoundary(t - 1);
      if t > 1 {
        assert t % 187 == if (t - 1) % 187 == 186 then 0 else (t - 1) % 187 + 1;
      }
    }
  }
}
