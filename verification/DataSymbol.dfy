/**
 One data symbol: data carriers wait until the next pilot gives their correction, then go to the places
 the frequency deinterleaver assigns. The correction goes in equal steps from the angle and amplitude of
 the pilot before to those of the pilot after; the pilots' own angles and amplitudes are parameters.
 */
module DataSymbol {
  import opened Samples
  import opened Permutations
  import opened ChannelEstimate

  datatype Carrier = DataCarrier | Pilot | ToneReservation

  datatype Slot = Slot(carrier: nat, place: Place)

  /** The symbol's carriers; `half` is the middle one, whose pilot is not used. */
  datatype Layout = Layout(carriers: seq<Carrier>, half: nat) {
    /** A pilot that releases the carriers waiting for it. */
    predicate Releases(i: nat)
      requires i < |carriers|
    {
      carriers[i].Pilot? && i != half
    }
  }

  /** The data carriers from 1 up to `i`, in order. */
  function DataCarriers(l: Layout, i: nat): seq<nat>
    requires i <= |l.carriers|
  {
    if i <= 1 then []
    else if l.carriers[i - 1].DataCarrier? then DataCarriers(l, i - 1) + [i - 1]
    else DataCarriers(l, i - 1)
  }

  /** Those of them still waiting for a pilot. */
  function Waiting(l: Layout, i: nat): seq<nat>
    requires i <= |l.carriers|
  {
    if i <= 1 then []
    else if l.carriers[i - 1].DataCarrier? then Waiting(l, i - 1) + [i - 1]
    else if l.Releases(i - 1) then []
    else Waiting(l, i - 1)
  }

  /** The last pilot used before `i`; carrier 0 is one. */
  function LastPilot(l: Layout, i: nat): (p: nat)
    requires i <= |l.carriers|
    ensures i > 0 ==> p < i
  {
    if i <= 1 then 0 else if l.Releases(i - 1) then i - 1 else LastPilot(l, i - 1)
  }

  function Gap(waiting: seq<nat>, prev: nat, next: nat): (s: seq<Slot>)
    ensures |s| == |waiting|
  {
    seq(|waiting|, j requires 0 <= j < |waiting| => Slot(waiting[j], Place(prev, next, j, |waiting|)))
  }

  /** The data carriers released before `i`. */
  function Released(l: Layout, i: nat): seq<Slot>
    requires i <= |l.carriers|
  {
    if i <= 1 then []
    else if l.Releases(i - 1) then Released(l, i - 1) + Gap(Waiting(l, i - 1), LastPilot(l, i - 1), i - 1)
    else Released(l, i - 1)
  }

  /** Carriers are released in order: the released and the waiting ones are all the data carriers. */
  lemma {:induction false} ReleasedInOrder(l: Layout, i: nat)
    requires i <= |l.carriers|
    ensures |Released(l, i)| + |Waiting(l, i)| == |DataCarriers(l, i)|
    ensures forall d :: 0 <= d < |Released(l, i)| ==> Released(l, i)[d].carrier == DataCarriers(l, i)[d]
    ensures forall j :: 0 <= j < |Waiting(l, i)| ==> Waiting(l, i)[j] == DataCarriers(l, i)[|Released(l, i)| + j]
  {
    if i > 1 {
      ReleasedInOrder(l, i - 1);
    }
  }

  lemma {:induction false} DataCarriersIn(l: Layout, i: nat)
    requires i <= |l.carriers|
    ensures forall c :: c in DataCarriers(l, i) <==> 1 <= c < i && l.carriers[c].DataCarrier?
  {
    if i > 1 {
      DataCarriersIn(l, i - 1);
    }
  }

  /** With a pilot on the upper edge every data carrier is released. */
  lemma AllReleased(l: Layout)
    requires |l.carriers| >= 2 && l.Releases(|l.carriers| - 1)
    ensures |Released(l, |l.carriers|)| == |DataCarriers(l, |l.carriers|)|
    ensures forall d :: 0 <= d < |DataCarriers(l, |l.carriers|)| ==>
              Released(l, |l.carriers|)[d].carrier == DataCarriers(l, |l.carriers|)[d]
  {
    hide Released, DataCarriers;
    ReleasedInOrder(l, |l.carriers|);
  }

  /** No pilot that is used lies between a carrier and the pilots its correction is made from. */
  lemma {:induction false} PilotsAreNearest(l: Layout, i: nat, d: nat)
    requires i <= |l.carriers| && d < |Released(l, i)|
    ensures var s := Released(l, i)[d];
            var p, n := s.place.prev, s.place.next;
            && p < s.carrier < n < i && l.Releases(n) && (p == 0 || l.Releases(p))
            && forall k :: p < k < n ==> !l.Releases(k)
  {
    if i > 1 {
      if d < |Released(l, i - 1)| {
        PilotsAreNearest(l, i - 1, d);
      } else {
        NoneSince(l, i - 1);
      }
    }
  }

  lemma {:induction false} NoneSince(l: Layout, i: nat)
    requires i <= |l.carriers|
    ensures var p := LastPilot(l, i);
            && (p == 0 || (p < i && l.Releases(p)))
            && (forall k :: p < k < i ==> !l.Releases(k))
            && forall j :: 0 <= j < |Waiting(l, i)| ==> p < Waiting(l, i)[j] < i
  {
    if i > 1 {
      NoneSince(l, i - 1);
    }
  }

  // ---- The correction ----

  /**
   In a gap of data carriers only, every carrier's share is even. On a linear channel all of them get its own amplitude, and its
   own angle if and only if the channel does not turn or the pilots' angles are no more than half a turn apart upwards.
   */
  lemma EvenGapExactly(l: Layout, i: nat, d: nat, est: seq<Estimate>, angle: real, amp: real, pi: real)
    requires i <= |l.carriers| == |est| && d < |Released(l, i)| && Linear(est, angle, amp, pi) && pi > 0.0
    requires var p := Released(l, i)[d].place;
             && (forall k :: p.prev < k < p.next && k < |l.carriers| ==> l.carriers[k].DataCarrier?)
             && -pi < Times(p.next - p.prev, angle) < pi
    ensures var s := Released(l, i)[d];
            var p := s.place;
            && p.prev < |est| && p.next < |est| && s.carrier < |est|
            && AmpAt(p, est) == est[s.carrier].amp
            && (SameAngle(AngleAt(p, est, pi), est[s.carrier].angle, pi) <==> angle == 0.0 || est[p.next].angle - est[p.prev].angle <= pi)
  {
    hide Released, Linear, Times, SameAngle, AngleAt, AmpAt, Layout.Releases;
    PilotsAreNearest(l, i, d);
    SlotOfEvenGap(l, i, d);
    var s := Released(l, i)[d];
    LinearChannelExactly(est, angle, amp, s.place, s.carrier, pi);
  }

  lemma {:induction false} SlotOfEvenGap(l: Layout, i: nat, d: nat)
    requires i <= |l.carriers| && d < |Released(l, i)|
    requires var p := Released(l, i)[d].place; forall k :: p.prev < k < p.next && k < |l.carriers| ==> l.carriers[k].DataCarrier?
    ensures var s := Released(l, i)[d];
            s.carrier == s.place.prev + 1 + s.place.j && s.place.next == s.place.prev + 1 + s.place.count
  {
    if i > 1 {
      if d < |Released(l, i - 1)| {
        SlotOfEvenGap(l, i - 1, d);
      } else {
        NoneSince(l, i - 1);
        WaitingSinceLast(l, i - 1);
      }
    }
  }

  /** When all carriers since the last pilot are data carriers, they are all waiting. */
  lemma {:induction false} WaitingSinceLast(l: Layout, i: nat)
    requires 1 <= i <= |l.carriers| && forall k :: LastPilot(l, i) < k < i ==> l.carriers[k].DataCarrier?
    ensures |Waiting(l, i)| == i - 1 - LastPilot(l, i)
    ensures forall j :: 0 <= j < |Waiting(l, i)| ==> Waiting(l, i)[j] == LastPilot(l, i) + 1 + j
  {
    if i > 1 && !l.Releases(i - 1) {
      NoneSince(l, i - 1);
      WaitingSinceLast(l, i - 1);
    }
  }

  // ---- The places ----

  /** Every released carrier's corrected cell is at its place. */
  ghost predicate Placed(out: seq<Complex>, h: seq<nat>, slots: seq<Slot>, cells: seq<Complex>, derotate: (Place, Complex) -> Complex)
  {
    forall d :: 0 <= d < |slots| ==> PlacedAt(out, h, slots, cells, derotate, d)
  }

  ghost predicate PlacedAt(out: seq<Complex>, h: seq<nat>, slots: seq<Slot>, cells: seq<Complex>, derotate: (Place, Complex) -> Complex, d: nat)
    requires d < |slots|
  {
    && d < |h| && h[d] < |out| && slots[d].carrier < |cells|
    && out[h[d]] == derotate(slots[d].place, cells[slots[d].carrier])
  }

  lemma PlacedOneMore(out: seq<Complex>, h: seq<nat>, n: nat, slots: seq<Slot>, s: Slot, cells: seq<Complex>, derotate: (Place, Complex) -> Complex)
    requires IsPermutation(h, n) && |slots| < n <= |out| && s.carrier < |cells| && Placed(out, h, slots, cells, derotate)
    ensures var d := |slots|;
            d < |h| && h[d] < |out| && Placed(out[h[d] := derotate(s.place, cells[s.carrier])], h, slots + [s], cells, derotate)
  {
    var d := |slots|;
    var next := out[h[d] := derotate(s.place, cells[s.carrier])];
    forall k | 0 <= k < |slots + [s]| ensures PlacedAt(next, h, slots + [s], cells, derotate, k) {
      if k < d {
        assert PlacedAt(out, h, slots, cells, derotate, k);
      }
    }
  }

  lemma ScanStep(l: Layout, i: nat)
    requires 1 <= i < |l.carriers|
    ensures Waiting(l, i + 1) == if l.carriers[i].DataCarrier? then Waiting(l, i) + [i] else if l.Releases(i) then [] else Waiting(l, i)
    ensures Released(l, i + 1) == if l.Releases(i) then Released(l, i) + Gap(Waiting(l, i), LastPilot(l, i), i) else Released(l, i)
    ensures LastPilot(l, i + 1) == if l.Releases(i) then i else LastPilot(l, i)
  {
  }

  lemma {:induction false} FewerCarriers(l: Layout, i: nat, n: nat)
    requires i <= n <= |l.carriers|
    ensures |DataCarriers(l, i)| <= |DataCarriers(l, n)|
    decreases n
  {
    if i < n && n > 1 {
      FewerCarriers(l, i, n - 1);
    }
  }

  /** The carriers seen fit the symbol's places, with room for the next one if it is a data carrier. */
  lemma Room(l: Layout, i: nat, c: nat)
    requires 1 <= i < |l.carriers| && |DataCarriers(l, |l.carriers|)| <= c
    ensures |Released(l, i)| + |Waiting(l, i)| <= c
    ensures l.carriers[i].DataCarrier? ==> |Released(l, i)| + |Waiting(l, i)| < c
  {
    ReleasedInOrder(l, i);
    FewerCarriers(l, i, |l.carriers|);
    FewerCarriers(l, i + 1, |l.carriers|);
  }

  /** The table for a symbol. */
  function TableOf(idxSymbol: nat, hEven: seq<nat>, hOdd: seq<nat>): seq<nat>
  {
    if idxSymbol % 2 == 0 then hOdd else hEven
  }

  class Demodulator {
    const cData: nat
    const hEven: seq<nat>
    const hOdd: seq<nat>
    const bufferCell: array<Complex>
    const bufferA: array<Complex>
    const bufferB: array<Complex>
    var swapBuffer: bool

    ghost predicate Valid()
      reads this
    {
      && IsPermutation(hEven, cData) && IsPermutation(hOdd, cData)
      && bufferCell.Length == bufferA.Length == bufferB.Length == cData
      && bufferA != bufferB && bufferCell != bufferA && bufferCell != bufferB
    }

    constructor (even: seq<nat>, odd: seq<nat>, n: nat)
      requires IsPermutation(even, n) && IsPermutation(odd, n)
      ensures Valid() && cData == n && hEven == even && hOdd == odd && !swapBuffer
      ensures fresh(bufferCell) && fresh(bufferA) && fresh(bufferB)
    {
      cData, hEven, hOdd, swapBuffer := n, even, odd, false;
      bufferCell := new Complex[n];
      var a := new Complex[n];
      var b := new Complex[n];
      bufferA, bufferB := a, b;
    }

    /** Carriers `from` to `to`, a gap at a time; the estimates are those of the last pilot. */
    method Carriers(l: Layout, cells: seq<Complex>, from: nat, to: nat, h: seq<nat>, out: array<Complex>,
                    est: seq<Estimate>, pi: real, rotate: (real, real, Complex) -> Complex,
                    idx: nat, done: nat, ghost last: nat, angle: real, amp: real)
      returns (idxData: nat, d: nat, ghost prev: nat, angleEst: real, ampEst: real)
      requires Valid() && IsPermutation(h, cData) && (out == bufferA || out == bufferB)
      requires 1 <= from <= to <= |l.carriers| == |cells| == |est| && |DataCarriers(l, |l.carriers|)| <= cData
      requires l.half < from || to <= l.half
      requires Scanned(l, cells, from, h, out, Derotation(est, pi, rotate), idx, done, last)
      requires last < |est| && Estimate(angle, amp) == est[last]
      modifies bufferCell, out
      ensures Scanned(l, cells, to, h, out, Derotation(est, pi, rotate), idxData, d, prev)
      ensures prev < |est| && Estimate(angleEst, ampEst) == est[prev]
    {
      hide Placed, DataCarriers, Waiting, Released, LastPilot, IsPermutation, Derotation;
      idxData, d, prev := idx, done, last;
      angleEst, ampEst := angle, amp;
      for i := from to to
        invariant Scanned(l, cells, i, h, out, Derotation(est, pi, rotate), idxData, d, prev)
        invariant prev < |est| && Estimate(angleEst, ampEst) == est[prev]
      {
        ScanStep(l, i);
        match l.carriers[i]
        case DataCarrier =>
          Room(l, i, cData);
          bufferCell[idxData] := cells[i];
          idxData := idxData + 1;
        case Pilot =>
          d := Release(l, cells, i, h, out, est, pi, rotate, idxData, d, prev, angleEst, ampEst);
          idxData := 0;
          prev := i;
          angleEst, ampEst := est[i].angle, est[i].amp;
        case ToneReservation =>
      }
    }

    /** The carriers below `i` have been seen: `idxData` wait in the buffer, `d` are in place, `prev` is the last pilot. */
    ghost predicate Scanned(l: Layout, cells: seq<Complex>, i: nat, h: seq<nat>, out: array<Complex>, derotate: (Place, Complex) -> Complex,
                            idxData: nat, d: nat, prev: nat)
      requires i <= |l.carriers| == |cells|
      reads bufferCell, out
    {
      && idxData == |Waiting(l, i)| && idxData <= bufferCell.Length
      && (forall j :: 0 <= j < idxData ==> Waiting(l, i)[j] < |cells| && bufferCell[j] == cells[Waiting(l, i)[j]])
      && d == |Released(l, i)| && Placed(out[..], h, Released(l, i), cells, derotate)
      && prev == LastPilot(l, i)
    }

    /** Places the carriers waiting for pilot `i`, a step of angle and amplitude at a time. */
    method Release(l: Layout, cells: seq<Complex>, i: nat, h: seq<nat>, out: array<Complex>,
                   est: seq<Estimate>, pi: real, rotate: (real, real, Complex) -> Complex,
                   idxData: nat, done: nat, ghost prev: nat, angle: real, amp: real)
      returns (d: nat)
      requires Valid() && IsPermutation(h, cData) && (out == bufferA || out == bufferB)
      requires 1 <= i < |l.carriers| == |cells| == |est| && |DataCarriers(l, |l.carriers|)| <= cData && l.Releases(i)
      requires Scanned(l, cells, i, h, out, Derotation(est, pi, rotate), idxData, done, prev)
      requires prev < |est| && Estimate(angle, amp) == est[prev]
      modifies out
      ensures d == |Released(l, i + 1)| && Placed(out[..], h, Released(l, i + 1), cells, Derotation(est, pi, rotate))
    {
      hide Placed, DataCarriers, Waiting, Released, LastPilot, IsPermutation, Derotation, AngleAt, AmpAt, Times, StepOf, Turn;
      ghost var slots, gap, derotate := Released(l, i), Gap(Waiting(l, i), prev, i), Derotation(est, pi, rotate);
      ScanStep(l, i);
      Room(l, i, cData);
      var difAngle := est[i].angle - angle;
      if difAngle > pi {
        difAngle := pi * 2.0 - difAngle;
      } else if difAngle < -pi {
        difAngle := pi * 2.0 + difAngle;
      }
      TurnIs(angle, est[i].angle, pi);
      var deltaAngle := StepOf(difAngle, idxData);
      var deltaAmp := StepOf(est[i].amp - amp, idxData);
      var angleEst, ampEst := angle, amp;
      TimesNext(0, deltaAngle);
      TimesNext(0, deltaAmp);
      d := done;
      assert slots + gap[..0] == slots;
      for j := 0 to idxData
        invariant d == done + j && Placed(out[..], h, slots + gap[..j], cells, derotate)
        invariant angleEst == angle + Times(j, deltaAngle) && ampEst == amp + Times(j, deltaAmp)
      {
        ghost var s := gap[j];
        PlacedOneMore(out[..], h, cData, slots + gap[..j], s, cells, derotate);
        assert slots + gap[..j + 1] == (slots + gap[..j]) + [s];
        TimesNext(j, deltaAngle);
        TimesNext(j, deltaAmp);
        angleEst := angleEst + deltaAngle;
        ampEst := ampEst + deltaAmp;
        DerotationIs(est, pi, rotate, s.place, bufferCell[j]);
        StepsAre(est, pi, s.place, angle, amp, deltaAngle, deltaAmp);
        out[h[d]] := rotate(angleEst, ampEst, bufferCell[j]);
        d := d + 1;
      }
      assert gap[..idxData] == gap;
    }

    /** The middle carrier: a pilot there is only looked at. */
    method Middle(l: Layout, cells: seq<Complex>, ghost h: seq<nat>, ghost out: array<Complex>,
                  ghost derotate: (Place, Complex) -> Complex, idx: nat, ghost d: nat, ghost prev: nat)
      returns (idxData: nat)
      requires Valid() && (out == bufferA || out == bufferB)
      requires 1 <= l.half < |l.carriers| == |cells| && |DataCarriers(l, |l.carriers|)| <= cData
      requires Scanned(l, cells, l.half, h, out, derotate, idx, d, prev)
      modifies bufferCell
      ensures Scanned(l, cells, l.half + 1, h, out, derotate, idxData, d, prev)
    {
      hide Placed, DataCarriers, Waiting, Released, LastPilot, IsPermutation;
      ScanStep(l, l.half);
      Room(l, l.half, cData);
      idxData := idx;
      if l.carriers[l.half].DataCarrier? {
        bufferCell[idxData] := cells[l.half];
        idxData := idxData + 1;
      }
    }

    /** Demodulates one symbol into the buffer not handed out last. */
    method Execute(idxSymbol: nat, l: Layout, cells: seq<Complex>, est: seq<Estimate>, pi: real, rotate: (real, real, Complex) -> Complex)
      returns (out: array<Complex>)
      requires Valid() && 1 <= l.half < |l.carriers| == |cells| == |est| && |DataCarriers(l, |l.carriers|)| <= cData
      modifies this, bufferCell, bufferA, bufferB
      ensures Valid() && swapBuffer == !old(swapBuffer)
      ensures out == (if old(swapBuffer) then bufferB else bufferA)
      ensures if old(swapBuffer) then bufferA[..] == old(bufferA[..]) else bufferB[..] == old(bufferB[..])
      ensures Placed(out[..], TableOf(idxSymbol, hEven, hOdd), Released(l, |l.carriers|), cells, Derotation(est, pi, rotate))
    {
      hide Placed, DataCarriers, Waiting, Released, LastPilot, IsPermutation, Derotation;
      ghost var derotate := Derotation(est, pi, rotate);
      if swapBuffer {
        swapBuffer := false;
        out := bufferB;
      } else {
        swapBuffer := true;
        out := bufferA;
      }
      var h := if idxSymbol % 2 == 0 then hOdd else hEven;
      NothingSeen(l, out[..], h, cells, derotate);
      var idxData, d, prev, angleEst, ampEst := Carriers(l, cells, 1, l.half, h, out, est, pi, rotate, 0, 0, 0, est[0].angle, est[0].amp);
      idxData := Middle(l, cells, h, out, derotate, idxData, d, prev);
      idxData, d, prev, angleEst, ampEst := Carriers(l, cells, l.half + 1, |l.carriers|, h, out, est, pi, rotate,
                                                     idxData, d, prev, angleEst, ampEst);
    }
  }

  lemma NothingSeen(l: Layout, out: seq<Complex>, h: seq<nat>, cells: seq<Complex>, derotate: (Place, Complex) -> Complex)
    requires |l.carriers| > 1
    ensures Waiting(l, 1) == [] && Released(l, 1) == [] && LastPilot(l, 1) == 0 && Placed(out, h, [], cells, derotate)
  {
  }

  /** What data carrier `d` of the symbol carries once corrected. */
  function Corrected(l: Layout, cells: seq<Complex>, derotate: (Place, Complex) -> Complex, d: nat): Complex
    requires |cells| == |l.carriers| && d < |Released(l, |l.carriers|)|
  {
    var s := Released(l, |l.carriers|)[d];
    if s.carrier < |cells| then derotate(s.place, cells[s.carrier]) else ZERO
  }

  /** Turning the cell back by two angles gives the same exactly when the angles do not differ but by whole turns. */
  ghost predicate TurnsBack(rotate: (real, real, Complex) -> Complex, amp: real, x: Complex, pi: real)
  {
    forall a, b :: rotate(a, amp, x) == rotate(b, amp, x) <==> SameAngle(a, b, pi)
  }

  /**
   A carrier in a gap of data carriers only, on a linear channel, is turned back and scaled by the channel's own angle and
   amplitude at that carrier, though only the pilots' are known, if and only if the channel does not turn or the pilots' angles
   are no more than half a turn apart upwards.
   */
  lemma ChannelUndoneExactly(l: Layout, cells: seq<Complex>, est: seq<Estimate>, angle: real, amp: real, pi: real,
                             rotate: (real, real, Complex) -> Complex, d: nat)
    requires |cells| == |l.carriers| == |est| && d < |Released(l, |l.carriers|)| && Linear(est, angle, amp, pi) && pi > 0.0
    requires var s := Released(l, |l.carriers|)[d];
             && (forall k :: s.place.prev < k < s.place.next && k < |l.carriers| ==> l.carriers[k].DataCarrier?)
             && -pi < Times(s.place.next - s.place.prev, angle) < pi
             && (s.carrier < |cells| ==> TurnsBack(rotate, est[s.carrier].amp, cells[s.carrier], pi))
    ensures var s := Released(l, |l.carriers|)[d];
            var c, p := s.carrier, s.place;
            && c < |cells| && p.prev < |est| && p.next < |est|
            && (Corrected(l, cells, Derotation(est, pi, rotate), d) == rotate(est[c].angle, est[c].amp, cells[c])
                <==> angle == 0.0 || est[p.next].angle - est[p.prev].angle <= pi)
  {
    hide Released, Linear, Times, AngleAt, AmpAt, Derotation, SameAngle;
    EvenGapExactly(l, |l.carriers|, d, est, angle, amp, pi);
    var s := Released(l, |l.carriers|)[d];
    DerotationIs(est, pi, rotate, s.place, cells[s.carrier]);
  }

  /**
   A symbol with a data carrier for every place and a pilot on the upper edge fills every place, and undoes
   the frequency interleaver: if `tx` says on which data carrier each cell was sent, and `h` inverts it, the
   cells come out in the order they were sent in.
   */
  lemma CellsInOrder(l: Layout, cells: seq<Complex>, derotate: (Place, Complex) -> Complex, h: seq<nat>, tx: seq<nat>, n: nat,
                     out: seq<Complex>, sent: seq<Complex>)
    requires |cells| == |l.carriers| >= 2 && l.Releases(|l.carriers| - 1) && |DataCarriers(l, |l.carriers|)| == n
    requires Inverts(h, tx, n) && n <= |out| && |sent| == n && Placed(out, h, Released(l, |l.carriers|), cells, derotate)
    requires forall x :: 0 <= x < n ==> tx[x] < |Released(l, |l.carriers|)| && Corrected(l, cells, derotate, tx[x]) == sent[x]
    ensures out[..n] == sent
  {
    AllReleased(l);
    hide DataCarriers, Released;
    var slots := Released(l, |l.carriers|);
    forall x | 0 <= x < n ensures out[x] == sent[x] {
      assert PlacedAt(out, h, slots, cells, derotate, tx[x]);
    }
  }
}
