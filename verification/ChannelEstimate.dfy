/**
 The channel between two pilots: angle and amplitude go from one to the next in equal steps, the angle by the
 difference wrapped into half a turn.
 */
module ChannelEstimate {
  import opened Samples

  /** What a correction is made from: the pilots before and after, and the place among the carriers between them. */
  datatype Place = Place(prev: nat, next: nat, j: nat, count: nat)

  /** Angle and amplitude of the channel as a pilot shows them. */
  datatype Estimate = Estimate(angle: real, amp: real)

  /** The difference the steps between two pilots add up to. */
  function Turn(a: real, b: real, pi: real): real
  {
    var d := b - a;
    if d > pi then 2.0 * pi - d else if d < -pi then 2.0 * pi + d else d
  }

  /** One of `count + 1` equal steps. */
  function StepOf(turn: real, count: nat): real
  {
    turn / (count + 1) as real
  }

  function AngleAt(p: Place, est: seq<Estimate>, pi: real): real
    requires p.prev < |est| && p.next < |est|
  {
    est[p.prev].angle + Times(p.j + 1, StepOf(Turn(est[p.prev].angle, est[p.next].angle, pi), p.count))
  }

  function AmpAt(p: Place, est: seq<Estimate>): real
    requires p.prev < |est| && p.next < |est|
  {
    est[p.prev].amp + Times(p.j + 1, StepOf(est[p.next].amp - est[p.prev].amp, p.count))
  }

  function Times(k: int, x: real): real
  {
    k as real * x
  }

  lemma TimesNext(k: int, x: real)
    ensures Times(k + 1, x) == Times(k, x) + x && Times(0, x) == 0.0
  {
  }

  /** The correction of a cell: `rotate` turns it back by an angle and divides it by an amplitude. */
  function Derotation(est: seq<Estimate>, pi: real, rotate: (real, real, Complex) -> Complex): (Place, Complex) -> Complex
  {
    (p: Place, x: Complex) => if p.prev < |est| && p.next < |est| then rotate(AngleAt(p, est, pi), AmpAt(p, est), x) else ZERO
  }

  lemma AllSteps(turn: real, count: nat)
    ensures Times(count + 1, StepOf(turn, count)) == turn
  {
  }

  /** The angle `x` is `k` whole turns further than `y`. */
  predicate TurnsApart(x: real, y: real, k: int, pi: real)
  {
    x == y + Times(k, 2.0 * pi)
  }

  /** The two angles differ by whole turns. */
  ghost predicate SameAngle(x: real, y: real, pi: real)
  {
    exists k: int :: TurnsApart(x, y, k, pi)
  }

  /**
   One step after the last data carrier of a gap the amplitude is that of the pilot there. The angle is that pilot's, up to whole
   turns, if and only if it is no more than half a turn further, or a whole one: beyond, the sign of the wrapped difference is wrong.
   */
  lemma GapCloses(est: seq<Estimate>, prev: nat, next: nat, count: nat, pi: real)
    requires pi > 0.0 && prev < |est| && next < |est|
    requires -pi <= est[prev].angle <= pi && -pi <= est[next].angle <= pi
    ensures AmpAt(Place(prev, next, count, count), est) == est[next].amp
    ensures var d := est[next].angle - est[prev].angle;
            SameAngle(AngleAt(Place(prev, next, count, count), est, pi), est[next].angle, pi)
            <==> d <= pi || d == 2.0 * pi
  {
    var a, b := est[prev].angle, est[next].angle;
    AllSteps(Turn(a, b, pi), count);
    AllSteps(est[next].amp - est[prev].amp, count);
    var x := AngleAt(Place(prev, next, count, count), est, pi);
    hide StepOf, AngleAt;
    TimesNext(0, 2.0 * pi);
    if b - a <= pi {
      assert TurnsApart(x, b, if b - a < -pi then 1 else 0, pi);
    } else if b - a == 2.0 * pi {
      assert Times(-1, 2.0 * pi) == -2.0 * pi;
      assert TurnsApart(x, b, -1, pi);
    } else {
      forall k: int ensures !TurnsApart(x, b, k, pi) {
        NotWhole(b - a, pi, k);
      }
    }
  }

  lemma NotWhole(d: real, pi: real, k: int)
    requires pi > 0.0 && pi < d < 2.0 * pi
    ensures 2.0 * pi - 2.0 * d != Times(k, 2.0 * pi)
  {
    if k >= 0 {
      assert Times(k, 2.0 * pi) >= 0.0;
    } else {
      assert (-1 - k) as real * (2.0 * pi) >= 0.0;
    }
  }

  // ---- Linear channels ----

  /**
   A channel whose angle and amplitude change by the same amounts from carrier to carrier. Angles show only up to
   whole turns, in [-pi, pi].
   */
  ghost predicate Linear(est: seq<Estimate>, angle: real, amp: real, pi: real)
  {
    forall k :: 0 <= k < |est| ==> LinearAt(est, angle, amp, pi, k)
  }

  ghost predicate LinearAt(est: seq<Estimate>, angle: real, amp: real, pi: real, k: nat)
    requires k < |est|
  {
    && -pi <= est[k].angle <= pi && SameAngle(est[k].angle, est[0].angle + Times(k, angle), pi)
    && est[k].amp == est[0].amp + Times(k, amp)
  }

  /** A carrier's share of the steps between two pilots is its share of the carriers between them. */
  predicate EvenShare(p: Place, carrier: int)
  {
    (carrier - p.prev) * (p.count + 1) == (p.j + 1) * (p.next - p.prev)
  }

  /**
   On such a channel, turning less than half a turn from pilot to pilot, a carrier is corrected by the channel's own angle, up to
   whole turns, if and only if the channel does not turn, or its share of the steps is even and the pilots' angles, as they show,
   are no more than half a turn apart upwards. Its amplitude is right if and only if it does not change or the share is even.
   */
  lemma LinearChannelExactly(est: seq<Estimate>, angle: real, amp: real, p: Place, carrier: nat, pi: real)
    requires Linear(est, angle, amp, pi) && p.prev < carrier < p.next < |est| && p.j < p.count && pi > 0.0
    requires -pi < Times(p.next - p.prev, angle) < pi
    ensures SameAngle(AngleAt(p, est, pi), est[carrier].angle, pi)
            <==> angle == 0.0 || (est[p.next].angle - est[p.prev].angle <= pi && EvenShare(p, carrier))
    ensures AmpAt(p, est) == est[carrier].amp <==> amp == 0.0 || EvenShare(p, carrier)
  {
    LinearAngleExactly(est, angle, amp, p, carrier, pi);
    LinearAmp(est, angle, amp, p, carrier, pi);
  }

  /** Pilots at -3/4 and 3/4 of half a turn, the channel turning down by a quarter of it from carrier to carrier. */
  lemma UpwardWrapFails(pi: real) returns (est: seq<Estimate>)
    requires pi > 0.0
    ensures |est| == 3 && Linear(est, -0.25 * pi, 0.0, pi) && !SameAngle(AngleAt(Place(0, 2, 0, 1), est, pi), est[1].angle, pi)
  {
    est := [Estimate(-0.75 * pi, 1.0), Estimate(-pi, 1.0), Estimate(0.75 * pi, 1.0)];
    FewTurns(pi);
    assert Times(0, -0.25 * pi) == 0.0 && Times(1, -0.25 * pi) == -0.25 * pi && Times(2, -0.25 * pi) == -0.5 * pi;
    assert Times(0, 0.0) == Times(1, 0.0) == Times(2, 0.0) == 0.0;
    hide Times, AngleAt, AmpAt;
    assert TurnsApart(-0.75 * pi, -0.75 * pi, 0, pi) && TurnsApart(-pi, -pi, 0, pi) && TurnsApart(0.75 * pi, -1.25 * pi, 1, pi);
    assert LinearAt(est, -0.25 * pi, 0.0, pi, 0) && LinearAt(est, -0.25 * pi, 0.0, pi, 1) && LinearAt(est, -0.25 * pi, 0.0, pi, 2);
    LinearChannelExactly(est, -0.25 * pi, 0.0, Place(0, 2, 0, 1), 1, pi);
  }

  lemma LinearAmp(est: seq<Estimate>, angle: real, amp: real, p: Place, carrier: nat, pi: real)
    requires Linear(est, angle, amp, pi) && p.prev < carrier < p.next < |est|
    ensures AmpAt(p, est) == est[carrier].amp <==> amp == 0.0 || EvenShare(p, carrier)
  {
    hide SameAngle, Times, StepOf;
    assert LinearAt(est, angle, amp, pi, p.prev) && LinearAt(est, angle, amp, pi, carrier) && LinearAt(est, angle, amp, pi, p.next);
    Share(amp, p.prev, carrier, p.next, p.j, p.count);
  }

  lemma LinearAngleExactly(est: seq<Estimate>, angle: real, amp: real, p: Place, carrier: nat, pi: real)
    requires Linear(est, angle, amp, pi) && p.prev < carrier < p.next < |est| && p.j < p.count && pi > 0.0
    requires -pi < Times(p.next - p.prev, angle) < pi
    ensures SameAngle(AngleAt(p, est, pi), est[carrier].angle, pi)
            <==> angle == 0.0 || (est[p.next].angle - est[p.prev].angle <= pi && EvenShare(p, carrier))
  {
    var a, b, gap := est[p.prev].angle, est[p.next].angle, Times(p.next - p.prev, angle);
    assert LinearAt(est, angle, amp, pi, p.prev) && LinearAt(est, angle, amp, pi, p.next);
    hide SameAngle, TurnsApart, Times, StepOf, Linear, EvenShare, Turn;
    AngleSince(est, angle, amp, p.prev, p.next, pi);
    AngleSince(est, angle, amp, p.prev, carrier, pi);
    TurnOfGap(a, b, gap, pi);
    var u, v := Times(p.j + 1, StepOf(Turn(a, b, pi), p.count)), Times(carrier - p.prev, angle);
    assert AngleAt(p, est, pi) == a + u;
    SharesWithin(angle, p, carrier);
    NearAngles(a, u, v, est[carrier].angle, pi);
    ShareOfGap(angle, p, carrier);
    SharesAway(angle, p, carrier);
  }

  /** Between two carriers of a linear channel the angle changes by that many steps, up to whole turns. */
  lemma AngleSince(est: seq<Estimate>, angle: real, amp: real, i: nat, k: nat, pi: real)
    requires Linear(est, angle, amp, pi) && i <= k < |est|
    ensures SameAngle(est[k].angle, est[i].angle + Times(k - i, angle), pi)
  {
    hide Times;
    assert LinearAt(est, angle, amp, pi, i) && LinearAt(est, angle, amp, pi, k);
    var m: int :| TurnsApart(est[i].angle, est[0].angle + Times(i, angle), m, pi);
    var n: int :| TurnsApart(est[k].angle, est[0].angle + Times(k, angle), n, pi);
    TimesMinus(k, i, angle);
    TimesMinus(n, m, 2.0 * pi);
    assert TurnsApart(est[k].angle, est[i].angle + Times(k - i, angle), n - m, pi);
  }

  /** The wrapped difference is the channel's own change, or exactly its negative when the angles are more than half a turn apart upwards. */
  lemma TurnOfGap(a: real, b: real, gap: real, pi: real)
    requires -pi <= a <= pi && -pi <= b <= pi && -pi < gap < pi && SameAngle(b, a + gap, pi)
    ensures Turn(a, b, pi) == if b - a <= pi then gap else -gap
  {
    hide Times;
    var m: int :| TurnsApart(b, a + gap, m, pi);
    FewTurns(pi);
    if m >= 2 {
      Monotone(2, m, 2.0 * pi);
    } else if m <= -2 {
      Monotone(m, -2, 2.0 * pi);
    }
  }

  lemma FewTurns(pi: real)
    ensures Times(-2, 2.0 * pi) == -4.0 * pi && Times(-1, 2.0 * pi) == -2.0 * pi && Times(0, 2.0 * pi) == 0.0
    ensures Times(1, 2.0 * pi) == 2.0 * pi && Times(2, 2.0 * pi) == 4.0 * pi
  {
  }

  lemma Monotone(m: int, n: int, x: real)
    requires m <= n && x >= 0.0
    ensures Times(m, x) <= Times(n, x)
  {
    assert (n - m) as real * x >= 0.0;
  }

  /** Angles less than a whole turn apart are the same only if they are equal. */
  lemma NearAngles(a: real, u: real, v: real, w: real, pi: real)
    requires pi > 0.0 && -2.0 * pi < u - v < 2.0 * pi && SameAngle(w, a + v, pi)
    ensures SameAngle(a + u, w, pi) <==> u == v
  {
    hide Times;
    var m: int :| TurnsApart(w, a + v, m, pi);
    if u == v {
      TimesMinus(0, m, 2.0 * pi);
      TimesNext(0, 2.0 * pi);
      assert TurnsApart(a + u, w, -m, pi);
    }
    if SameAngle(a + u, w, pi) {
      var k: int :| TurnsApart(a + u, w, k, pi);
      TimesMinus(k, -m, 2.0 * pi);
      TimesMinus(0, m, 2.0 * pi);
      TimesNext(0, 2.0 * pi);
      NoTurn(k + m, u - v, pi);
    }
  }

  lemma NoTurn(k: int, x: real, pi: real)
    requires pi > 0.0 && -2.0 * pi < x < 2.0 * pi && x == Times(k, 2.0 * pi)
    ensures x == 0.0
  {
    if k >= 1 {
      Monotone(1, k, 2.0 * pi);
    } else if k <= -1 {
      Monotone(k, -1, 2.0 * pi);
    }
  }

  /** Some of the steps of a change lie between nothing and the whole of it. */
  lemma StepsWithin(k: int, x: real, count: nat)
    requires 0 <= k <= count + 1
    ensures if x >= 0.0 then 0.0 <= Times(k, StepOf(x, count)) <= x else x <= Times(k, StepOf(x, count)) <= 0.0
  {
    AllSteps(x, count);
    SomeOf(k, count + 1, StepOf(x, count));
  }

  lemma SomeOf(k: int, n: int, step: real)
    requires 0 <= k <= n && n > 0
    ensures if Times(n, step) >= 0.0 then 0.0 <= Times(k, step) <= Times(n, step) else Times(n, step) <= Times(k, step) <= 0.0
  {
    if step >= 0.0 {
      Monotone(0, k, step);
      Monotone(k, n, step);
    } else {
      Monotone(0, k, -step);
      Monotone(k, n, -step);
      Monotone(1, n, -step);
    }
  }

  lemma StepOfNegative(x: real, k: int, count: nat)
    ensures Times(k, StepOf(-x, count)) == -Times(k, StepOf(x, count))
  {
  }

  /** The steps taken, of the change or its negative, and the carrier's own change are less than two changes apart. */
  lemma SharesWithin(angle: real, p: Place, carrier: nat)
    requires p.prev < carrier < p.next && p.j < p.count
    ensures var gap, v := Times(p.next - p.prev, angle), Times(carrier - p.prev, angle);
            var u, size := Times(p.j + 1, StepOf(gap, p.count)), if gap < 0.0 then -gap else gap;
            && -size <= u <= size && -size <= v <= size
            && Times(p.j + 1, StepOf(-gap, p.count)) == -u
  {
    hide Times, StepOf;
    var gap := Times(p.next - p.prev, angle);
    StepsWithin(p.j + 1, gap, p.count);
    StepOfNegative(gap, p.j + 1, p.count);
    SomeOf(carrier - p.prev, p.next - p.prev, angle);
  }

  /** The steps of the change itself bring the carrier's own change exactly if its share is even. */
  lemma ShareOfGap(angle: real, p: Place, carrier: nat)
    requires p.prev < carrier < p.next
    ensures Times(p.j + 1, StepOf(Times(p.next - p.prev, angle), p.count)) == Times(carrier - p.prev, angle)
            <==> angle == 0.0 || EvenShare(p, carrier)
  {
    hide Times, StepOf;
    Share(angle, p.prev, carrier, p.next, p.j, p.count);
    TimesMinus(carrier, p.prev, angle);
  }

  /** The steps of its negative never do, unless there is no change. */
  lemma SharesAway(angle: real, p: Place, carrier: nat)
    requires p.prev < carrier < p.next && p.j < p.count
    ensures Times(p.j + 1, StepOf(-Times(p.next - p.prev, angle), p.count)) == Times(carrier - p.prev, angle) <==> angle == 0.0
  {
    hide Times, StepOf;
    SharesWithin(angle, p, carrier);
    var gap := Times(p.next - p.prev, angle);
    SignOfTimes(p.next - p.prev, angle);
    SignOfTimes(carrier - p.prev, angle);
    StepsWithin(p.j + 1, gap, p.count);
  }

  lemma SignOfTimes(k: int, x: real)
    requires k > 0
    ensures (Times(k, x) > 0.0 <==> x > 0.0) && (Times(k, x) < 0.0 <==> x < 0.0)
  {
    if x > 0.0 {
      Monotone(1, k, x);
    } else {
      Monotone(1, k, -x);
    }
  }

  lemma Share(x: real, prev: nat, carrier: nat, next: nat, j: nat, count: nat)
    requires prev < carrier < next
    ensures Times(next, x) - Times(prev, x) == Times(next - prev, x)
    ensures Times(prev, x) + Times(j + 1, StepOf(Times(next - prev, x), count)) == Times(carrier, x)
            <==> x == 0.0 || (carrier - prev) * (count + 1) == (j + 1) * (next - prev)
  {
    TimesMinus(next, prev, x);
    TimesMinus(carrier, prev, x);
    StepsOfTimes(j + 1, next - prev, count, x);
    var c, e := (carrier - prev) * (count + 1), (j + 1) * (next - prev);
    SameShare(Times(j + 1, StepOf(Times(next - prev, x), count)), Times(carrier - prev, x), count, e, c, x);
  }

  lemma TimesMinus(a: int, b: int, x: real)
    ensures Times(a - b, x) == Times(a, x) - Times(b, x)
  {
  }

  lemma TimesTimes(a: int, b: int, x: real)
    ensures Times(a, Times(b, x)) == Times(a * b, x)
  {
    assert (a * b) as real == a as real * b as real;
    Regroup(a as real, b as real, x);
  }

  lemma StepsOfTimes(k: int, gap: int, count: nat, x: real)
    ensures Times(count + 1, Times(k, StepOf(Times(gap, x), count))) == Times(k * gap, x)
  {
    hide Times, StepOf;
    var step := StepOf(Times(gap, x), count);
    TimesTimes(count + 1, k, step);
    TimesTimes(k, count + 1, step);
    assert (count + 1) * k == k * (count + 1);
    AllSteps(Times(gap, x), count);
    TimesTimes(k, gap, x);
  }

  lemma SameShare(u: real, v: real, count: nat, e: int, c: int, x: real)
    requires Times(count + 1, u) == Times(e, x) && exists m: int :: v == Times(m, x) && c == m * (count + 1)
    ensures u == v <==> x == 0.0 || c == e
  {
    var m: int :| v == Times(m, x) && c == m * (count + 1);
    TimesTimes(count + 1, m, x);
    assert (count + 1) * m == c;
    hide *;
    TimesCancel(count + 1, u, v);
    TimesSame(e, c, x);
  }

  lemma TimesCancel(n: int, u: real, v: real)
    requires n > 0
    ensures Times(n, u) == Times(n, v) <==> u == v
  {
    if u != v {
      Nonzero(n as real, u - v);
    }
  }

  lemma Nonzero(x: real, y: real)
    requires x != 0.0 && y != 0.0
    ensures x * y != 0.0
  {
  }

  lemma TimesSame(e: int, c: int, x: real)
    ensures Times(e, x) == Times(c, x) <==> x == 0.0 || c == e
  {
    if x != 0.0 && c != e {
      Nonzero((e - c) as real, x);
    }
  }

  lemma TurnIs(a: real, b: real, pi: real)
    ensures var d := b - a; Turn(a, b, pi) == if d > pi then pi * 2.0 - d else if d < -pi then pi * 2.0 + d else d
  {
  }

  lemma DerotationIs(est: seq<Estimate>, pi: real, rotate: (real, real, Complex) -> Complex, p: Place, x: Complex)
    requires p.prev < |est| && p.next < |est|
    ensures Derotation(est, pi, rotate)(p, x) == rotate(AngleAt(p, est, pi), AmpAt(p, est), x)
  {
  }

  lemma StepsAre(est: seq<Estimate>, pi: real, p: Place, angle: real, amp: real, deltaAngle: real, deltaAmp: real)
    requires p.prev < |est| && p.next < |est| && Estimate(angle, amp) == est[p.prev]
    requires deltaAngle == StepOf(Turn(angle, est[p.next].angle, pi), p.count) && deltaAmp == StepOf(est[p.next].amp - amp, p.count)
    ensures AngleAt(p, est, pi) == angle + Times(p.j + 1, deltaAngle) && AmpAt(p, est) == amp + Times(p.j + 1, deltaAmp)
  {
  }
}
