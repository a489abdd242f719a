/**
 Acquisition and frame following: which kind of symbol comes next, when the data demodulator is
 initialised, and which symbols of a frame are demodulated. Signal estimates and checks are inputs.
 */
module FrameMachine {
  import opened Samples

  datatype SymbolType = P1 | P2 | Data | Fc

  /** A symbol given to a demodulator: a data symbol, by its index after the P2 symbols, or the frame closing symbol. */
  datatype Demodulated = DataSymbol(index: int) | FcSymbol

  /**
   What the acquisition loop meets: a P1 symbol, with its frequency offset, whether it was decoded, whether
   the tuner has settled and the P2 symbols of its FFT size; or a whole OFDM symbol, with the outcome of
   the L1 checks and the frame shape they signal, which only matter in P2.
   */
  datatype Event =
    | P1Found(offset: real, decoded: bool, frequencyChanged: bool, nP2: nat)
    | SymbolFull(preOk: bool, postOk: bool, nData: nat, lFc: nat)

  /** The fields of the machine; `inits` counts initialisations of the data demodulator, `frames` lists the frames completed. */
  datatype State = State(next: SymbolType, p2Init: bool, demodulatorInit: bool, p1Reset: bool, deintStart: bool,
                         idxSymbol: int, nP2: nat, endDataSymbol: int, closing: bool,
                         inits: nat, frame: seq<Demodulated>, frames: seq<seq<Demodulated>>)

  const START := State(P1, false, false, false, false, 0, 0, 1, false, 0, [], [])

  function P1Step(st: State, e: Event): State
    requires e.P1Found?
  {
    if st.p2Init then
      if Abs(e.offset) > 100.0 then st.(p1Reset := true) else st.(next := P2)
    else if e.frequencyChanged && Abs(e.offset) < 10.0 && e.decoded then
      if !st.p1Reset then st.(nP2 := e.nP2, p2Init := true)
      else st.(p2Init := true, demodulatorInit := true, p1Reset := false)
    else st
  }

  function DataStep(st: State): State
  {
    var idx := st.idxSymbol + 1;
    var frame := st.frame + [DataSymbol(st.idxSymbol - st.nP2)];
    if idx != st.endDataSymbol then st.(idxSymbol := idx, frame := frame)
    else if st.closing then st.(idxSymbol := idx, frame := frame, next := Fc)
    else st.(idxSymbol := idx, frame := frame, next := P1, frames := st.frames + [frame])
  }

  function FcStep(st: State): State
  {
    var frame := st.frame + [FcSymbol];
    st.(next := P1, frame := frame, frames := st.frames + [frame])
  }

  function P2Step(st: State, e: Event): State
    requires e.SymbolFull?
  {
    if e.preOk then
      if st.demodulatorInit then
        st.(idxSymbol := 1, next := Data, frame := [], deintStart := st.deintStart || e.postOk)
      else
        st.(idxSymbol := 0, endDataSymbol := st.nP2 + e.nData - e.lFc, closing := e.lFc != 0,
            demodulatorInit := true, next := P1, inits := st.inits + 1)
    else if !st.demodulatorInit then st.(idxSymbol := 0, next := P1)
    else st.(idxSymbol := 0, p1Reset := true, next := P1, p2Init := false, demodulatorInit := false)
  }

  /** P1 symbols are only looked for in state P1, whole symbols only met in the others. */
  predicate Possible(st: State, e: Event)
  {
    st.next == P1 <==> e.P1Found?
  }

  function Step(st: State, e: Event): State
    requires Possible(st, e)
  {
    match st.next
    case P1 => P1Step(st, e)
    case P2 => P2Step(st, e)
    case Data => DataStep(st)
    case Fc => FcStep(st)
  }

  ghost predicate AllPossible(st: State, es: seq<Event>)
    decreases |es|
  {
    es == [] || (Possible(st, es[0]) && AllPossible(Step(st, es[0]), es[1..]))
  }

  function Run(st: State, es: seq<Event>): State
    requires AllPossible(st, es)
    decreases |es|
  {
    if es == [] then st else Run(Step(st, es[0]), es[1..])
  }

  // ---- Frames ----

  /** The data symbols demodulated before symbol `idx`. */
  function DataBefore(nP2: nat, idx: int): seq<Demodulated>
    decreases idx
  {
    if idx <= 1 then [] else DataBefore(nP2, idx - 1) + [DataSymbol(idx - 1 - nP2)]
  }

  /** A whole frame: every data symbol once, in order, and the closing symbol if there is one. */
  function WholeFrame(nP2: nat, end: int, closing: bool): seq<Demodulated>
  {
    DataBefore(nP2, end) + if closing then [FcSymbol] else []
  }

  ghost predicate Whole(st: State, frames: seq<seq<Demodulated>>)
  {
    forall i :: 0 <= i < |frames| ==> frames[i] == WholeFrame(st.nP2, st.endDataSymbol, st.closing)
  }

  /** What holds in every state. */
  ghost predicate Safe(st: State)
  {
    // The data demodulator has been initialised whenever it may be used, whichever way that came about.
    && (st.demodulatorInit ==> st.inits > 0 && st.p2Init)
    && (!st.p2Init && st.p1Reset ==> st.inits > 0)
    && (st.inits > 0 ==> st.demodulatorInit || (!st.p2Init && st.p1Reset))
    && (st.next == P2 ==> st.p2Init)
    && (st.next == Data || st.next == Fc ==> st.demodulatorInit)
    // It is initialised at most once.
    && st.inits <= 1
    // A frame in progress has had exactly its symbols so far.
    && (st.next == Data ==> st.idxSymbol >= 1 && st.frame == DataBefore(st.nP2, st.idxSymbol))
    && (st.next == Data && st.endDataSymbol >= 2 ==> st.idxSymbol < st.endDataSymbol)
    && (st.next == Data && st.endDataSymbol < 2 ==> st.idxSymbol >= st.endDataSymbol)
    && (st.next == Fc ==> st.closing && st.frame == DataBefore(st.nP2, st.endDataSymbol))
    // Every frame completed was whole, and there is none before initialisation.
    && (st.inits == 0 ==> st.frames == [])
    && Whole(st, st.frames)
  }

  lemma StepSafe(st: State, e: Event)
    requires Safe(st) && Possible(st, e)
    ensures Safe(Step(st, e))
  {
    match st.next
    case P1 =>
    case P2 =>
    case Data => DataSafe(st);
    case Fc =>
  }

  lemma DataSafe(st: State)
    requires Safe(st) && st.next == Data
    ensures Safe(DataStep(st))
  {
    var frame := st.frame + [DataSymbol(st.idxSymbol - st.nP2)];
    assert frame == DataBefore(st.nP2, st.idxSymbol + 1);
    assert frame + [] == frame;
  }

  /** Safety of all runs. */
  lemma {:induction false} AlwaysSafe(st: State, es: seq<Event>)
    requires Safe(st) && AllPossible(st, es)
    ensures Safe(Run(st, es))
    decreases |es|
  {
    hide Safe, Step, Possible;
    if es != [] {
      StepSafe(st, es[0]);
      AlwaysSafe(Step(st, es[0]), es[1..]);
    }
  }

  /**
   From a new machine, in every run: no data or closing symbol is demodulated before the data demodulator
   is initialised, that happens at most once, and every frame completed consists of exactly its data symbols
   in order and then one closing symbol if the frame has one.
   */
  lemma RunsAreSafe(es: seq<Event>)
    requires AllPossible(START, es)
    ensures var st := Run(START, es);
            && (st.demodulatorInit || st.next == Data || st.next == Fc ==> st.inits == 1)
            && st.inits <= 1 && Whole(st, st.frames)
  {
    hide AllPossible, Run, Step;
    assert Safe(START);
    AlwaysSafe(START, es);
  }

  /** Once initialised, the frame's shape never changes again. */
  lemma ShapeIsFixed(st: State, e: Event)
    requires Safe(st) && Possible(st, e) && st.inits > 0
    ensures var r := Step(st, e); r.inits == 1 && (r.nP2, r.endDataSymbol, r.closing) == (st.nP2, st.endDataSymbol, st.closing)
  {
  }

  /** Symbols, whatever their checks say. */
  ghost predicate Symbols(es: seq<Event>)
  {
    forall i :: 0 <= i < |es| ==> es[i].SymbolFull?
  }

  /**
   Once data begins, exactly `endDataSymbol` - 1 data symbols are demodulated: before that the next is a data
   symbol too; then comes the closing symbol if there is one, or else P1.
   */
  lemma {:induction false} DataLasts(st: State, es: seq<Event>)
    requires st.next == Data && 1 <= st.idxSymbol < st.endDataSymbol && Symbols(es)
             && st.idxSymbol + |es| <= st.endDataSymbol
    ensures AllPossible(st, es)
    ensures var r := Run(st, es);
            && r.idxSymbol == st.idxSymbol + |es|
            && r.next == (if r.idxSymbol < st.endDataSymbol then Data else if st.closing then Fc else P1)
    decreases |es|
  {
    if |es| == 1 {
      assert AllPossible(Step(st, es[0]), es[1..]);
    } else if es != [] {
      DataLasts(Step(st, es[0]), es[1..]);
    }
  }

  /** A frame with no room for a data symbol never ends: the symbol count has passed its end when it is first compared. */
  lemma {:induction false} ShortFrameNeverEnds(st: State, es: seq<Event>)
    requires st.next == Data && st.idxSymbol >= 1 && st.endDataSymbol <= 1 && Symbols(es)
    ensures AllPossible(st, es) && Run(st, es).next == Data && Run(st, es).frames == st.frames
    decreases |es|
  {
    if es != [] {
      ShortFrameNeverEnds(Step(st, es[0]), es[1..]);
    }
  }

  // ---- Progress ----

  lemma {:induction false} RunAppend(st: State, es: seq<Event>, more: seq<Event>)
    requires AllPossible(st, es) && AllPossible(Run(st, es), more)
    ensures AllPossible(st, es + more) && Run(st, es + more) == Run(Run(st, es), more)
    decreases |es|
  {
    hide Step, Possible;
    if es == [] {
      assert es + more == more;
    } else {
      RunAppend(Step(st, es[0]), es[1..], more);
      assert (es + more)[1..] == es[1..] + more;
    }
  }

  /** A P1 symbol close enough for its frame to be followed. */
  predicate Near(e: Event)
  {
    e.P1Found? && Abs(e.offset) <= 100.0
  }

  /** A P1 symbol close enough to start from, decoded with the tuner settled. */
  predicate Settled(e: Event)
  {
    e.P1Found? && Abs(e.offset) < 10.0 && e.decoded && e.frequencyChanged
  }

  predicate GoodP2(e: Event)
  {
    e.SymbolFull? && e.preOk
  }

  /**
   What a P1 symbol decides. Once P2 demodulation is set up the P2 symbol comes next if and only if the P1 symbol is near, and
   a far one asks for a new start; before, it is set up if and only if the P1 symbol is settled.
   */
  lemma P1Decides(st: State, e: Event)
    requires st.next == P1 && e.P1Found?
    ensures var r := Step(st, e);
            && (st.p2Init ==> (r.next == P2 <==> Near(e)) && (Near(e) || r == st.(p1Reset := true)))
            && (!st.p2Init ==> r.next == P1 && (r.p2Init <==> Settled(e)) && (Settled(e) || r == st))
  {
  }

  /** From a new machine five good symbols lead into the data of a frame of the shape signalled. */
  lemma Acquires(first: Event, near: Event, p2: Event, again: Event, start: Event)
    requires Settled(first) && Near(near) && GoodP2(p2) && Near(again) && GoodP2(start)
    ensures var es := [first, near, p2, again, start];
            && AllPossible(START, es)
            && var r := Run(START, es);
               && r.next == Data && r.idxSymbol == 1 && r.frame == [] && r.frames == []
               && r.demodulatorInit && r.inits == 1
               && r.nP2 == first.nP2 && r.endDataSymbol == first.nP2 + p2.nData - p2.lFc && (r.closing <==> p2.lFc != 0)
               && (r.deintStart <==> start.postOk)
  {
    var a := Step(START, first);
    var b := Step(a, near);
    var c := Step(b, p2);
    var d := Step(c, again);
    assert a.p2Init && b.next == P2 && c.next == P1 && c.demodulatorInit && d.next == P2;
    FiveSteps(START, first, near, p2, again, start);
  }

  /** Until a P2 symbol is good, each bad one leaves the machine as it was, ready for the next near P1 symbol. */
  lemma KeepsSearching(st: State, near: Event, bad: Event)
    requires st.next == P1 && st.p2Init && !st.demodulatorInit && Near(near) && bad.SymbolFull? && !bad.preOk
    ensures AllPossible(st, [near, bad]) && Run(st, [near, bad]) == st.(idxSymbol := 0)
  {
    var a := Step(st, near);
    var b := Step(a, bad);
    assert Possible(st, near) && Possible(a, bad) && b == st.(idxSymbol := 0);
    hide Step, Possible, AllPossible, Run;
    NoEvents(b);
    RunOne(a, bad, []);
    RunOne(st, near, [bad]);
    assert [bad] + [] == [bad] && [near] + [bad] == [near, bad];
  }

  lemma FiveSteps(st: State, e: Event, f: Event, g: Event, h: Event, i: Event)
    requires Possible(st, e) && Possible(Step(st, e), f) && Possible(Step(Step(st, e), f), g)
    requires Possible(Step(Step(Step(st, e), f), g), h) && Possible(Step(Step(Step(Step(st, e), f), g), h), i)
    ensures AllPossible(st, [e, f, g, h, i]) && Run(st, [e, f, g, h, i]) == Step(Step(Step(Step(Step(st, e), f), g), h), i)
  {
    hide Step, Possible;
    var a := Step(st, e);
    var b := Step(a, f);
    var c := Step(b, g);
    var d := Step(c, h);
    var r := Step(d, i);
    RunOne(d, i, []);
    RunOne(c, h, [i]);
    RunOne(b, g, [h, i]);
    RunOne(a, f, [g, h, i]);
    RunOne(st, e, [f, g, h, i]);
  }

  lemma RunOne(st: State, e: Event, es: seq<Event>)
    requires Possible(st, e) && AllPossible(Step(st, e), es)
    ensures AllPossible(st, [e] + es) && Run(st, [e] + es) == Run(Step(st, e), es)
  {
    hide Step, Possible;
    assert ([e] + es)[1..] == es;
  }

  /** The data symbols of a frame, from the one at hand to the last. */
  lemma {:induction false} DataRun(st: State, es: seq<Event>)
    requires st.next == Data && 1 <= st.idxSymbol < st.endDataSymbol && Symbols(es) && st.idxSymbol + |es| == st.endDataSymbol
    requires st.frame == DataBefore(st.nP2, st.idxSymbol)
    ensures AllPossible(st, es)
    ensures var data := DataBefore(st.nP2, st.endDataSymbol);
            Run(st, es) == st.(idxSymbol := st.endDataSymbol, frame := data, next := if st.closing then Fc else P1,
                               frames := if st.closing then st.frames else st.frames + [data])
    decreases |es|
  {
    var r := Step(st, es[0]);
    DataStepIs(st, es[0]);
    hide DataBefore, Step, Possible, AllPossible, Run;
    if |es| == 1 {
      assert es == [es[0]] + [];
      RunOne(st, es[0], []);
      NoEvents(r);
    } else {
      DataRun(r, es[1..]);
      assert es == [es[0]] + es[1..];
      RunOne(st, es[0], es[1..]);
    }
  }

  lemma DataStepIs(st: State, e: Event)
    requires st.next == Data && 1 <= st.idxSymbol < st.endDataSymbol && e.SymbolFull? && st.frame == DataBefore(st.nP2, st.idxSymbol)
    ensures Possible(st, e)
    ensures var frame, last := DataBefore(st.nP2, st.idxSymbol + 1), st.idxSymbol + 1 == st.endDataSymbol;
            Step(st, e) == st.(idxSymbol := st.idxSymbol + 1, frame := frame, next := if !last then Data else if st.closing then Fc else P1,
                               frames := if last && !st.closing then st.frames + [frame] else st.frames)
  {
    assert DataBefore(st.nP2, st.idxSymbol + 1) == DataBefore(st.nP2, st.idxSymbol) + [DataSymbol(st.idxSymbol - st.nP2)];
    hide DataBefore;
  }

  /** One frame as it is met: a near P1 symbol, a P2 symbol whose L1-pre is good, and the symbols after it up to the frame's end. */
  datatype FrameMet = FrameMet(p1: Event, p2: Event, symbols: seq<Event>) {
    ghost predicate Complete(st: State)
    {
      && Near(p1) && GoodP2(p2) && Symbols(symbols)
      && |symbols| == st.endDataSymbol - 1 + if st.closing then 1 else 0
    }

    function Events(): seq<Event>
    {
      [p1, p2] + symbols
    }
  }

  /** An acquired machine between two frames, of which a frame has some data. */
  ghost predicate Following(st: State)
  {
    Safe(st) && st.next == P1 && st.demodulatorInit && st.endDataSymbol >= 2
  }

  /** One more frame met completely is one more whole frame demodulated. */
  lemma FrameFollows(st: State, f: FrameMet)
    requires Following(st) && f.Complete(st)
    ensures AllPossible(st, f.Events())
    ensures var r := Run(st, f.Events());
            && Following(r) && (r.nP2, r.endDataSymbol, r.closing) == (st.nP2, st.endDataSymbol, st.closing)
            && r.frames == st.frames + [WholeFrame(st.nP2, st.endDataSymbol, st.closing)]
            && (r.deintStart <==> st.deintStart || f.p2.postOk)
  {
    var a := Step(st, f.p1);
    var b := Step(a, f.p2);
    assert b.next == Data && b.idxSymbol == 1 && b.frame == [] == DataBefore(b.nP2, 1);
    SymbolsFollow(b, f.symbols);
    hide Step, Possible, Safe, WholeFrame;
    RunOne(a, f.p2, f.symbols);
    assert [f.p2] + f.symbols == f.Events()[1..] && [f.p1] + ([f.p2] + f.symbols) == f.Events();
    RunOne(st, f.p1, [f.p2] + f.symbols);
    AlwaysSafe(st, f.Events());
  }

  lemma SymbolsFollow(st: State, es: seq<Event>)
    requires st.next == Data && 1 == st.idxSymbol < st.endDataSymbol && Symbols(es) && st.frame == DataBefore(st.nP2, 1)
    requires |es| == st.endDataSymbol - 1 + if st.closing then 1 else 0
    ensures AllPossible(st, es)
    ensures var frame := WholeFrame(st.nP2, st.endDataSymbol, st.closing);
            Run(st, es) == st.(idxSymbol := st.endDataSymbol, frame := frame, next := P1, frames := st.frames + [frame])
  {
    hide DataBefore;
    var n := st.endDataSymbol - 1;
    DataRun(st, es[..n]);
    var data := DataBefore(st.nP2, st.endDataSymbol);
    if st.closing {
      var r := Run(st, es[..n]);
      assert es[n..] == [es[n]] + [];
      RunOne(r, es[n], []);
      RunAppend(st, es[..n], es[n..]);
      assert es[..n] + es[n..] == es;
    } else {
      assert es[..n] == es && data + [] == data;
    }
  }

  /** So from a new machine, and again after a loss, the symbols of the frame begun make it a whole frame; then frames are followed. */
  lemma BegunFrameEnds(before: State, es: seq<Event>, symbols: seq<Event>)
    requires Safe(before) && AllPossible(before, es)
    requires var st := Run(before, es);
             && st.next == Data && st.idxSymbol == 1 && st.frame == [] && st.endDataSymbol >= 2 && Symbols(symbols)
             && |symbols| == st.endDataSymbol - 1 + if st.closing then 1 else 0
    ensures AllPossible(before, es + symbols)
    ensures var st, r := Run(before, es), Run(before, es + symbols);
            && Following(r) && r.frames == st.frames + [WholeFrame(st.nP2, st.endDataSymbol, st.closing)]
            && (r.nP2, r.endDataSymbol, r.closing) == (st.nP2, st.endDataSymbol, st.closing)
  {
    var st := Run(before, es);
    assert DataBefore(st.nP2, 1) == [];
    hide Step, Possible, WholeFrame, AllPossible, Run, DataBefore;
    AlwaysSafe(before, es);
    SymbolsFollow(st, symbols);
    RunAppend(before, es, symbols);
    AlwaysSafe(before, es + symbols);
  }

  function Copies<T>(x: T, n: nat): (s: seq<T>)
    ensures |s| == n && forall i :: 0 <= i < n ==> s[i] == x
  {
    seq(n, i => x)
  }

  function AllEvents(fs: seq<FrameMet>): seq<Event>
  {
    if fs == [] then [] else fs[0].Events() + AllEvents(fs[1..])
  }

  /** However many frames are met, as many whole frames are demodulated. */
  lemma {:induction false} FramesFollow(st: State, fs: seq<FrameMet>)
    requires Following(st) && forall i :: 0 <= i < |fs| ==> fs[i].Complete(st)
    ensures AllPossible(st, AllEvents(fs))
    ensures var r := Run(st, AllEvents(fs));
            Following(r) && r.frames == st.frames + Copies(WholeFrame(st.nP2, st.endDataSymbol, st.closing), |fs|)
    decreases |fs|
  {
    hide Step, Possible, Safe, WholeFrame, AllPossible, Run;
    var frame := WholeFrame(st.nP2, st.endDataSymbol, st.closing);
    if fs == [] {
      NoEvents(st);
      assert st.frames + Copies(frame, 0) == st.frames;
    } else {
      FrameFollows(st, fs[0]);
      var r := Run(st, fs[0].Events());
      FramesFollow(r, fs[1..]);
      RunAppend(st, fs[0].Events(), AllEvents(fs[1..]));
      assert st.frames + [frame] + Copies(frame, |fs| - 1) == st.frames + Copies(frame, |fs|);
    }
  }

  lemma NoEvents(st: State)
    ensures AllPossible(st, []) && Run(st, []) == st
  {
  }

  /**
   After a P2 symbol with bad L1-pre everything starts over, and a settled P1 symbol brings back the frame shape it had: then the
   next near P1 symbol and good P2 symbol lead into the data of a frame again.
   */
  lemma Recovers(st: State, near: Event, bad: Event, first: Event, again: Event, start: Event)
    requires Following(st) && Near(near) && bad.SymbolFull? && !bad.preOk && Settled(first) && Near(again) && GoodP2(start)
    ensures var es := [near, bad, first, again, start];
            && AllPossible(st, es)
            && var r := Run(st, es);
               && r.next == Data && r.idxSymbol == 1 && r.frame == [] && r.frames == st.frames && r.demodulatorInit
               && (r.nP2, r.endDataSymbol, r.closing, r.inits) == (st.nP2, st.endDataSymbol, st.closing, st.inits)
               && (r.deintStart <==> st.deintStart || start.postOk)
  {
    hide Whole, DataBefore;
    var a := Step(st, near);
    var b := Step(a, bad);
    var c := Step(b, first);
    var d := Step(c, again);
    assert a.next == P2 && b.next == P1 && b.p1Reset && !b.p2Init && c.demodulatorInit && d.next == P2;
    FiveSteps(st, near, bad, first, again, start);
  }

  // ---- Indices ----

  lemma {:induction false} DataIndices(nP2: nat, idx: int)
    requires idx >= 1
    ensures |DataBefore(nP2, idx)| == idx - 1
    ensures forall i :: 0 <= i < idx - 1 ==> DataBefore(nP2, idx)[i] == DataSymbol(i + 1 - nP2)
    decreases idx
  {
    if idx > 1 {
      DataIndices(nP2, idx - 1);
    }
  }

  /** The index of every data symbol of `frame` selects one of `n` pilot maps. */
  ghost predicate IndicesInside(frame: seq<Demodulated>, n: int)
  {
    forall i :: 0 <= i < |frame| && frame[i].DataSymbol? ==> 0 <= frame[i].index < n
  }

  /**
   Of a frame with one or more P2 symbols and some data, every data symbol's index lies in the range of its
   pilot maps exactly when there is one P2 symbol: the machine takes only one of them before data begins.
   */
  lemma IndicesExact(nP2: nat, nData: nat, lFc: nat)
    requires nP2 >= 1 && lFc <= 1 && nP2 + nData - lFc >= 2
    ensures IndicesInside(WholeFrame(nP2, nP2 + nData - lFc, lFc != 0), nData - lFc) <==> nP2 == 1
  {
    var end := nP2 + nData - lFc;
    DataIndices(nP2, end);
    var frame := WholeFrame(nP2, end, lFc != 0);
    assert frame[0] == DataSymbol(1 - nP2);
  }

  // ---- The object ----

  datatype Guard = Fft32nd | Fft16th | Fft8th | Fft4th | Fft128th | Fft19Of128 | Fft19Of256

  function GuardAt(idx: nat): Guard
    requires idx < 7
  {
    match idx
    case 0 => Fft32nd
    case 1 => Fft16th
    case 2 => Fft8th
    case 3 => Fft4th
    case 4 => Fft128th
    case 5 => Fft19Of128
    case 6 => Fft19Of256
  }

  class Demodulator {
    var nextSymbolType: SymbolType
    var p2Init: bool
    var demodulatorInit: bool
    var p1Reset: bool
    var deintStart: bool
    var idxSymbol: int
    var nP2: nat
    var endDataSymbol: int
    var frameClosingSymbol: bool
    var idx: nat   // of the guard interval being tried
    var c: nat     // how often it has been tried
    var guard: Guard

    ghost var inits: nat
    ghost var frame: seq<Demodulated>
    ghost var frames: seq<seq<Demodulated>>
    ghost var tries: nat

    ghost function Machine(): State
      reads this
    {
      State(nextSymbolType, p2Init, demodulatorInit, p1Reset, deintStart, idxSymbol, nP2, endDataSymbol, frameClosingSymbol,
            inits, frame, frames)
    }

    /** The machine is safe, and the guard interval search has reached its `tries`th try. */
    ghost predicate Valid()
      reads this
    {
      Safe(Machine()) && Searching()
    }

    ghost predicate Searching()
      reads `idx, `c, `tries
    {
      c < 7 && idx == tries / 7 % 7 && c == tries % 7
    }

    constructor ()
      ensures Valid() && Machine() == START && tries == 0
    {
      nextSymbolType, p2Init, demodulatorInit, p1Reset, deintStart := P1, false, false, false, false;
      idxSymbol, nP2, endDataSymbol, frameClosingSymbol := 0, 0, 1, false;
      idx, c, guard, inits, frame, frames, tries := 0, 0, Fft4th, 0, [], [], 0;
    }

    /** A P1 symbol has been found. */
    method P1Symbol(e: Event)
      requires Valid() && e.P1Found? && nextSymbolType == P1
      modifies this
      ensures Valid() && Machine() == Step(old(Machine()), e) && tries == old(tries)
    {
      StepSafe(Machine(), e);
      if p2Init {
        if Abs(e.offset) > 100.0 {
          p1Reset := true;
        } else {
          nextSymbolType := P2;
        }
      } else if e.frequencyChanged {
        if Abs(e.offset) < 10.0 {
          if e.decoded {
            if !p1Reset {
              nP2 := e.nP2;
              p2Init := true;
            } else {
              p2Init := true;
              demodulatorInit := true;
              p1Reset := false;
            }
          }
        }
      }
    }

    /** A whole OFDM symbol has been collected. */
    method Symbol(e: Event)
      requires Valid() && e.SymbolFull? && nextSymbolType != P1
      modifies this
      ensures Valid() && Machine() == Step(old(Machine()), e)
      ensures tries == old(tries) + if old(nextSymbolType) == P2 && !e.preOk && !old(demodulatorInit) then 1 else 0
    {
      hide Safe, P2Step, DataStep, Searching;
      StepSafe(Machine(), e);
      if nextSymbolType == Data {
        DataDone();
      } else if nextSymbolType == Fc {
        frame := frame + [FcSymbol];
        frames := frames + [frame];
        nextSymbolType := P1;
      } else {
        P2Symbol(e);
      }
    }

    method DataDone()
      modifies `frame, `idxSymbol, `nextSymbolType, `frames
      ensures Machine() == DataStep(old(Machine()))
    {
      frame := frame + [DataSymbol(idxSymbol - nP2)];
      idxSymbol := idxSymbol + 1;
      if idxSymbol == endDataSymbol {
        if frameClosingSymbol {
          nextSymbolType := Fc;
        } else {
          nextSymbolType := P1;
          frames := frames + [frame];
        }
      }
    }

    /** The L1 signalling of a P2 symbol starts a frame, initialises the demodulators, tries another guard interval or starts over. */
    method P2Symbol(e: Event)
      requires e.SymbolFull? && nextSymbolType == P2 && Searching()
      modifies this
      ensures Machine() == P2Step(old(Machine()), e) && Searching()
      ensures tries == old(tries) + if !e.preOk && !old(demodulatorInit) then 1 else 0
    {
      hide Searching;
      idxSymbol := 0;
      if e.preOk {
        if demodulatorInit {
          StartFrame(e);
        } else {
          InitData(e);
        }
      } else if !demodulatorInit {
        NextGuard();
        nextSymbolType := P1;
      } else {
        p1Reset := true;
        nextSymbolType := P1;
        Reset();
      }
    }

    method StartFrame(e: Event)
      requires e.SymbolFull?
      modifies `deintStart, `idxSymbol, `nextSymbolType, `frame
      ensures Machine() == old(Machine()).(deintStart := old(deintStart) || e.postOk, idxSymbol := old(idxSymbol) + 1,
                                           next := Data, frame := [])
    {
      if e.postOk && !deintStart {
        deintStart := true;
      }
      idxSymbol := idxSymbol + 1;
      nextSymbolType := Data;
      frame := [];
    }

    /** Initialises the data and frame closing demodulators for the frame shape signalled. */
    method InitData(e: Event)
      requires e.SymbolFull?
      modifies `inits, `endDataSymbol, `frameClosingSymbol, `demodulatorInit, `nextSymbolType
      ensures Machine() == old(Machine()).(inits := old(inits) + 1, endDataSymbol := nP2 + e.nData - e.lFc, closing := e.lFc != 0,
                                           demodulatorInit := true, next := P1)
    {
      inits := inits + 1;
      endDataSymbol := nP2 + e.nData - e.lFc;
      frameClosingSymbol := e.lFc != 0;
      demodulatorInit := true;
      nextSymbolType := P1;
    }

    method Reset()
      modifies `p2Init, `demodulatorInit, `nextSymbolType
      ensures Machine() == old(Machine()).(p2Init := false, demodulatorInit := false, next := P1)
    {
      p2Init := false;
      demodulatorInit := false;
      nextSymbolType := P1;
    }

    /** Tries a guard interval: each seven times running, in turn, over and over. */
    method NextGuard()
      requires Searching()
      modifies `guard, `idx, `c, `tries
      ensures tries == old(tries) + 1 && Searching()
      ensures guard == GuardAt(old(tries) / 7 % 7)
    {
      NextTry(tries);
      var num := 5;
      guard := GuardAt(idx);
      if c > num {
        idx := if idx == 6 then 0 else idx + 1;
        c := 0;
      } else {
        c := c + 1;
      }
      tries := tries + 1;
    }
  }

  lemma NextTry(tries: nat)
    ensures tries % 7 < 6 ==> (tries + 1) / 7 % 7 == tries / 7 % 7 && (tries + 1) % 7 == tries % 7 + 1
    ensures tries % 7 == 6 ==> (tries + 1) % 7 == 0
    ensures tries % 7 == 6 ==> (tries + 1) / 7 % 7 == if tries / 7 % 7 == 6 then 0 else tries / 7 % 7 + 1
  {
  }
}
