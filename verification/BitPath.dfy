/**
 The whole bit path: the cells of a FEC block go through demapper, LDPC stage and BCH stage and
 come out as the baseband frame that was sent (sections 5.2.4 and 6.1 to 6.2 of EN 302 755).
 */
module BitPath {
  import opened Samples
  import opened Bits
  import opened Permutations
  import opened BitInterleaver
  import opened Batches
  import opened GrayMapping
  import opened SoftBits
  import opened LlrDemapper
  import opened Mapper
  import opened LdpcDecoder
  import opened BchDecoder

  function Signs(s: seq<int>): (r: seq<bool>)
    ensures |r| == |s|
  {
    seq(|s|, i requires 0 <= i < |s| => s[i] < 0)
  }

  /** The amplitude that carries value `j` of a block. */
  function Amplitude(cells: seq<Complex>, from: nat, j: nat, axis: nat): real
    requires axis > 0 && from + CellOf(j, axis) < |cells|
  {
    var x := cells[from + CellOf(j, axis)];
    if PartOf(j, axis) % 2 == 0 then x.re else x.im
  }

  /**
   Value `j` of the block arrives as sent: its amplitude is nearest to the level whose label has the
   bit `w[j]`, on no boundary, and its scaled soft value rounds to where the cast to 8 bits keeps the sign.
   */
  ghost predicate Arrives(cells: seq<Complex>, from: nat, w: seq<bool>, axis: nat, n: real, precision: real, j: nat)
    requires axis > 0 && j < |w|
  {
    && from + CellOf(j, axis) < |cells|
    && KeepsSign(precision, BlockValue(cells, from, j, axis, n))
    && OffBoundaries(Amplitude(cells, from, j, axis), axis, n)
    && exists l :: Nearest(Amplitude(cells, from, j, axis), l, axis, n) && Label(At(l, n), axis, n)[PartOf(j, axis) / 2] == w[j]
  }

  /** The sign of a quantised soft value is the bit that was mapped. */
  lemma SignIsBit(cells: seq<Complex>, from: nat, w: seq<bool>, axis: nat, n: real, precision: real, j: nat)
    requires axis > 0 && n > 0.0 && precision > 0.0 && j < |w| && Arrives(cells, from, w, axis, n, precision, j)
    ensures Quantize(precision, BlockValue(cells, from, j, axis, n)) < 0 <==> w[j]
  {
    hide Quantize, KeepsSign, Nearest, OffBoundaries, Fold, PartOf, CellOf;
    KeptInRange(precision, BlockValue(cells, from, j, axis, n));
    SoftSignIsBit(cells, from, w, axis, n, precision, j);
  }

  lemma SoftSignIsBit(cells: seq<Complex>, from: nat, w: seq<bool>, axis: nat, n: real, precision: real, j: nat)
    requires axis > 0 && n > 0.0 && j < |w| && Arrives(cells, from, w, axis, n, precision, j)
    ensures BlockValue(cells, from, j, axis, n) < 0.0 <==> w[j]
  {
    hide KeepsSign, Nearest, OffBoundaries, Fold, PartOf, CellOf, At;
    var v := Amplitude(cells, from, j, axis);
    var l :| Nearest(v, l, axis, n) && Label(At(l, n), axis, n)[PartOf(j, axis) / 2] == w[j];
    LabelOfNearest(v, l, axis, n);
    assert BlockValue(cells, from, j, axis, n) == Fold(v, PartOf(j, axis) / 2, axis, n);
  }

  lemma KeptInRange(precision: real, x: real)
    requires precision > 0.0 && KeepsSign(precision, x)
    ensures Quantize(precision, x) < 0 <==> x < 0.0
  {
    hide Quantize;
    KeptExactly(precision, x);
  }

  // ---- Cells as they were mapped ----

  /**
   A word that was mapped arrives as sent when its cells are received as they were mapped, for every precision that keeps the
   levels' signs (`SoftBits.LevelsKeptExactly` says which do).
   */
  lemma MappedWordArrives(cells: seq<Complex>, w: seq<bool>, axis: nat, n: real, precision: real, from: nat)
    requires axis > 0 && n > 0.0 && precision > 0.0 && LevelsKept(axis, n, precision)
    requires Mapped(cells, from, w, axis, n)
    ensures forall j: nat :: j < |w| ==> Arrives(cells, from, w, axis, n, precision, j)
  {
    hide MappedCell, CellOf, Arrives, At, Pow2, LevelsKept;
    forall j: nat | j < |w| ensures Arrives(cells, from, w, axis, n, precision, j) {
      assert MappedAt(cells, from, w, axis, n, j);
      MappedArrives(cells, from, w, axis, n, precision, j);
    }
  }

  /** Every word can be mapped, so every word can arrive. */
  lemma EveryWordCanArrive(w: seq<bool>, axis: nat, n: real, precision: real, from: nat) returns (cells: seq<Complex>)
    requires axis > 0 && n > 0.0 && precision > 0.0 && LevelsKept(axis, n, precision)
    ensures Mapped(cells, from, w, axis, n) && forall j: nat :: j < |w| ==> Arrives(cells, from, w, axis, n, precision, j)
  {
    cells := MapWord(w, axis, n, from);
    hide *;
    MappedWordArrives(cells, w, axis, n, precision, from);
  }

  lemma MappedArrives(cells: seq<Complex>, from: nat, w: seq<bool>, axis: nat, n: real, precision: real, j: nat)
    requires axis > 0 && n > 0.0 && precision > 0.0 && j < |w| && from + CellOf(j, axis) < |cells|
    requires cells[from + CellOf(j, axis)] == MappedCell(w, CellOf(j, axis), axis, n)
    requires LevelsKept(axis, n, precision)
    ensures Arrives(cells, from, w, axis, n, precision, j)
  {
    hide Nearest, OffBoundaries, Fold, PartOf, CellOf, At, Pow2, Label, LevelOf, KeepsSign, PartBits, Level;
    var c, y := CellOf(j, axis), PartOf(j, axis);
    var k, part := y / 2, y % 2;
    var s := PartBits(w, c, axis, part);
    var l := LevelOf(s);
    EveryLabelHasLevel(s, n);
    MappedBit(w, j, axis);
    LevelIsNearest(l, axis, n);
    assert Amplitude(cells, from, j, axis) == At(l, n);
    assert BlockValue(cells, from, j, axis, n) == Fold(At(l, n), k, axis, n);
    FoldKept(l, k, axis, n, precision);
    assert Label(At(l, n), axis, n)[k] == w[j];
  }

  lemma FoldKept(l: int, k: nat, b: nat, n: real, precision: real)
    requires k < b && Level(l, b) && n > 0.0 && precision > 0.0
    requires LevelsKept(b, n, precision)
    ensures KeepsSign(precision, Fold(At(l, n), k, b, n))
  {
    hide At, Level, Fold, KeepsSign, Kept;
    assert Kept(precision, Fold(At(l, n), k, b, n));
    KeptExactly(precision, Fold(At(l, n), k, b, n));
  }

  // ---- One FEC block ----

  /** One FEC block as the transmitter makes it: codeword, parity interleaving, column twist and demultiplexing. */
  ghost predicate BlockSent(c: Code, t: Tables, to: seq<nat>, code: seq<bool>, p: seq<bool>, v: seq<bool>, w: seq<bool>)
    requires t.Ok() && |to| == t.row
  {
    ParityInterleaved(code, p, c.k, c.q) && ColumnTwisted(t, p, v) && Demultiplexed(t.row, to, v, w)
  }

  /** A demapped block has the signs of the parity-interleaved codeword. */
  lemma BlockSigns(c: Code, t: Tables, to: seq<nat>, code: seq<bool>, p: seq<bool>, v: seq<bool>, w: seq<bool>,
                   cells: seq<Complex>, from: nat, address: seq<nat>, axis: nat, n: real, precision: real, block: seq<int>)
    requires t.Ok() && |to| == t.row && BlockSent(c, t, to, code, p, v, w)
    requires forall i :: 0 <= i < t.row ==> to[t.demux[i]] == i
    requires |address| == t.Size() && forall i :: 0 <= i < |address| ==> address[i] == AddressAt(t, i)
    requires axis > 0 && n > 0.0 && precision > 0.0 && Demapped(cells, from, address, axis, n, precision, block)
    requires forall j: nat :: j < |w| ==> Arrives(cells, from, w, axis, n, precision, j)
    ensures Signs(block) == p
  {
    hide ParityInterleaved, ColumnTwisted, Demultiplexed, AddressAt, IsPermutation, Arrives, Tables.Ok, Tables.Size, Demapped;
    AddressesPermute(t, address);
    SentSizes(t, to, p, v, w);
    DemappedSize(cells, from, address, axis, n, precision, block);
    forall i | 0 <= i < |address| ensures address[i] < |block| && Signs(block)[address[i]] == w[i] {
      SignIsBit(cells, from, w, axis, n, precision, i);
      DemappedEntry(cells, from, address, axis, n, precision, block, i);
    }
    ScatterRestores(t, to, p, v, w, address, Signs(block));
  }

  lemma SentSizes(t: Tables, to: seq<nat>, p: seq<bool>, v: seq<bool>, w: seq<bool>)
    requires t.Ok() && |to| == t.row && ColumnTwisted(t, p, v) && Demultiplexed(t.row, to, v, w)
    ensures |p| == |v| == |w| == t.Size()
  {
  }

  lemma DemappedSize(cells: seq<Complex>, from: nat, address: seq<nat>, axis: nat, n: real, precision: real, block: seq<int>)
    requires axis > 0 && Demapped(cells, from, address, axis, n, precision, block)
    ensures |block| == |address|
  {
  }

  lemma DemappedEntry(cells: seq<Complex>, from: nat, address: seq<nat>, axis: nat, n: real, precision: real,
                      block: seq<int>, j: nat)
    requires axis > 0 && Demapped(cells, from, address, axis, n, precision, block) && j < |address|
    ensures from + CellOf(j, axis) < |cells| && address[j] < |block|
    ensures block[address[j]] == Quantize(precision, BlockValue(cells, from, j, axis, n))
  {
    assert DemappedAt(cells, from, address, axis, n, precision, block, j);
  }

  /** The lane of a block with the right signs has the signs of the codeword. */
  lemma LaneSigns(c: Code, block: seq<int>, code: seq<bool>)
    requires |block| == c.Length() && ParityInterleaved(code, Signs(block), c.k, c.q)
    ensures Signs(Deparity(c, block)) == code
  {
    hide ParityInterleaved, Deparity;
    var lane := Deparity(c, block);
    DeparityLayout(c, block);
    assert Signs(lane)[..c.k] == Signs(block)[..c.k] by {
      forall i | 0 <= i < c.k ensures Signs(lane)[i] == Signs(block)[i] {
        assert lane[..c.k][i] == block[..c.k][i];
      }
    }
    forall t: nat, s: nat | t < c.q && s < GROUP ensures ParityBit(Signs(lane), Signs(block), c.k, c.q, t, s) {
      assert ParityBit(lane, block, c.k, c.q, t, s);
    }
    ParityRestores(code, Signs(block), Signs(lane), c.k, c.q);
  }

  /** The first bits of the codeword are the scrambled frame. */
  ghost predicate CarriesFrame(code: seq<bool>, frame: seq<Bit>)
  {
    |frame| <= |code| && forall i :: 0 <= i < |frame| ==> (Scrambled(frame)[i] == 1 <==> code[i])
  }

  /** Descrambling the first hard decisions of a lane with the codeword's signs gives the frame. */
  lemma LaneGivesFrame(c: Code, lane: seq<int>, code: seq<bool>, frame: seq<Bit>)
    requires |lane| == c.Length() && Signs(lane) == code && |frame| <= c.k && CarriesFrame(code, frame)
    ensures Scrambled(Hard(lane, c.k)[..|frame|]) == frame
  {
    var h, s := Hard(lane, c.k)[..|frame|], Scrambled(frame);
    assert h == s by {
      forall i | 0 <= i < |frame| ensures h[i] == s[i] {
        assert Signs(lane)[i] == code[i];
      }
    }
    ScrambledTwice(frame);
  }

  /** What the BCH stage makes of batch `batch`, through the LDPC stage, for lane `k`. */
  function FrameOut(c: Code, kb: nat, lanes: seq<seq<int>>, k: nat): seq<Bit>
    requires Shaped(lanes, c.Length()) && k < LANES && kb <= c.k
  {
    HardBlocksLength(c, lanes);
    Scrambled(BlockOf(Flat(HardBlocks(lanes, c.k, LANES)), c.k, k)[..kb])
  }

  lemma HardBlocksLength(c: Code, lanes: seq<seq<int>>)
    requires Shaped(lanes, c.Length())
    ensures |Flat(HardBlocks(lanes, c.k, LANES))| == LANES * c.k
  {
    FlatLength(HardBlocks(lanes, c.k, LANES), c.k);
  }

  /** The core keeps the hard decisions of these lanes. */
  ghost predicate KeepsDecisions(core: seq<seq<int>> -> Outcome, lanes: seq<seq<int>>, size: nat)
  {
    && core(lanes).Decoded? && Shaped(lanes, size) && Shaped(core(lanes).lanes, size)
    && forall k :: 0 <= k < LANES ==> Signs(core(lanes).lanes[k]) == Signs(lanes[k])
  }

  /** A demapped block from which `frame` can be had: its signs are a parity-interleaved codeword that carries the frame. */
  ghost predicate Holds(c: Code, block: seq<int>, code: seq<bool>, frame: seq<Bit>)
  {
    |block| == c.Length() && ParityInterleaved(code, Signs(block), c.k, c.q) && CarriesFrame(code, frame) && |frame| <= c.k
  }

  /**
   Across batches and buffer swaps: frame `k` that comes out of batch `j` is the frame of the demapper's
   block 32 j + k, when the core keeps that batch's hard decisions.
   */
  lemma FramesInOrder(c: Code, batches: seq<seq<int>>, finished: seq<seq<int>>, pending: seq<int>, blocks: nat,
                      core: seq<seq<int>> -> Outcome, j: nat, k: nat, code: seq<bool>, frame: seq<Bit>)
    requires Ledger(batches, finished, pending, blocks, c.Length()) && j < |batches| && k < LANES
    requires Holds(c, finished[LANES * j + k], code, frame)
    requires |batches[j]| == LANES * c.Length() ==> KeepsDecisions(core, LanesOf(c, batches[j]), c.Length())
    ensures |batches[j]| == LANES * c.Length()
    ensures FrameOut(c, |frame|, core(LanesOf(c, batches[j])).lanes, k) == frame
  {
    var block := finished[LANES * j + k];
    BatchBlock(batches, finished, pending, blocks, c.Length(), j, k);
    hide Ledger, ParityInterleaved, Deparity, Scrambled, Hard, Flat, Code.Length;
    var lanes := LanesOf(c, batches[j]);
    assert lanes[k] == Deparity(c, block);
    LaneSigns(c, block, code);
    var out := core(lanes).lanes;
    assert Signs(out[k]) == Signs(lanes[k]);
    LaneGivesFrame(c, out[k], code, frame);
    OutBlock(c, out, k);
  }

  lemma BatchBlock(batches: seq<seq<int>>, finished: seq<seq<int>>, pending: seq<int>, blocks: nat, size: nat, j: nat, k: nat)
    requires Ledger(batches, finished, pending, blocks, size) && j < |batches| && k < LANES
    ensures |batches[j]| == LANES * size && BlockOf(batches[j], size, k) == finished[LANES * j + k]
  {
    var part := finished[LANES * j..LANES * j + LANES];
    assert batches[j] == Flat(part);
    FlatAt(part, size, k);
  }

  lemma OutBlock(c: Code, lanes: seq<seq<int>>, k: nat)
    requires Shaped(lanes, c.Length()) && k < LANES
    ensures |Flat(HardBlocks(lanes, c.k, LANES))| == LANES * c.k
    ensures BlockOf(Flat(HardBlocks(lanes, c.k, LANES)), c.k, k) == Hard(lanes[k], c.k)
  {
    FlatAt(HardBlocks(lanes, c.k, LANES), c.k, k);
  }

  /** One FEC block on its way: the cells it arrives in, from `from` on, and the transmitter's stages it came through. */
  datatype Sending = Sending(frame: seq<Bit>, code: seq<bool>, p: seq<bool>, v: seq<bool>, w: seq<bool>, cells: seq<Complex>, from: nat)

  ghost predicate SentThrough(s: Sending, c: Code, t: Tables, to: seq<nat>, axis: nat, n: real, precision: real)
    requires t.Ok() && |to| == t.row && axis > 0
  {
    && CarriesFrame(s.code, s.frame) && |s.frame| <= c.k
    && BlockSent(c, t, to, s.code, s.p, s.v, s.w)
    && forall j: nat :: j < |s.w| ==> Arrives(s.cells, s.from, s.w, axis, n, precision, j)
  }

  /**
   The bit path inverts the transmitter: a block the demapper made of the cells of `s` comes out of the
   BCH stage as the frame of `s`, in its batch and lane.
   */
  lemma FrameDelivered(s: Sending, c: Code, t: Tables, to: seq<nat>, address: seq<nat>, axis: nat, n: real, precision: real,
                       batches: seq<seq<int>>, finished: seq<seq<int>>, pending: seq<int>, blocks: nat,
                       core: seq<seq<int>> -> Outcome, j: nat, k: nat)
    requires t.Ok() && |to| == t.row && forall i :: 0 <= i < t.row ==> to[t.demux[i]] == i
    requires t.Size() == c.Length() == |address| && forall i :: 0 <= i < |address| ==> address[i] == AddressAt(t, i)
    requires axis > 0 && n > 0.0 && precision > 0.0 && SentThrough(s, c, t, to, axis, n, precision)
    requires Ledger(batches, finished, pending, blocks, c.Length()) && j < |batches| && k < LANES
    requires Demapped(s.cells, s.from, address, axis, n, precision, finished[LANES * j + k])
    requires |batches[j]| == LANES * c.Length() ==> KeepsDecisions(core, LanesOf(c, batches[j]), c.Length())
    ensures |batches[j]| == LANES * c.Length()
    ensures FrameOut(c, |s.frame|, core(LanesOf(c, batches[j])).lanes, k) == s.frame
  {
    var block := finished[LANES * j + k];
    BlockSigns(c, t, to, s.code, s.p, s.v, s.w, s.cells, s.from, address, axis, n, precision, block);
    hide Ledger, Demapped, ParityInterleaved, ColumnTwisted, Demultiplexed, Arrives, KeepsDecisions, Code.Length, Tables.Ok, Tables.Size;
    BatchBlock(batches, finished, pending, blocks, c.Length(), j, k);
    FramesInOrder(c, batches, finished, pending, blocks, core, j, k, s.code, s.frame);
  }
}
