/** The soft demapper: its address tables and the packing of FEC blocks into batches of 32. */
module LlrDemapper {
  import opened Samples
  import opened Primes
  import opened Permutations
  import opened BitInterleaver
  import GrayMapping
  import opened SoftBits
  import opened Batches

  // ---- The address tables ----

  const FEC_SIZE_NORMAL := 64800
  const FEC_SIZE_SHORT := 16200

  datatype Constellation = Qam16 | Qam64 | Qam256
  datatype FecSize = Normal | Short
  datatype CodeRate = C1_2 | C3_5 | C2_3 | C3_4 | C4_5 | C5_6

  function Twists(m: Constellation, size: FecSize): seq<nat>
  {
    match (m, size)
    case (Qam16, Short) => [0, 0, 0, 1, 7, 20, 20, 21]
    case (Qam16, Normal) => [0, 0, 2, 4, 4, 5, 7, 7]
    case (Qam64, Short) => [0, 0, 0, 2, 2, 2, 3, 3, 3, 6, 7, 7]
    case (Qam64, Normal) => [0, 0, 2, 2, 3, 4, 4, 5, 5, 7, 8, 9]
    case (Qam256, Short) => [0, 0, 0, 1, 7, 20, 20, 21]
    case (Qam256, Normal) => [0, 2, 2, 2, 2, 3, 7, 15, 16, 20, 22, 22, 27, 27, 28, 32]
  }

  function Demux(m: Constellation, size: FecSize, rate: CodeRate): seq<nat>
  {
    match (m, size)
    case (Qam16, Normal) => if rate == C3_5 then [0, 2, 3, 6, 4, 1, 7, 5] else [7, 1, 3, 5, 2, 4, 6, 0]
    case (Qam16, Short) => [7, 1, 3, 5, 2, 4, 6, 0]
    case (Qam64, Normal) =>
      if rate == C3_5 then [4, 6, 0, 5, 8, 10, 2, 1, 7, 3, 11, 9] else [11, 8, 5, 2, 10, 7, 4, 1, 9, 6, 3, 0]
    case (Qam64, Short) => [11, 8, 5, 2, 10, 7, 4, 1, 9, 6, 3, 0]
    case (Qam256, Normal) =>
      if rate == C3_5 then [4, 6, 0, 2, 3, 14, 12, 10, 7, 5, 8, 1, 15, 9, 11, 13]
      else if rate == C2_3 then [3, 15, 1, 7, 4, 11, 5, 0, 12, 2, 9, 14, 13, 6, 8, 10]
      else [15, 1, 13, 3, 10, 7, 9, 11, 4, 6, 8, 5, 12, 2, 14, 0]
    case (Qam256, Short) => [7, 2, 4, 1, 6, 3, 5, 0]
  }

  /** Where the transmitter's demultiplexer sends each input bit: the inverse of `Demux`. */
  function DemuxTo(m: Constellation, size: FecSize, rate: CodeRate): seq<nat>
  {
    match (m, size)
    case (Qam16, Normal) => if rate == C3_5 then [0, 5, 1, 2, 4, 7, 3, 6] else [7, 1, 4, 2, 5, 3, 6, 0]
    case (Qam16, Short) => [7, 1, 4, 2, 5, 3, 6, 0]
    case (Qam64, Normal) =>
      if rate == C3_5 then [2, 7, 6, 9, 0, 3, 1, 8, 4, 11, 5, 10] else [11, 7, 3, 10, 6, 2, 9, 5, 1, 8, 4, 0]
    case (Qam64, Short) => [11, 7, 3, 10, 6, 2, 9, 5, 1, 8, 4, 0]
    case (Qam256, Normal) =>
      if rate == C3_5 then [2, 11, 3, 4, 0, 9, 1, 8, 10, 13, 7, 14, 6, 15, 5, 12]
      else if rate == C2_3 then [7, 2, 9, 0, 4, 6, 13, 3, 14, 10, 15, 5, 8, 12, 11, 1]
      else [15, 1, 13, 3, 8, 11, 9, 5, 10, 6, 4, 7, 12, 2, 14, 0]
    case (Qam256, Short) => [7, 3, 1, 5, 2, 6, 4, 0]
  }

  function Columns(m: Constellation, size: FecSize): nat
  {
    match (m, size)
    case (Qam16, Short) => 2025
    case (Qam16, Normal) => 8100
    case (Qam64, Short) => 1350
    case (Qam64, Normal) => 5400
    case (Qam256, Short) => 2025
    case (Qam256, Normal) => 4050
  }

  function Table(m: Constellation, size: FecSize, rate: CodeRate): Tables
  {
    Tables(Columns(m, size), |Twists(m, size)|, Twists(m, size), Demux(m, size, rate))
  }

  lemma Demux16()
    ensures MatchedFrom([7, 1, 3, 5, 2, 4, 6, 0], [7, 1, 4, 2, 5, 3, 6, 0], 0)
  {
    assert MatchedFrom([7, 1, 3, 5, 2, 4, 6, 0], [7, 1, 4, 2, 5, 3, 6, 0], 4);
  }

  lemma Demux16At3_5()
    ensures MatchedFrom([0, 2, 3, 6, 4, 1, 7, 5], [0, 5, 1, 2, 4, 7, 3, 6], 0)
  {
    assert MatchedFrom([0, 2, 3, 6, 4, 1, 7, 5], [0, 5, 1, 2, 4, 7, 3, 6], 4);
  }

  lemma Demux64()
    ensures MatchedFrom([11, 8, 5, 2, 10, 7, 4, 1, 9, 6, 3, 0], [11, 7, 3, 10, 6, 2, 9, 5, 1, 8, 4, 0], 0)
  {
    assert MatchedFrom([11, 8, 5, 2, 10, 7, 4, 1, 9, 6, 3, 0], [11, 7, 3, 10, 6, 2, 9, 5, 1, 8, 4, 0], 8);
    assert MatchedFrom([11, 8, 5, 2, 10, 7, 4, 1, 9, 6, 3, 0], [11, 7, 3, 10, 6, 2, 9, 5, 1, 8, 4, 0], 4);
  }

  lemma Demux64At3_5()
    ensures MatchedFrom([4, 6, 0, 5, 8, 10, 2, 1, 7, 3, 11, 9], [2, 7, 6, 9, 0, 3, 1, 8, 4, 11, 5, 10], 0)
  {
    assert MatchedFrom([4, 6, 0, 5, 8, 10, 2, 1, 7, 3, 11, 9], [2, 7, 6, 9, 0, 3, 1, 8, 4, 11, 5, 10], 8);
    assert MatchedFrom([4, 6, 0, 5, 8, 10, 2, 1, 7, 3, 11, 9], [2, 7, 6, 9, 0, 3, 1, 8, 4, 11, 5, 10], 4);
  }

  lemma Demux256Short()
    ensures MatchedFrom([7, 2, 4, 1, 6, 3, 5, 0], [7, 3, 1, 5, 2, 6, 4, 0], 0)
  {
    assert MatchedFrom([7, 2, 4, 1, 6, 3, 5, 0], [7, 3, 1, 5, 2, 6, 4, 0], 4);
  }

  lemma Demux256()
    ensures MatchedFrom([15, 1, 13, 3, 10, 7, 9, 11, 4, 6, 8, 5, 12, 2, 14, 0], [15, 1, 13, 3, 8, 11, 9, 5, 10, 6, 4, 7, 12, 2, 14, 0], 0)
  {
    assert MatchedFrom([15, 1, 13, 3, 10, 7, 9, 11, 4, 6, 8, 5, 12, 2, 14, 0], [15, 1, 13, 3, 8, 11, 9, 5, 10, 6, 4, 7, 12, 2, 14, 0], 12);
    assert MatchedFrom([15, 1, 13, 3, 10, 7, 9, 11, 4, 6, 8, 5, 12, 2, 14, 0], [15, 1, 13, 3, 8, 11, 9, 5, 10, 6, 4, 7, 12, 2, 14, 0], 8);
    assert MatchedFrom([15, 1, 13, 3, 10, 7, 9, 11, 4, 6, 8, 5, 12, 2, 14, 0], [15, 1, 13, 3, 8, 11, 9, 5, 10, 6, 4, 7, 12, 2, 14, 0], 4);
  }

  lemma Demux256At3_5()
    ensures MatchedFrom([4, 6, 0, 2, 3, 14, 12, 10, 7, 5, 8, 1, 15, 9, 11, 13], [2, 11, 3, 4, 0, 9, 1, 8, 10, 13, 7, 14, 6, 15, 5, 12], 0)
  {
    assert MatchedFrom([4, 6, 0, 2, 3, 14, 12, 10, 7, 5, 8, 1, 15, 9, 11, 13], [2, 11, 3, 4, 0, 9, 1, 8, 10, 13, 7, 14, 6, 15, 5, 12], 12);
    assert MatchedFrom([4, 6, 0, 2, 3, 14, 12, 10, 7, 5, 8, 1, 15, 9, 11, 13], [2, 11, 3, 4, 0, 9, 1, 8, 10, 13, 7, 14, 6, 15, 5, 12], 8);
    assert MatchedFrom([4, 6, 0, 2, 3, 14, 12, 10, 7, 5, 8, 1, 15, 9, 11, 13], [2, 11, 3, 4, 0, 9, 1, 8, 10, 13, 7, 14, 6, 15, 5, 12], 4);
  }

  lemma Demux256At2_3()
    ensures MatchedFrom([3, 15, 1, 7, 4, 11, 5, 0, 12, 2, 9, 14, 13, 6, 8, 10], [7, 2, 9, 0, 4, 6, 13, 3, 14, 10, 15, 5, 8, 12, 11, 1], 0)
  {
    assert MatchedFrom([3, 15, 1, 7, 4, 11, 5, 0, 12, 2, 9, 14, 13, 6, 8, 10], [7, 2, 9, 0, 4, 6, 13, 3, 14, 10, 15, 5, 8, 12, 11, 1], 12);
    assert MatchedFrom([3, 15, 1, 7, 4, 11, 5, 0, 12, 2, 9, 14, 13, 6, 8, 10], [7, 2, 9, 0, 4, 6, 13, 3, 14, 10, 15, 5, 8, 12, 11, 1], 8);
    assert MatchedFrom([3, 15, 1, 7, 4, 11, 5, 0, 12, 2, 9, 14, 13, 6, 8, 10], [7, 2, 9, 0, 4, 6, 13, 3, 14, 10, 15, 5, 8, 12, 11, 1], 4);
  }

  lemma DemuxInverted(m: Constellation, size: FecSize, rate: CodeRate)
    ensures var s, to := Demux(m, size, rate), DemuxTo(m, size, rate);
            |s| == |to| == |Twists(m, size)| && MatchedFrom(s, to, 0)
  {
    hide MatchedFrom;
    match m
    case Qam16 =>
      Demux16();
      Demux16At3_5();
    case Qam64 =>
      Demux64();
      Demux64At3_5();
    case Qam256 =>
      Demux256Short();
      Demux256();
      Demux256At3_5();
      Demux256At2_3();
  }

  lemma TwistsFit(m: Constellation, size: FecSize)
    ensures forall r :: 0 <= r < |Twists(m, size)| ==> Twists(m, size)[r] <= Columns(m, size)
    ensures Columns(m, size) * |Twists(m, size)| == if size == Normal then FEC_SIZE_NORMAL else FEC_SIZE_SHORT
  {
  }

  /** Each of the source's tables twists within its columns, demultiplexes by a permutation and covers a FEC block. */
  lemma TablesAreOk(m: Constellation, size: FecSize, rate: CodeRate)
    ensures var t, to := Table(m, size, rate), DemuxTo(m, size, rate);
            && t.Ok() && t.Size() == (if size == Normal then FEC_SIZE_NORMAL else FEC_SIZE_SHORT)
            && |to| == t.row && forall n :: 0 <= n < t.row ==> to[t.demux[n]] == n
  {
    DemuxInverted(m, size, rate);
    TwistsFit(m, size);
    hide Twists, Demux, DemuxTo, Columns, MatchedFrom, IsPermutation;
    var s, to := Demux(m, size, rate), DemuxTo(m, size, rate);
    PermutationByInverse(s, to);
    forall n | 0 <= n < |s| ensures s[n] < |to| && to[s[n]] == n {
      MatchedAt(s, to, 0, n);
    }
  }

  /** The intermediate table: for each row of the twisted matrix, the index of each column's bit. */
  method TwistTable(t: Tables) returns (twist: array<nat>)
    requires t.Ok()
    ensures fresh(twist) && twist.Length == t.Size() && forall i :: 0 <= i < t.Size() ==> twist[i] == TwistAt(t, i)
  {
    hide Twist, Tables.Ok, Tables.Size, TwistAt;
    twist := new nat[t.Size()];
    SizeIs(t);
    for c := 0 to t.column
      invariant c * t.row <= twist.Length
      invariant forall i :: 0 <= i < c * t.row ==> twist[i] == TwistAt(t, i)
    {
      RoomFor(c, t.column, t.row);
      for r := 0 to t.row
        invariant forall i :: 0 <= i < c * t.row + r ==> twist[i] == TwistAt(t, i)
      {
        TwistIsAt(t, c, r);
        twist[c * t.row + r] := t.column * r + (c + t.column - t.tc[r]) % t.column;
      }
    }
  }

  lemma SizeIs(t: Tables)
    requires t.Ok()
    ensures t.Size() == t.column * t.row && t.row > 0 && t.column > 0 && |t.demux| == |t.tc| == t.row
  {
  }

  /** The table of one constellation and FEC size: the intermediate table, each word demultiplexed. */
  method AddressGenerator(t: Tables, address: array<nat>)
    requires t.Ok() && address.Length == t.Size()
    modifies address
    ensures forall i :: 0 <= i < t.Size() ==> address[i] == AddressAt(t, i)
    ensures IsPermutation(address[..], t.Size())
  {
    hide AddressAt, IsPermutation, Tables.Ok, Tables.Size, TwistAt;
    var twist := TwistTable(t);
    SizeIs(t);
    var k, n := 0, 0;
    ghost var q := 0;
    for i := 0 to t.Size()
      invariant k == q * t.row && i == k + n && n < t.row
      invariant forall j :: 0 <= j < i ==> address[j] == AddressAt(t, j)
      modifies address
    {
      MulInside(q, t.row, t.column, i);
      AddressIsAt(t, q, n);
      address[i] := twist[t.demux[n] + k];
      n := n + 1;
      if n == t.row {
        n := 0;
        k := k + t.row;
        assert (q + 1) * t.row == q * t.row + t.row;
        q := q + 1;
      }
    }
    AddressesPermute(t, address[..]);
  }

  /** Entry `i` of the intermediate table. */
  function TwistAt(t: Tables, i: nat): nat
    requires t.Ok() && i < t.Size()
  {
    Twist(t, i / t.row, i % t.row)
  }

  lemma TwistIsAt(t: Tables, c: nat, r: nat)
    requires t.Ok() && c < t.column && r < t.row
    ensures c * t.row + r < t.Size()
    ensures r < |t.tc| && t.tc[r] <= t.column
    ensures TwistAt(t, c * t.row + r) == t.column * r + (c + t.column - t.tc[r]) % t.column
  {
    RoomFor(c, t.column, t.row);
    QuotientIsUnique(t.row, c, r);
  }

  lemma AddressIsAt(t: Tables, q: nat, n: nat)
    requires t.Ok() && q < t.column && n < t.row
    ensures t.demux[n] < t.row
    ensures q * t.row + t.demux[n] < t.Size() && q * t.row + n < t.Size()
    ensures AddressAt(t, q * t.row + n) == TwistAt(t, q * t.row + t.demux[n])
  {
    hide Twist;
    RoomFor(q, t.column, t.row);
    QuotientIsUnique(t.row, q, n);
    QuotientIsUnique(t.row, q, t.demux[n]);
  }

  lemma MulInside(q: nat, m: nat, n: nat, i: nat)
    requires q * m <= i < n * m
    ensures q < n
  {
    MulMonotone(n, if q < n then n else q, m);
  }

  // ---- Batches ----

  /** Soft value `y` of one cell: real and imaginary axis in turn, fold by fold. */
  function CellValue(x: Complex, y: nat, axis: nat, n: real): real
    requires y < 2 * axis
  {
    GrayMapping.Fold(if y % 2 == 0 then x.re else x.im, y / 2, axis, n)
  }

  /** The cell of a block that carries value `j`, and which of that cell's values it is. */
  function CellOf(j: nat, axis: nat): nat
    requires axis > 0
  {
    Quotient(j, 2 * axis)
  }

  function Quotient(j: nat, m: nat): nat
    requires m > 0
  {
    j / m
  }

  function PartOf(j: nat, axis: nat): (y: nat)
    requires axis > 0
    ensures y < 2 * axis
  {
    var per: nat := 2 * axis;
    j % per
  }

  /** Soft value `j` of the FEC block whose cells start at `from`. */
  function BlockValue(cells: seq<Complex>, from: nat, j: nat, axis: nat, n: real): real
    requires axis > 0 && from + CellOf(j, axis) < |cells|
  {
    CellValue(cells[from + CellOf(j, axis)], PartOf(j, axis), axis, n)
  }

  /** `block` holds at its addresses the quantised soft values of the cells from `from` on. */
  ghost predicate Demapped(cells: seq<Complex>, from: nat, address: seq<nat>, axis: nat, n: real, precision: real,
                           block: seq<int>)
    requires axis > 0
  {
    && |block| == |address|
    && forall j :: 0 <= j < |address| ==> DemappedAt(cells, from, address, axis, n, precision, block, j)
  }

  ghost predicate DemappedAt(cells: seq<Complex>, from: nat, address: seq<nat>, axis: nat, n: real, precision: real,
                             block: seq<int>, j: nat)
    requires axis > 0 && j < |address|
  {
    && from + CellOf(j, axis) < |cells| && address[j] < |block|
    && block[address[j]] == Quantize(precision, BlockValue(cells, from, j, axis, n))
  }

  lemma CellOfValue(axis: nat, c: nat, y: nat)
    requires y < 2 * axis
    ensures CellOf(c * (2 * axis) + y, axis) == c && PartOf(c * (2 * axis) + y, axis) == y
  {
    var per: nat := 2 * axis;
    QuotientIsUnique(per, c, y);
    assert per * c == c * per;
  }

  /** The finished blocks, in order: 32 to each batch, and `blocks` more in the buffer being filled. */
  ghost predicate Ledger(batches: seq<seq<int>>, finished: seq<seq<int>>, pending: seq<int>, blocks: nat, size: nat)
  {
    && |finished| == LANES * |batches| + blocks
    && (forall k :: 0 <= k < |finished| ==> |finished[k]| == size)
    && (forall j :: 0 <= j < |batches| ==> batches[j] == Flat(finished[LANES * j..LANES * j + LANES]))
    && pending == Flat(finished[LANES * |batches|..])
  }

  lemma LedgerAdds(batches: seq<seq<int>>, finished: seq<seq<int>>, pending: seq<int>, blocks: nat, size: nat, block: seq<int>)
    requires Ledger(batches, finished, pending, blocks, size) && |block| == size
    ensures Ledger(batches, finished + [block], pending + block, blocks + 1, size)
  {
    var more, at := finished + [block], LANES * |batches|;
    assert more[at..] == finished[at..] + [block];
    FlatAppend(finished[at..], block);
    forall j | 0 <= j < |batches| ensures batches[j] == Flat(more[LANES * j..LANES * j + LANES]) {
      assert more[LANES * j..LANES * j + LANES] == finished[LANES * j..LANES * j + LANES];
    }
  }

  lemma LedgerSends(batches: seq<seq<int>>, finished: seq<seq<int>>, pending: seq<int>, size: nat)
    requires Ledger(batches, finished, pending, LANES, size)
    ensures Ledger(batches + [pending], finished, [], 0, size) && |pending| == LANES * size
  {
    var at := LANES * |batches|;
    FlatLength(finished[at..], size);
    assert finished[at..] == finished[at..at + LANES] && finished[at + LANES..] == [];
  }

  /** Where the values of cell `m` of a group lie that starts with cell `c`. */
  lemma CellInGroup(c: nat, m: nat, axis: nat)
    requires m < 4
    ensures (c + m) * (2 * axis) == c * (2 * axis) + m * (2 * axis)
    ensures (c + m + 1) * (2 * axis) == c * (2 * axis) + (m + 1) * (2 * axis)
    ensures m * (2 * axis) + 2 * axis <= 8 * axis
  {
  }

  class Demapper {
    const axis: nat           // bits of one axis of a cell
    const norm: real
    const address: seq<nat>   // of one constellation, FEC size and code rate
    const bufferA: array<int>
    const bufferB: array<int>

    var swapBuffer: bool
    var blocks: nat
    var out: array<int>       // the buffer being filled
    var outAt: nat            // where in it the next block starts
    var batches: seq<seq<int>>             // the batches emitted so far
    ghost var finished: seq<seq<int>>      // every FEC block finished so far

    function FecSize(): nat { |address| }

    ghost predicate Valid()
      reads this, bufferA, bufferB
    {
      && axis > 0 && |address| > 0 && |address| % (8 * axis) == 0 && IsPermutation(address, |address|)
      && bufferA != bufferB && bufferA.Length == bufferB.Length && bufferA.Length >= LANES * FecSize()
      && out == (if swapBuffer then bufferA else bufferB)
      && blocks < LANES && outAt == blocks * FecSize() && outAt <= out.Length
      && Ledger(batches, finished, out[..outAt], blocks, FecSize())
    }

    constructor (axis: nat, norm: real, address: seq<nat>, length: nat)
      requires axis > 0 && |address| > 0 && |address| % (8 * axis) == 0 && IsPermutation(address, |address|)
      requires length >= LANES * |address|
      ensures Valid() && finished == [] && batches == []
      ensures this.axis == axis && this.norm == norm && this.address == address
    {
      this.axis, this.norm, this.address := axis, norm, address;
      var a := new int[length];
      var b := new int[length];
      bufferA, bufferB, out := a, b, a;
      swapBuffer, blocks, outAt, batches, finished := true, 0, 0, [], [];
    }

    /** Writes the soft values of one cell at the block's addresses from `pos` on. */
    method PutCell(x: Complex, pos: nat, precision: real)
      requires Valid() && pos + 2 * axis <= FecSize()
      modifies out
      ensures Valid() && out[..outAt] == old(out[..outAt])
      ensures forall j :: 0 <= j < pos ==> Written(j) == old(Written(j))
      ensures forall y :: 0 <= y < 2 * axis ==> Written(pos + y) == Quantize(precision, CellValue(x, y, axis, norm))
    {
      BlockFits();
      for y := 0 to 2 * axis
        invariant out[..outAt] == old(out[..outAt])
        invariant forall j :: 0 <= j < pos ==> Written(j) == old(Written(j))
        invariant forall z :: 0 <= z < y ==> Written(pos + z) == Quantize(precision, CellValue(x, z, axis, norm))
      {
        out[outAt + address[pos + y]] := Quantize(precision, CellValue(x, y, axis, norm));
      }
    }

    /** What the block being filled holds at its address `j`. */
    ghost function Written(j: nat): int
      reads this, bufferA, bufferB
      requires Valid() && j < FecSize()
    {
      BlockFits();
      out[outAt + address[j]]
    }

    lemma BlockFits()
      requires Valid()
      ensures outAt + FecSize() <= out.Length
    {
      RoomForBlock(blocks, FecSize(), out.Length);
    }

    /** The first `count` values of the block being filled are those of the cells from `start` on. */
    ghost predicate Filled(cells: seq<Complex>, start: nat, count: nat, precision: real)
      reads this, bufferA, bufferB
      requires Valid()
    {
      && count <= FecSize()
      && forall j :: 0 <= j < count ==> FilledAt(cells, start, j, precision)
    }

    ghost predicate FilledAt(cells: seq<Complex>, start: nat, j: nat, precision: real)
      reads this, bufferA, bufferB
      requires Valid() && j < FecSize()
    {
      start + CellOf(j, axis) < |cells| && Written(j) == Quantize(precision, BlockValue(cells, start, j, axis, norm))
    }

    /** Adds the next cell of the block. */
    method PutNext(x: Complex, pos: nat, precision: real, ghost cells: seq<Complex>, ghost start: nat, ghost c: nat)
      requires Valid() && start + c < |cells| && x == cells[start + c] && pos == c * (2 * axis)
               && pos + 2 * axis <= FecSize()
      requires Filled(cells, start, pos, precision)
      modifies out
      ensures Valid() && Filled(cells, start, (c + 1) * (2 * axis), precision)
    {
      hide Written, CellValue, Quantize, CellOf, PartOf, Ledger, IsPermutation;
      PutCell(x, pos, precision);
      CellInGroup(c, 0, axis);
      forall j | 0 <= j < pos + 2 * axis ensures FilledAt(cells, start, j, precision) {
        if j < pos {
          assert old(FilledAt(cells, start, j, precision));
        } else {
          CellOfValue(axis, c, j - pos);
          assert Written(pos + (j - pos)) == Quantize(precision, CellValue(x, j - pos, axis, norm));
        }
      }
    }

    /** The block in `out` is complete: the next one follows it, or the batch goes out and the buffers swap. */
    method FinishBlock()
      requires Valid()
      modifies this
      ensures Valid()
      ensures old(outAt) + FecSize() <= old(out).Length
      ensures finished == old(finished) + [old(out[outAt..outAt + FecSize()])]
    {
      hide Ledger, Flat, IsPermutation;
      BlockFits();
      ghost var block, pending := out[outAt..outAt + FecSize()], out[..outAt];
      LedgerAdds(batches, finished, pending, blocks, FecSize(), block);
      assert out[..outAt + FecSize()] == pending + block;
      finished := finished + [block];
      assert (blocks + 1) * FecSize() == blocks * FecSize() + FecSize();
      outAt := outAt + FecSize();
      blocks := blocks + 1;
      if blocks == LANES {
        LedgerSends(batches, finished, out[..outAt], FecSize());
        blocks := 0;
        outAt := 0;
        if swapBuffer {
          swapBuffer := false;
          batches := batches + [bufferA[..FecSize() * LANES]];
          out := bufferB;
        } else {
          swapBuffer := true;
          batches := batches + [bufferB[..FecSize() * LANES]];
          out := bufferA;
        }
      }
    }

    /** Cells of one FEC block. */
    ghost function PerBlock(): nat
      requires axis > 0
    {
      Quotient(FecSize(), 2 * axis)
    }

    /** The next four cells of the block. */
    method PutGroup(cells: seq<Complex>, i: nat, pos: nat, precision: real, ghost start: nat, ghost c: nat)
      requires Valid() && i == start + c && i + 4 <= |cells| && pos == c * (2 * axis) && pos + 8 * axis <= FecSize()
      requires Filled(cells, start, pos, precision)
      modifies out
      ensures Valid() && Filled(cells, start, pos + 8 * axis, precision)
    {
      hide *;
      for m := 0 to 4
        invariant Valid() && Filled(cells, start, pos + m * (2 * axis), precision)
      {
        CellInGroup(c, m, axis);
        PutNext(cells[i + m], pos + m * (2 * axis), precision, cells, start, c + m);
      }
    }

    /**
     Demaps the cells of whole FEC blocks, four cells at a time. Every block is finished in turn,
     each soft value at its address, whichever call and buffer it falls in.
     */
    method Execute(cells: seq<Complex>, precision: real)
      requires Valid() && PerBlock() > 0 && |cells| % PerBlock() == 0
      modifies this, bufferA, bufferB
      ensures Valid()
      ensures Delivered(old(finished), finished, cells, |cells| / PerBlock(), precision)
    {
      hide *;
      PositionStarts(|cells|);
      DeliveredNone(finished, cells, precision);
      FilledNone(cells, 0, precision);
      var i: nat, idxOut: nat := 0, 0;
      ghost var start: nat, c: nat, count: nat := 0, 0, 0;
      while i < |cells|
        invariant Valid() && Position(i, idxOut, start, c, count, |cells|)
        invariant Filled(cells, start, idxOut, precision)
        invariant Delivered(old(finished), finished, cells, count, precision)
        decreases |cells| - i
      {
        PositionMoves(i, idxOut, start, c, count, |cells|);
        OutIsOurs();
        PutGroup(cells, i, idxOut, precision, start, c);
        i := i + 4;
        c := c + 4;
        idxOut := idxOut + 8 * axis;
        if idxOut == FecSize() {
          idxOut := 0;
          FilledIsDemapped(cells, start, precision);
          DeliveredAdds(old(finished), finished, cells, count, precision, start, out[outAt..outAt + FecSize()]);
          FinishBlock();
          FilledNone(cells, i, precision);
          start, c, count := i, 0, count + 1;
        }
      }
      PositionEnds(i, idxOut, start, c, count, |cells|);
    }

    /** `count` blocks have been finished since there were `before`, the demapped cells of each in turn. */
    ghost predicate Delivered(before: seq<seq<int>>, now: seq<seq<int>>, cells: seq<Complex>, count: nat, precision: real)
      requires axis > 0
    {
      && |now| == |before| + count && before <= now
      && forall k: nat :: k < count ==> Demapped(cells, k * PerBlock(), address, axis, norm, precision, now[|before| + k])
    }

    lemma DeliveredNone(before: seq<seq<int>>, cells: seq<Complex>, precision: real)
      requires axis > 0
      ensures Delivered(before, before, cells, 0, precision)
    {
    }

    lemma DeliveredAdds(before: seq<seq<int>>, now: seq<seq<int>>, cells: seq<Complex>, count: nat, precision: real,
                        start: nat, block: seq<int>)
      requires axis > 0 && Delivered(before, now, cells, count, precision) && start == count * PerBlock()
      requires Demapped(cells, start, address, axis, norm, precision, block)
      ensures Delivered(before, now + [block], cells, count + 1, precision)
    {
      hide Demapped, PerBlock;
    }

    lemma OutIsOurs()
      requires Valid()
      ensures out == bufferA || out == bufferB
    {
    }

    lemma FilledNone(cells: seq<Complex>, start: nat, precision: real)
      requires Valid()
      ensures Filled(cells, start, 0, precision)
    {
    }

    /** `i` cells have been read, `c` of them, `idxOut` values, into the block that follows `count` whole ones. */
    ghost predicate Position(i: nat, idxOut: nat, start: nat, c: nat, count: nat, cells: nat)
      requires axis > 0
    {
      var per := PerBlock();
      && per > 0 && per % 4 == 0 && per * (2 * axis) == FecSize() && cells % per == 0
      && i == start + c && i <= cells && start == count * per && c % 4 == 0 && c < per
      && idxOut == c * (2 * axis)
    }

    lemma PositionStarts(cells: nat)
      requires Valid() && PerBlock() > 0 && cells % PerBlock() == 0
      ensures axis > 0 && Position(0, 0, 0, 0, 0, cells)
    {
      hide PerBlock;
      BlockShape();
    }

    lemma PositionMoves(i: nat, idxOut: nat, start: nat, c: nat, count: nat, cells: nat)
      requires axis > 0 && Position(i, idxOut, start, c, count, cells) && i < cells
      ensures i + 4 <= cells && idxOut + 8 * axis <= FecSize() && i == start + c && idxOut == c * (2 * axis)
      ensures start == count * PerBlock()
      ensures if idxOut + 8 * axis < FecSize() then Position(i + 4, idxOut + 8 * axis, start, c + 4, count, cells)
              else Position(i + 4, 0, i + 4, 0, count + 1, cells)
    {
      hide PerBlock;
      var per := PerBlock();
      BlockInside(start, count, per, cells);
      GroupInside(c, per, axis);
      assert (count + 1) * per == count * per + per;
      assert (c + 4) * (2 * axis) == c * (2 * axis) + 8 * axis;
    }

    lemma PositionEnds(i: nat, idxOut: nat, start: nat, c: nat, count: nat, cells: nat)
      requires axis > 0 && Position(i, idxOut, start, c, count, cells) && i >= cells
      ensures PerBlock() > 0 && count == cells / PerBlock()
    {
      hide PerBlock;
      assert cells == PerBlock() * count + c;
      QuotientIsUnique(PerBlock(), count, c);
    }

    lemma BlockShape()
      requires Valid()
      ensures PerBlock() % 4 == 0 && PerBlock() * (2 * axis) == FecSize()
    {
      var q: nat := FecSize() / (8 * axis);
      assert FecSize() == 8 * axis * q;
      assert 8 * axis * q == 2 * axis * (4 * q) + 0;
      QuotientIsUnique(2 * axis, 4 * q, 0);
    }

    lemma FilledIsDemapped(cells: seq<Complex>, start: nat, precision: real)
      requires Valid() && Filled(cells, start, FecSize(), precision)
      ensures outAt + FecSize() <= out.Length
      ensures Demapped(cells, start, address, axis, norm, precision, out[outAt..outAt + FecSize()])
    {
      BlockFits();
      ghost var block := out[outAt..outAt + FecSize()];
      forall j | 0 <= j < |address| ensures DemappedAt(cells, start, address, axis, norm, precision, block, j) {
        assert FilledAt(cells, start, j, precision);
      }
    }
  }

  lemma BlockInside(start: nat, count: nat, per: nat, cells: nat)
    requires per > 0 && start == count * per && start < cells && cells % per == 0
    ensures start + per <= cells
  {
    var total: nat := cells / per;
    assert cells == total * per;
    MulInside(count, per, total, start);
    RoomFor(count, total, per);
  }

  lemma GroupInside(c: nat, per: nat, axis: nat)
    requires c < per && c % 4 == 0 && per % 4 == 0 && axis > 0
    ensures c + 4 <= per
    ensures c * (2 * axis) + 8 * axis <= per * (2 * axis)
    ensures c * (2 * axis) + 8 * axis == per * (2 * axis) <==> c + 4 == per
  {
    var rest: nat := per - (c + 4);
    assert per * (2 * axis) == c * (2 * axis) + 8 * axis + rest * (2 * axis);
    if rest > 0 {
      MulAtLeast(2 * axis, rest);
    }
  }

  /** Bits of one axis of a cell. */
  function AxisBits(m: Constellation): nat
  {
    match m
    case Qam16 => 2
    case Qam64 => 3
    case Qam256 => 4
  }

  /**
   The loop takes four cells at a time and finishes a block when its count of values meets the
   FEC size: it ever does so exactly for normal FEC blocks and for 64-QAM.
   */
  lemma GroupsMeetBlockEnd(m: Constellation, size: FecSize, rate: CodeRate)
    ensures (exists k: nat :: k * (8 * AxisBits(m)) == Table(m, size, rate).Size()) <==> size == Normal || m == Qam64
  {
    hide Tables.Ok;
    TablesAreOk(m, size, rate);
    var group, fec := 8 * AxisBits(m), Table(m, size, rate).Size();
    hide Table, Tables.Size;
    if size == Normal || m == Qam64 {
      assert (fec / group) * group == fec;
    } else {
      forall k: nat ensures k * group != fec {
        assert group == 16 || group == 32;
      }
    }
  }
}
