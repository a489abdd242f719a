/**
 The counters of the time deinterleaver's loop as the program keeps them: a step and a block
 size in table entries, whose equality alone ends a row. They move as the deinterleaving
 machine does exactly when no TI block is empty.
 */
module TiCounters {
  import opened Samples
  import opened TimeInterleaver
  import opened TimeDeinterleaver

  datatype Counters = Counters(step: nat, row: nat, timeIl: nat, size: nat, sent: nat)

  /** Counters at the start of TI block `t`, with `sent` blocks handed on. */
  function BlockStart(rows: nat, blocks: seq<nat>, t: nat, sent: nat): Counters
    requires t < |blocks|
  {
    Counters(0, 0, t, SPLIT * blocks[t] * rows, sent)
  }

  /** Counters at the start of a frame with these TI blocks. */
  function FrameStart(rows: nat, blocks: seq<nat>): Counters
    requires |blocks| > 0
  {
    BlockStart(rows, blocks, 0, 0)
  }

  /** The table entry used for the cell received in this state. */
  function Entry(c: Counters): nat
  {
    c.step + c.row
  }

  /** What one received cell does to the counters. */
  function Tick(rows: nat, blocks: seq<nat>, c: Counters): Counters
  {
    if c.step + rows != c.size then c.(step := c.step + rows)
    else if c.row + 1 != rows then c.(step := 0, row := c.row + 1)
    else
      var next := c.timeIl + 1;
      var c := c.(step := 0, row := 0, sent := c.sent + 1);
      if next == |blocks| then c.(timeIl := 0)
      else if next < |blocks| then c.(timeIl := next, size := SPLIT * blocks[next] * rows)
      else c.(timeIl := next)
  }

  function Ticks(rows: nat, blocks: seq<nat>, c: Counters, n: nat): Counters
  {
    if n == 0 then c else Tick(rows, blocks, Ticks(rows, blocks, c, n - 1))
  }

  // ---- Frames in which every TI block has cells ----

  /** The counters of a machine state, with `before` blocks sent when the frame started. */
  function CountersOf(p: Plp, st: State, before: nat): Counters
    requires before <= |st.sent|
  {
    Counters(st.column * p.rows, st.row, st.timeIl, st.columns * p.rows, |st.sent| - before)
  }

  /** One cell moves the counters as it moves the machine. */
  lemma TickIsStep(p: Plp, st: State, x: Complex, before: nat)
    requires st.Ok(p) && before <= |st.sent|
    ensures before <= |Step(p, st, x).sent|
    ensures CountersOf(p, Step(p, st, x), before) == Tick(p.rows, p.blocks, CountersOf(p, st, before))
  {
    StoreMovesNothing(p, st, x);
    AdvanceTicks(p, Store(p, st, x), before);
  }

  lemma StoreMovesNothing(p: Plp, st: State, x: Complex)
    requires st.Ok(p)
    ensures var r := Store(p, st, x);
            r.sent == st.sent && r.columns == st.columns && r.column == st.column && r.row == st.row && r.timeIl == st.timeIl
  {
    hide State.Ok, Store;
  }

  lemma AdvanceTicks(p: Plp, st: State, before: nat)
    requires st.Ok(p) && st.end < |p.table| && before <= |st.sent|
    ensures before <= |Advance(p, st).sent|
    ensures CountersOf(p, Advance(p, st), before) == Tick(p.rows, p.blocks, CountersOf(p, st, before))
  {
    hide Plp.InTable, SetIm;
    LastColumn(st.column, st.columns, p.rows);
  }

  /** Over any cells the program's counters are those of the machine. */
  lemma {:induction false} TicksAreRun(p: Plp, st: State, xs: seq<Complex>, before: nat)
    requires st.Ok(p) && before <= |st.sent|
    ensures before <= |Run(p, st, xs).sent|
    ensures CountersOf(p, Run(p, st, xs), before) == Ticks(p.rows, p.blocks, CountersOf(p, st, before), |xs|)
    decreases |xs|
  {
    hide State.Ok, Step, CountersOf, Tick;
    if xs != [] {
      var r := Step(p, st, xs[0]);
      TickIsStep(p, st, xs[0], before);
      TicksAreRun(p, r, xs[1..], before);
      TicksShift(p.rows, p.blocks, CountersOf(p, st, before), |xs| - 1);
    }
  }

  lemma {:induction false} TicksShift(rows: nat, blocks: seq<nat>, c: Counters, n: nat)
    ensures Ticks(rows, blocks, Tick(rows, blocks, c), n) == Ticks(rows, blocks, c, n + 1)
  {
    hide Tick;
    if n > 0 {
      TicksShift(rows, blocks, c, n - 1);
    }
  }

  lemma {:induction false} TicksAdd(rows: nat, blocks: seq<nat>, c: Counters, m: nat, n: nat)
    ensures Ticks(rows, blocks, Ticks(rows, blocks, c, m), n) == Ticks(rows, blocks, c, m + n)
  {
    hide Tick;
    if n > 0 {
      TicksAdd(rows, blocks, c, m, n - 1);
    }
  }

  /** Within a TI block of some columns the counters walk row by row. */
  lemma {:induction false} WalkBlock(rows: nat, blocks: seq<nat>, t: nat, sent: nat, columns: nat, row: nat, column: nat)
    requires t < |blocks| && columns == SPLIT * blocks[t] && column < columns && row < rows
    ensures Ticks(rows, blocks, BlockStart(rows, blocks, t, sent), row * columns + column)
            == Counters(column * rows, row, t, columns * rows, sent)
    decreases row, column
  {
    hide Tick;
    if column > 0 {
      WalkBlock(rows, blocks, t, sent, columns, row, column - 1);
      LastColumn(column - 1, columns, rows);
      TickInRow(rows, blocks, t, sent, column - 1, columns, row);
    } else if row > 0 {
      WalkBlock(rows, blocks, t, sent, columns, row - 1, columns - 1);
      LastColumn(columns - 1, columns, rows);
      assert row * columns == (row - 1) * columns + columns;
      TickInRow(rows, blocks, t, sent, columns - 1, columns, row - 1);
    }
  }

  lemma TickInRow(rows: nat, blocks: seq<nat>, t: nat, sent: nat, column: nat, columns: nat, row: nat)
    requires t < |blocks| && column < columns && row < rows
    ensures var r := Tick(rows, blocks, Counters(column * rows, row, t, columns * rows, sent));
            if column + 1 < columns then r == Counters((column + 1) * rows, row, t, columns * rows, sent)
            else if row + 1 < rows then r == Counters(0, row + 1, t, columns * rows, sent)
            else if t + 1 < |blocks| then r == BlockStart(rows, blocks, t + 1, sent + 1)
            else r == Counters(0, 0, 0, columns * rows, sent + 1)
  {
    LastColumn(column, columns, rows);
  }

  /** The last cell of a TI block hands it on. */
  lemma BlockCloses(rows: nat, blocks: seq<nat>, t: nat, sent: nat)
    requires rows > 0 && t < |blocks| && blocks[t] > 0
    ensures var size := SPLIT * blocks[t] * rows;
            Ticks(rows, blocks, BlockStart(rows, blocks, t, sent), size)
            == if t + 1 < |blocks| then BlockStart(rows, blocks, t + 1, sent + 1) else Counters(0, 0, 0, size, sent + 1)
  {
    hide Tick;
    var columns := SPLIT * blocks[t];
    WalkBlock(rows, blocks, t, sent, columns, rows - 1, columns - 1);
    LastPosition(columns, rows, columns - 1, rows - 1);
    TickInRow(rows, blocks, t, sent, columns - 1, columns, rows - 1);
  }

  /** The cells of the TI blocks before `t`. */
  function CellsBefore(rows: nat, blocks: seq<nat>, t: nat): nat
    requires t <= |blocks|
  {
    if t == 0 then 0 else CellsBefore(rows, blocks, t - 1) + SPLIT * blocks[t - 1] * rows
  }

  /** TI block after TI block, each is handed on when its cells have been received. */
  lemma {:induction false} BlocksInTurn(rows: nat, blocks: seq<nat>, t: nat)
    requires rows > 0 && t < |blocks| && forall i :: 0 <= i < |blocks| ==> blocks[i] > 0
    ensures Ticks(rows, blocks, FrameStart(rows, blocks), CellsBefore(rows, blocks, t)) == BlockStart(rows, blocks, t, t)
  {
    hide Tick, Ticks;
    if t == 0 {
      NoTicks(rows, blocks, FrameStart(rows, blocks));
    } else {
      BlocksInTurn(rows, blocks, t - 1);
      BlockCloses(rows, blocks, t - 1, t - 1);
      TicksAdd(rows, blocks, FrameStart(rows, blocks), CellsBefore(rows, blocks, t - 1), SPLIT * blocks[t - 1] * rows);
    }
  }

  lemma NoTicks(rows: nat, blocks: seq<nat>, c: Counters)
    ensures Ticks(rows, blocks, c, 0) == c
  {
  }

  /** The table entry used for the cell in this row and column of TI block `t`. */
  lemma EntryInBlock(rows: nat, blocks: seq<nat>, t: nat, row: nat, column: nat)
    requires t < |blocks| && (forall i :: 0 <= i < |blocks| ==> blocks[i] > 0) && row < rows && column < SPLIT * blocks[t]
    ensures Entry(Ticks(rows, blocks, FrameStart(rows, blocks), CellsBefore(rows, blocks, t) + (row * (SPLIT * blocks[t]) + column)))
            == column * rows + row
  {
    hide Tick, Ticks;
    BlocksInTurn(rows, blocks, t);
    WalkBlock(rows, blocks, t, t, SPLIT * blocks[t], row, column);
    TicksAdd(rows, blocks, FrameStart(rows, blocks), CellsBefore(rows, blocks, t), row * (SPLIT * blocks[t]) + column);
  }

  /** Every cell of a frame is in a TI block. */
  lemma {:induction false} BlockOfCell(rows: nat, blocks: seq<nat>, n: nat, m: nat) returns (t: nat)
    requires m <= |blocks| && n < CellsBefore(rows, blocks, m)
    ensures t < m && CellsBefore(rows, blocks, t) <= n < CellsBefore(rows, blocks, t) + SPLIT * blocks[t] * rows
  {
    if n < CellsBefore(rows, blocks, m - 1) {
      t := BlockOfCell(rows, blocks, n, m - 1);
    } else {
      t := m - 1;
    }
  }

  ghost predicate InsideTable(rows: nat, blocks: seq<nat>, table: nat, n: nat)
    requires |blocks| > 0
  {
    Entry(Ticks(rows, blocks, FrameStart(rows, blocks), n)) < table
  }

  /** The cells of a frame use only entries inside the table if and only if every TI block fits the table. */
  lemma FrameInsideTable(rows: nat, blocks: seq<nat>, table: nat)
    requires rows > 0 && |blocks| > 0 && forall t :: 0 <= t < |blocks| ==> blocks[t] > 0
    ensures (forall n: nat :: n < CellsBefore(rows, blocks, |blocks|) ==> InsideTable(rows, blocks, table, n))
            <==> forall t :: 0 <= t < |blocks| ==> SPLIT * blocks[t] * rows <= table
  {
    hide Ticks, CellsBefore;
    if forall t :: 0 <= t < |blocks| ==> SPLIT * blocks[t] * rows <= table {
      forall n: nat | n < CellsBefore(rows, blocks, |blocks|) ensures InsideTable(rows, blocks, table, n) {
        var t := BlockOfCell(rows, blocks, n, |blocks|);
        var columns := SPLIT * blocks[t];
        assert columns * rows == rows * columns;
        var row, column := ColumnAndRow(n - CellsBefore(rows, blocks, t), rows, columns);
        EntryInBlock(rows, blocks, t, row, column);
        AddressInside(rows, columns, column, row);
      }
    }
    if forall n: nat :: n < CellsBefore(rows, blocks, |blocks|) ==> InsideTable(rows, blocks, table, n) {
      forall t: nat | t < |blocks| ensures SPLIT * blocks[t] * rows <= table {
        var columns := SPLIT * blocks[t];
        EntryInBlock(rows, blocks, t, rows - 1, columns - 1);
        LastPosition(columns, rows, columns - 1, rows - 1);
        BlockWithin(rows, blocks, t, |blocks|);
        assert InsideTable(rows, blocks, table, CellsBefore(rows, blocks, t) + ((rows - 1) * columns + (columns - 1)));
        assert (columns - 1) * rows + (rows - 1) == columns * rows - 1;
      }
    }
  }

  lemma {:induction false} BlockWithin(rows: nat, blocks: seq<nat>, t: nat, m: nat)
    requires t < m <= |blocks|
    ensures CellsBefore(rows, blocks, t) + SPLIT * blocks[t] * rows <= CellsBefore(rows, blocks, m)
  {
    if t < m - 1 {
      BlockWithin(rows, blocks, t, m - 1);
    }
  }

  /**
   With at least as many FEC blocks as TI blocks, a frame's cells use only entries inside the table of `blockMax` FEC blocks if and
   only if its last and largest TI block has no more.
   */
  lemma FrameFitsExactly(rows: nat, numBlocks: nat, nTi: nat, blocks: seq<nat>, blockMax: nat)
    requires rows > 0 && 0 < nTi <= numBlocks && |blocks| == nTi && forall j :: 0 <= j < nTi ==> blocks[j] == BlockCount(numBlocks, nTi, j)
    ensures (forall n: nat :: n < CellsBefore(rows, blocks, nTi) ==> InsideTable(rows, blocks, blockMax * (SPLIT * rows), n))
            <==> BlockCount(numBlocks, nTi, nTi - 1) <= blockMax
  {
    hide InsideTable, CellsBefore, BlockCount, Sum;
    BlocksConserved(numBlocks, nTi, blocks);
    FrameInsideTable(rows, blocks, blockMax * (SPLIT * rows));
    forall t | 0 <= t < nTi ensures SPLIT * blocks[t] * rows <= blockMax * (SPLIT * rows) <==> blocks[t] <= blockMax {
      ColumnsFitExactly(blocks[t], blockMax, rows);
    }
    assert blocks[nTi - 1] == BlockCount(numBlocks, nTi, nTi - 1);
  }

  // ---- Frames with an empty first TI block ----

  /**
   An empty TI block is never closed: the step starts past its size, so no test is met again.
   After n cells the step is n rows further, nothing has been sent, and the table entry used
   for the next cell is outside the table as soon as n times the rows reach its length.
   */
  lemma {:induction false} EmptyBlockNeverCloses(rows: nat, blocks: seq<nat>, n: nat)
    requires rows > 0 && |blocks| > 0 && blocks[0] == 0
    ensures var c := Ticks(rows, blocks, FrameStart(rows, blocks), n);
            c == Counters(n * rows, 0, 0, 0, 0) && Entry(c) == n * rows
  {
    hide Tick;
    if n > 0 {
      EmptyBlockNeverCloses(rows, blocks, n - 1);
      TickEmpty(rows, blocks, (n - 1) * rows);
      assert n * rows == (n - 1) * rows + rows;
    }
  }

  lemma TickEmpty(rows: nat, blocks: seq<nat>, step: nat)
    requires rows > 0
    ensures Tick(rows, blocks, Counters(step, 0, 0, 0, 0)) == Counters(step + rows, 0, 0, 0, 0)
  {
  }

  /** How many cells such a frame takes before an entry outside the table is read. */
  lemma EmptyBlockLeavesTable(rows: nat, blocks: seq<nat>, table: seq<nat>, n: nat)
    requires rows > 0 && |blocks| > 0 && blocks[0] == 0
    ensures Entry(Ticks(rows, blocks, FrameStart(rows, blocks), n)) >= |table| <==> n * rows >= |table|
  {
    EmptyBlockNeverCloses(rows, blocks, n);
  }

  /**
   A started frame hands on its first TI block, after some number of cells, if and only if it
   has at least as many FEC blocks as TI blocks.
   */
  lemma FrameSendsExactly(rows: nat, numBlocks: nat, nTi: nat, blocks: seq<nat>)
    requires rows > 0 && nTi > 0 && |blocks| == nTi && forall j :: 0 <= j < nTi ==> blocks[j] == BlockCount(numBlocks, nTi, j)
    ensures (exists n :: Ticks(rows, blocks, FrameStart(rows, blocks), n).sent > 0) <==> nTi <= numBlocks
  {
    hide BlockCount, Tick, Ticks;
    FirstBlockEmpty(numBlocks, nTi);
    if nTi <= numBlocks {
      FirstBlockSent(rows, blocks);
    } else {
      forall n ensures Ticks(rows, blocks, FrameStart(rows, blocks), n).sent == 0 {
        EmptyBlockNeverCloses(rows, blocks, n);
      }
    }
  }

  lemma FirstBlockSent(rows: nat, blocks: seq<nat>)
    requires rows > 0 && |blocks| > 0 && blocks[0] > 0
    ensures Ticks(rows, blocks, FrameStart(rows, blocks), SPLIT * blocks[0] * rows).sent == 1
  {
    hide Tick, Ticks;
    BlockCloses(rows, blocks, 0, 0);
  }
}
