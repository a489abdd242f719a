/**
 The time deinterleaver object for one PLP: its table, ping-pong buffers and counters, and
 the sizing of the TI blocks of an interleaving frame (section 6.5.1 of EN 302 755).
 */
module TimeDeinterleaver {
  import opened Samples
  import opened Primes
  import opened Bits
  import opened Permutations
  import opened CellInterleaver
  import opened TimeInterleaver

  // ---- TI-block sizes ----

  /** FEC blocks of TI block `j` when `numBlocks` are spread over `nTi` TI blocks: the last ones take the remainder. */
  function BlockCount(numBlocks: nat, nTi: nat, j: nat): nat
    requires nTi > 0
  {
    if j >= nTi - numBlocks % nTi then numBlocks / nTi + 1 else numBlocks / nTi
  }

  function Sum(s: seq<nat>): nat
  {
    if s == [] then 0 else Sum(s[..|s| - 1]) + s[|s| - 1]
  }

  lemma {:induction false} SumOfCounts(numBlocks: nat, nTi: nat, s: seq<nat>)
    requires nTi > 0 && |s| <= nTi && forall j :: 0 <= j < |s| ==> s[j] == BlockCount(numBlocks, nTi, j)
    ensures var late := nTi - numBlocks % nTi;
            Sum(s) == |s| * (numBlocks / nTi) + if |s| > late then |s| - late else 0
  {
    if s != [] {
      SumOfCounts(numBlocks, nTi, s[..|s| - 1]);
      assert |s| * (numBlocks / nTi) == (|s| - 1) * (numBlocks / nTi) + numBlocks / nTi;
    }
  }

  /** The TI blocks share out all the FEC blocks, evenly to within one, smaller ones first. */
  lemma BlocksConserved(numBlocks: nat, nTi: nat, s: seq<nat>)
    requires nTi > 0 && |s| == nTi && forall j :: 0 <= j < |s| ==> s[j] == BlockCount(numBlocks, nTi, j)
    ensures Sum(s) == numBlocks
    ensures forall i, j :: 0 <= i <= j < nTi ==> s[i] <= s[j] <= s[i] + 1
    ensures numBlocks >= nTi <==> forall j :: 0 <= j < nTi ==> s[j] > 0
  {
    hide Sum;
    SumOfCounts(numBlocks, nTi, s);
    EmptyQuotient(numBlocks, nTi);
    if numBlocks < nTi {
      assert s[0] == 0;
    }
  }

  /** The first TI block is empty if and only if there are fewer FEC blocks than TI blocks. */
  lemma FirstBlockEmpty(numBlocks: nat, nTi: nat)
    requires nTi > 0
    ensures BlockCount(numBlocks, nTi, 0) == 0 <==> numBlocks < nTi
  {
    EmptyQuotient(numBlocks, nTi);
  }

  // ---- The table of one PLP ----

  /** `table` undoes the cell interleaver of each of `blockMax` blocks. */
  ghost predicate TableFor(table: seq<nat>, cells: nat, blockMax: nat)
    requires CellCount(cells)
  {
    && |table| == blockMax * cells
    && forall r: nat :: r < blockMax ==> UndoesBlock(table, cells, r, r * cells)
  }

  /** Every place of a block is the position of one of its cells. */
  lemma PositionReached(cells: nat, r: nat, x: nat) returns (w: nat)
    requires CellCount(cells) && x < cells
    ensures w < cells && Position(cells, r, w) == x
  {
    hide CellCount, Position;
    var s := seq(cells, w requires 0 <= w < cells => Position(cells, r, w));
    forall i, j | 0 <= i < j < cells ensures s[i] != s[j] {
      if s[i] == s[j] {
        PositionsDiffer(cells, r, i, j);
      }
    }
    w := Reaches(s, cells, x);
  }

  /** What the table holds at place `x` of block `r`. */
  lemma TableEntry(table: seq<nat>, cells: nat, blockMax: nat, r: nat, x: nat, d: nat) returns (w: nat)
    requires CellCount(cells) && TableFor(table, cells, blockMax) && r < blockMax && x < cells && d == r * cells + x
    ensures w < cells && Position(cells, r, w) == x
    ensures d < |table| && table[d] == r * cells + w
  {
    hide CellCount, Position;
    w := PositionReached(cells, r, x);
    assert UndoesBlock(table, cells, r, r * cells);
  }

  lemma BlockAndPlace(d: nat, cells: nat, n: nat) returns (r: nat, x: nat)
    requires cells > 0 && d < n * cells
    ensures r < n && x < cells && d == r * cells + x && d % cells == x
  {
    r, x := ColumnAndRow(d, n, cells);
    QuotientIsUnique(cells, r, x);
    assert r * cells == cells * r;
  }

  /** The table permutes any whole number of leading blocks. */
  lemma TablePermutes(table: seq<nat>, cells: nat, blockMax: nat, f: nat)
    requires CellCount(cells) && cells > 0 && TableFor(table, cells, blockMax) && f <= blockMax
    ensures f * cells <= |table| && IsPermutation(table[..f * cells], f * cells)
  {
    hide CellCount, Position, TableFor;
    var n := f * cells;
    MulMonotone(f, blockMax, cells);
    assert |table| == blockMax * cells by { TableLength(table, cells, blockMax); }
    forall d: nat | d < n ensures table[d] < n {
      var r, x := BlockAndPlace(d, cells, f);
      var w := TableEntry(table, cells, blockMax, r, x, d);
      RoomFor(r, f, cells);
    }
    forall d: nat, e: nat | d < e < n ensures table[d] != table[e] {
      var r, x := BlockAndPlace(d, cells, f);
      var r', x' := BlockAndPlace(e, cells, f);
      var w := TableEntry(table, cells, blockMax, r, x, d);
      var w' := TableEntry(table, cells, blockMax, r', x', e);
      if table[d] == table[e] {
        SamePlace(r, w, r', w', cells);
      }
    }
  }

  lemma TableLength(table: seq<nat>, cells: nat, blockMax: nat)
    requires CellCount(cells) && TableFor(table, cells, blockMax)
    ensures |table| == blockMax * cells
  {
  }

  lemma SamePlace(r: nat, w: nat, r': nat, w': nat, cells: nat)
    requires w < cells && w' < cells && r * cells + w == r' * cells + w'
    ensures r == r' && w == w'
  {
    assert r * cells == cells * r && r' * cells == cells * r';
    QuotientIsUnique(cells, r, w);
    QuotientIsUnique(cells, r', w');
  }

  lemma FirstShift(cells: nat)
    requires CellCount(cells)
    ensures ShiftOf(cells, 0) == 0
  {
    HalfShiftsPermute(cells);
    QuotientIsUnique(Half(cells), 0, 0);
    FirstReversed(cells);
  }

  lemma FirstReversed(cells: nat)
    requires CellCount(cells)
    ensures |HalfShifts(cells)| > 0 && HalfShifts(cells)[0] == 0
  {
    RevOfZero(Degree(cells) - 1);
    HalfShiftsPermute(cells);
    FilterFirst(Reversed(Degree(cells) - 1, Pow2(Degree(cells) - 1)), Half(cells));
  }

  /** The first received cell of a TI block is the first cell of its first FEC block. */
  lemma TableStartsAtZero(table: seq<nat>, cells: nat, blockMax: nat)
    requires CellCount(cells) && TableFor(table, cells, blockMax) && blockMax > 0 && cells > 0
    ensures |table| > 0 && table[0] == 0
  {
    hide CellCount, BaseOrder, ShiftOf;
    var w := TableEntry(table, cells, blockMax, 0, 0, 0);
    FirstShift(cells);
    BaseOrderPermutes(cells);
    QuotientIsUnique(cells, 0, 0);
    assert Position(cells, 0, 0) == 0;
    PositionsDiffer(cells, 0, 0, w);
  }

  /** The table and block counts of a PLP meet the deinterleaving machine's conditions. */
  lemma PlpIsOk(p: Plp, blockMax: nat)
    requires CellCount(p.cells) && p.rows > 0 && p.cells == SPLIT * p.rows && TableFor(p.table, p.cells, blockMax)
    requires |p.blocks| > 0 && forall t :: 0 <= t < |p.blocks| ==> 0 < p.blocks[t] <= blockMax
    ensures p.Ok()
  {
    hide CellCount, TableFor, Position;
    assert 0 < p.blocks[0] <= blockMax;
    TableStartsAtZero(p.table, p.cells, blockMax);
    TableLength(p.table, p.cells, blockMax);
    forall t | 0 <= t < |p.blocks| ensures SPLIT * p.blocks[t] * p.rows <= |p.table| {
      ColumnsFit(p.blocks[t], blockMax, p.rows);
    }
    forall d: nat | d < |p.table| ensures p.InTable(p.table[d]) {
      var r, x := BlockAndPlace(d, p.cells, blockMax);
      var w := TableEntry(p.table, p.cells, blockMax, r, x, d);
      RoomFor(r, blockMax, p.cells);
      assert r * p.cells == p.cells * r;
      QuotientIsUnique(p.cells, r, w);
    }
  }

  lemma ColumnsFitExactly(f: nat, blockMax: nat, rows: nat)
    requires rows > 0
    ensures SPLIT * f * rows <= blockMax * (SPLIT * rows) <==> f <= blockMax
  {
    assert SPLIT * f * rows == f * (SPLIT * rows);
    if f <= blockMax {
      MulMonotone(f, blockMax, SPLIT * rows);
    } else {
      RoomFor(blockMax, f, SPLIT * rows);
    }
  }

  lemma ColumnsFit(f: nat, blockMax: nat, rows: nat)
    requires f <= blockMax
    ensures SPLIT * f * rows == f * (SPLIT * rows) <= blockMax * (SPLIT * rows)
  {
    MulMonotone(f, blockMax, SPLIT * rows);
    assert SPLIT * f * rows == f * (SPLIT * rows);
  }

  // ---- The whole transmitter ----

  /** The standard's position of cell `w` of block `r`. */
  function StandardPosition(cells: nat, r: nat, w: nat): nat
    requires CellCount(cells) && w < cells && r < cells
  {
    (BasePosition(cells, w) + StandardShift(cells, r)) % cells
  }

  /** The first block of the standard is sent in the base order, and block `r` in that order moved on by its shift. */
  lemma StandardOrders(cells: nat, r: nat, w: nat)
    requires CellCount(cells) && w < cells && r < cells
    ensures |BaseOrder(cells)| == cells && StandardPosition(cells, 0, w) == BaseOrder(cells)[w]
    ensures StandardPosition(cells, r, w) == (StandardPosition(cells, 0, w) + StandardShift(cells, r)) % cells
  {
    hide CellCount, ShiftOf, StandardShift, BaseOrder;
    BaseOrderPermutes(cells);
    ShiftIsStandard(cells, 0);
    HalfShiftsPermute(cells);
    FirstShift(cells);
    WrapOnce(BasePosition(cells, w), cells);
  }

  /** The receiver's position of a cell is the standard's for the blocks below ceil(cells / 2). */
  lemma PositionIsStandard(cells: nat, r: nat, w: nat)
    requires CellCount(cells) && w < cells && r < cells
    ensures r < Half(cells) ==> Position(cells, r, w) == StandardPosition(cells, r, w)
    ensures r >= Half(cells) ==> Position(cells, r, w) != StandardPosition(cells, r, w)
  {
    hide CellCount, ShiftOf, StandardShift, BasePosition;
    ShiftIsStandard(cells, r);
    StandardShiftBelow(cells, r);
    if Position(cells, r, w) == StandardPosition(cells, r, w) {
      SameShifted(ShiftOf(cells, r), StandardShift(cells, r), BasePosition(cells, w), cells);
    }
  }

  lemma StandardShiftBelow(cells: nat, r: nat)
    requires CellCount(cells) && r < cells
    ensures StandardShift(cells, r) < cells
  {
    hide CellCount, Degree;
    StandardShiftsPermute(cells);
  }

  /** The standard's cell interleaver of a TI block of `f` FEC blocks. */
  ghost predicate CellInterleaved(cells: nat, f: nat, g: seq<Complex>, c: seq<Complex>)
    requires CellCount(cells) && f <= cells
  {
    && |g| == |c| == f * cells
    && forall r: nat, w: nat :: r < f && w < cells ==> CellMoved(cells, r, w, g, c)
  }

  ghost predicate CellMoved(cells: nat, r: nat, w: nat, g: seq<Complex>, c: seq<Complex>)
    requires CellCount(cells) && w < cells && r < cells
  {
    Cells(c, Place(r, cells, StandardPosition(cells, r, w))) == Cells(g, Place(r, cells, w))
  }

  /** Index of cell `x` of block `r`. */
  function Place(r: nat, cells: nat, x: nat): nat
  {
    r * cells + x
  }

  /** For the blocks whose shift is the standard's, reading through the table undoes the cell interleaver. */
  lemma TableUndoesInterleaver(table: seq<nat>, cells: nat, blockMax: nat, f: nat, g: seq<Complex>, c: seq<Complex>)
    requires CellCount(cells) && cells > 0 && TableFor(table, cells, blockMax) && f <= blockMax
    requires f <= Half(cells) && CellInterleaved(cells, f, g, c)
    ensures |c| <= |table| && forall d :: 0 <= d < |c| ==> table[d] < |g| && c[d] == g[table[d]]
  {
    hide CellCount, TableFor, Position, StandardPosition;
    TablePermutes(table, cells, blockMax, f);
    forall d: nat | d < |c| ensures table[d] < |g| && c[d] == g[table[d]] {
      var r, x := BlockAndPlace(d, cells, f);
      var w := TableEntry(table, cells, blockMax, r, x, d);
      RoomFor(r, f, cells);
      PositionIsStandard(cells, r, w);
      assert CellMoved(cells, r, w, g, c);
    }
  }

  /**
   The receiver inverts the transmitter of the standard. A TI block of F FEC blocks sent
   through the cyclic Q delay, the cell interleaver and the time interleaver comes out of the
   streaming loop as the original cells, for every F up to ceil(cells / 2).
   */
  lemma TiBlockRestored(p: Plp, blockMax: nat, st: State, f: seq<Complex>, g: seq<Complex>, c: seq<Complex>, tx: seq<Complex>)
    requires CellCount(p.cells) && TableFor(p.table, p.cells, blockMax) && st.Ok(p)
    requires st.column == st.row == 0 && st.columns == p.Columns(st.timeIl)
    requires var F := p.blocks[st.timeIl];
             F <= blockMax && F <= Half(p.cells) && QDelayed(f, g, p.cells) && CellInterleaved(p.cells, F, g, c)
    requires TimeInterleaved(c, tx, st.columns, p.rows)
    ensures Sent(p, st, Run(p, st, tx), f)
  {
    hide CellCount, TableFor, CellInterleaved, QDelayed, TimeInterleaved, Run, Sent, State.Ok, Plp.Ok, Whole, Transmitted;
    var F := BlockOf(p, st);
    BlockIsWhole(p, blockMax, F);
    TableUndoesInterleaver(p.table, p.cells, blockMax, F, g, c);
    SameLengths(p.cells, F, g, c);
    DelayKeepsLength(f, g, p.cells);
    IsTransmitted(f, g, c, tx, p.table, p.cells, st.columns, p.rows);
    BlockRestored(p, st, f, tx);
  }

  /** The number of FEC blocks in the TI block the machine is at. */
  lemma BlockOf(p: Plp, st: State) returns (F: nat)
    requires st.Ok(p) && st.columns == p.Columns(st.timeIl)
    ensures st.timeIl < |p.blocks| && F == p.blocks[st.timeIl] && st.columns == SPLIT * F
    ensures p.Ok() && p.cells == SPLIT * p.rows && p.rows > 0
  {
    F := p.blocks[st.timeIl];
  }

  /** So many FEC blocks are a whole TI block of the table. */
  lemma BlockIsWhole(p: Plp, blockMax: nat, F: nat)
    requires CellCount(p.cells) && TableFor(p.table, p.cells, blockMax) && p.cells == SPLIT * p.rows && p.rows > 0 && F <= blockMax
    ensures Whole(p, F * p.cells) && F * p.cells == SPLIT * F * p.rows <= |p.table|
  {
    hide CellCount, TableFor, IsPermutation;
    TablePermutes(p.table, p.cells, blockMax, F);
    Multiple(p.cells, F);
    assert F * p.cells == p.cells * F;
  }

  lemma IsTransmitted(f: seq<Complex>, g: seq<Complex>, c: seq<Complex>, tx: seq<Complex>, table: seq<nat>, cells: nat, columns: nat, rows: nat)
    requires cells > 0 && QDelayed(f, g, cells) && |c| == |g| <= |table| && TimeInterleaved(c, tx, columns, rows)
    requires forall d :: 0 <= d < |c| ==> table[d] < |g| && c[d] == g[table[d]]
    ensures Transmitted(f, tx, table, cells, columns, rows)
  {
    hide QDelayed, TimeInterleaved;
  }

  /** No two cells have the same real part, so that any cell out of place shows. */
  ghost predicate AllDifferent(f: seq<Complex>)
  {
    forall i, j :: 0 <= i < j < |f| ==> f[i].re != f[j].re
  }

  /** A TI block of any F FEC blocks comes out as it went in if and only if F is at most ceil(cells / 2). */
  lemma TiBlockRestoredExactly(p: Plp, blockMax: nat, st: State, f: seq<Complex>, g: seq<Complex>, c: seq<Complex>, tx: seq<Complex>)
    requires CellCount(p.cells) && TableFor(p.table, p.cells, blockMax) && st.Ok(p)
    requires st.column == st.row == 0 && st.columns == p.Columns(st.timeIl)
    requires var F := p.blocks[st.timeIl];
             F <= blockMax && F <= p.cells && QDelayed(f, g, p.cells) && CellInterleaved(p.cells, F, g, c)
    requires TimeInterleaved(c, tx, st.columns, p.rows) && AllDifferent(f)
    ensures Sent(p, st, Run(p, st, tx), f) <==> p.blocks[st.timeIl] <= Half(p.cells)
  {
    hide CellCount, TableFor, CellInterleaved, QDelayed, TimeInterleaved, Run, Sent, State.Ok, AllDifferent, Plp.Columns, Half;
    TimeIlInRange(p, st);
    if p.blocks[st.timeIl] <= Half(p.cells) {
      TiBlockRestored(p, blockMax, st, f, g, c, tx);
    } else {
      TiBlockLost(p, blockMax, st, f, g, c, tx);
    }
  }

  /** Beyond ceil(cells / 2) FEC blocks the loop hands on another block, the one the program's own shifts transmit the same way. */
  lemma TiBlockLost(p: Plp, blockMax: nat, st: State, f: seq<Complex>, g: seq<Complex>, c: seq<Complex>, tx: seq<Complex>)
    requires CellCount(p.cells) && TableFor(p.table, p.cells, blockMax) && st.Ok(p)
    requires st.column == st.row == 0 && st.columns == p.Columns(st.timeIl)
    requires var F := p.blocks[st.timeIl];
             Half(p.cells) < F <= blockMax && F <= p.cells && QDelayed(f, g, p.cells) && CellInterleaved(p.cells, F, g, c)
    requires TimeInterleaved(c, tx, st.columns, p.rows) && AllDifferent(f)
    ensures !Sent(p, st, Run(p, st, tx), f)
  {
    hide CellCount, TableFor, CellInterleaved, QDelayed, TimeInterleaved, Run, Sent, State.Ok, Plp.Ok, Whole, AllDifferent, Half, Transmitted;
    var F := BlockOf(p, st);
    SameLengths(p.cells, F, g, c);
    var f', g' := OwnPreimage(p.table, p.cells, blockMax, F, c);
    BlockIsWhole(p, blockMax, F);
    IsTransmitted(f', g', c, tx, p.table, p.cells, st.columns, p.rows);
    BlockRestored(p, st, f', tx);
    if Sent(p, st, Run(p, st, tx), f) {
      SentOnce(p, st, Run(p, st, tx), f, f');
      MovedElsewhere(p.table, p.cells, blockMax, F, f, g, g', c);
    }
  }

  lemma SentOnce(p: Plp, st: State, r: State, f: seq<Complex>, f': seq<Complex>)
    requires st.Ok(p) && Sent(p, st, r, f) && Sent(p, st, r, f')
    ensures f == f'
  {
    assert (st.sent + [f])[|st.sent|] == f && (st.sent + [f'])[|st.sent|] == f';
  }

  /** The block the program's own cell order and Q delay turn into `c`. */
  lemma OwnPreimage(table: seq<nat>, cells: nat, blockMax: nat, F: nat, c: seq<Complex>) returns (f: seq<Complex>, g: seq<Complex>)
    requires CellCount(cells) && cells > 0 && TableFor(table, cells, blockMax) && F <= blockMax && |c| == F * cells
    ensures QDelayed(f, g, cells) && |f| == |g| == |c| <= |table|
    ensures forall d :: 0 <= d < |c| ==> table[d] < |g| && c[d] == g[table[d]]
  {
    hide CellCount, TableFor;
    TablePermutes(table, cells, blockMax, F);
    g := Scattered(table[..|c|], c);
    f := QUndelay(g, cells, F);
  }

  /** The cells of `c`, each at its place in the permutation. */
  lemma Scattered(perm: seq<nat>, c: seq<Complex>) returns (g: seq<Complex>)
    requires IsPermutation(perm, |c|)
    ensures |g| == |c| && forall d :: 0 <= d < |c| ==> perm[d] < |g| && c[d] == g[perm[d]]
  {
    var n := |c|;
    g := [];
    while |g| < n
      invariant |g| <= n
      invariant forall d :: 0 <= d < n && perm[d] < |g| ==> c[d] == g[perm[d]]
    {
      var d := Reaches(perm, n, |g|);
      g := g + [c[d]];
    }
  }

  /** The cell after `b` in its FEC block, cyclically. */
  function After(b: nat, cells: nat): int
    requires cells > 0
  {
    if b % cells == cells - 1 then b + 1 - cells else b + 1
  }

  lemma AfterBefore(a: nat, cells: nat)
    requires cells > 0
    ensures After(Before(a, cells), cells) == a
  {
    var q, x := a / cells, a % cells;
    assert a == cells * q + x;
    QuotientIsUnique(cells, q, if x == 0 then cells - 1 else x - 1);
  }

  lemma QUndelay(g: seq<Complex>, cells: nat, F: nat) returns (f: seq<Complex>)
    requires cells > 0 && |g| == F * cells
    ensures QDelayed(f, g, cells)
  {
    hide Before, After;
    f := seq(|g|, b requires 0 <= b < |g| => Complex(g[b].re, if 0 <= After(b, cells) < |g| then g[After(b, cells)].im else 0.0));
    forall a | 0 <= a < |g| ensures Before(a, cells) < |g| && g[a] == Complex(f[a].re, f[Before(a, cells)].im) {
      BeforeInside(a, cells, F);
      AfterBefore(a, cells);
    }
  }

  /** Cell 0 of FEC block ceil(cells / 2) is sent at a place from which the table takes another cell. */
  lemma MovedElsewhere(table: seq<nat>, cells: nat, blockMax: nat, F: nat, f: seq<Complex>, g: seq<Complex>, g': seq<Complex>, c: seq<Complex>)
    requires CellCount(cells) && cells > 0 && TableFor(table, cells, blockMax)
    requires Half(cells) < F <= blockMax && F <= cells && CellInterleaved(cells, F, g, c)
    requires QDelayed(f, g, cells) && QDelayed(f, g', cells) && |c| <= |table|
    requires forall d :: 0 <= d < |c| ==> table[d] < |g'| && c[d] == g'[table[d]]
    ensures !AllDifferent(f)
  {
    hide CellCount, TableFor, Position, StandardPosition, Half, AllDifferent, QDelayed;
    var r := Half(cells);
    var x := StandardPosition(cells, r, 0);
    StandardInside(cells, r, 0);
    var d := Place(r, cells, x);
    RoomFor(r, F, cells);
    var w := TableEntry(table, cells, blockMax, r, x, d);
    PositionIsStandard(cells, r, 0);
    assert CellMoved(cells, r, 0, g, c);
    assert g[r * cells] == c[d] == g'[r * cells + w];
    hide *;
    DelayedRe(f, g, cells, r * cells);
    DelayedRe(f, g', cells, r * cells + w);
    NotAllDifferent(f, r * cells, r * cells + w);
  }

  lemma DelayedRe(f: seq<Complex>, g: seq<Complex>, cells: nat, a: nat)
    requires cells > 0 && QDelayed(f, g, cells) && a < |g|
    ensures |f| == |g| && f[a].re == g[a].re
  {
  }

  lemma NotAllDifferent(f: seq<Complex>, i: nat, j: nat)
    requires i < j < |f| && f[i].re == f[j].re
    ensures !AllDifferent(f)
  {
  }

  lemma StandardInside(cells: nat, r: nat, w: nat)
    requires CellCount(cells) && w < cells && r < cells
    ensures StandardPosition(cells, r, w) < cells
  {
    hide CellCount, BasePosition, StandardShift;
  }

  /** The transmitter of the standard is defined for every TI block of up to as many FEC blocks as a block has cells. */
  lemma EveryBlockCanBeSent(cells: nat, rows: nat, F: nat, f: seq<Complex>) returns (g: seq<Complex>, c: seq<Complex>, tx: seq<Complex>)
    requires CellCount(cells) && rows > 0 && cells == SPLIT * rows && F <= cells && |f| == F * cells
    ensures QDelayed(f, g, cells) && CellInterleaved(cells, F, g, c) && TimeInterleaved(c, tx, SPLIT * F, rows)
  {
    hide CellCount, CellInterleaved;
    g := QDelay(f, cells, F);
    c := InterleaveCells(cells, F, g);
    SameLengths(cells, F, g, c);
    assert F * cells == SPLIT * F * rows;
    tx := ByRows(c, SPLIT * F, rows);
  }

  lemma SameLengths(cells: nat, F: nat, g: seq<Complex>, c: seq<Complex>)
    requires CellCount(cells) && F <= cells && CellInterleaved(cells, F, g, c)
    ensures |g| == |c| == F * cells
  {
  }

  /** The standard's cell interleaver, block after block. */
  lemma InterleaveCells(cells: nat, F: nat, g: seq<Complex>) returns (c: seq<Complex>)
    requires CellCount(cells) && F <= cells && |g| == F * cells
    ensures CellInterleaved(cells, F, g, c)
  {
    hide CellCount, CellMoved;
    c := [];
    for r := 0 to F
      invariant |c| == r * cells
      invariant forall q: nat, w: nat :: q < r && w < cells ==> CellMoved(cells, q, w, g, c)
    {
      RoomFor(r, F, cells);
      var block := InterleaveBlock(cells, r, g);
      forall q: nat, w: nat | q < r + 1 && w < cells ensures CellMoved(cells, q, w, g, c + block) {
        if q < r {
          MovedStill(cells, q, w, g, c, block, r);
        } else {
          MovedNow(cells, w, g, c, block, r);
        }
      }
      c := c + block;
      assert (r + 1) * cells == r * cells + cells;
    }
  }

  /** Block `r` after the standard's permutation. */
  lemma InterleaveBlock(cells: nat, r: nat, g: seq<Complex>) returns (block: seq<Complex>)
    requires CellCount(cells) && r < cells && r * cells + cells <= |g|
    ensures |block| == cells
    ensures forall w: nat :: w < cells ==> BlockMoved(cells, r, w, g, block)
  {
    hide CellCount, StandardPosition;
    var order := StandardOrder(cells, r);
    block := Scattered(order, g[r * cells..r * cells + cells]);
    forall w: nat | w < cells ensures BlockMoved(cells, r, w, g, block) {
      assert g[r * cells..r * cells + cells][w] == g[r * cells + w];
      assert order[w] == StandardPosition(cells, r, w);
    }
  }

  ghost predicate BlockMoved(cells: nat, r: nat, w: nat, g: seq<Complex>, block: seq<Complex>)
    requires CellCount(cells) && w < cells && r < cells
  {
    Cells(block, StandardPosition(cells, r, w)) == Cells(g, Place(r, cells, w))
  }

  /** The standard's positions of a block's cells are all the places of the block. */
  lemma StandardOrder(cells: nat, r: nat) returns (order: seq<nat>)
    requires CellCount(cells) && r < cells
    ensures IsPermutation(order, cells) && forall w: nat :: w < cells ==> order[w] == StandardPosition(cells, r, w)
  {
    hide CellCount, StandardPosition;
    order := seq(cells, w requires 0 <= w < cells => StandardPosition(cells, r, w));
    forall w: nat | w < cells ensures order[w] < cells {
      StandardInside(cells, r, w);
    }
    forall v: nat, w: nat | v < w < cells ensures order[v] != order[w] {
      if order[v] == order[w] {
        StandardPositionsDiffer(cells, r, v, w);
      }
    }
  }

  lemma StandardPositionsDiffer(cells: nat, r: nat, v: nat, w: nat)
    requires CellCount(cells) && v < cells && w < cells && r < cells
    requires StandardPosition(cells, r, v) == StandardPosition(cells, r, w)
    ensures v == w
  {
    hide CellCount, BaseOrder, StandardShift;
    BaseOrderPermutes(cells);
    StandardShiftBelow(cells, r);
    SameShifted(BasePosition(cells, v), BasePosition(cells, w), StandardShift(cells, r), cells);
  }

  lemma MovedStill(cells: nat, q: nat, w: nat, g: seq<Complex>, c: seq<Complex>, block: seq<Complex>, r: nat)
    requires CellCount(cells) && w < cells && q < r < cells && |c| == r * cells && CellMoved(cells, q, w, g, c)
    ensures CellMoved(cells, q, w, g, c + block)
  {
    hide CellCount, StandardPosition;
    StandardInside(cells, q, w);
    RoomFor(q, r, cells);
  }

  lemma MovedNow(cells: nat, w: nat, g: seq<Complex>, c: seq<Complex>, block: seq<Complex>, r: nat)
    requires CellCount(cells) && w < cells && r < cells && r * cells + cells <= |g| && |c| == r * cells && |block| == cells
    requires BlockMoved(cells, r, w, g, block)
    ensures CellMoved(cells, r, w, g, c + block)
  {
    hide CellCount, StandardPosition;
  }

  /** For every number of FEC blocks beyond ceil(cells / 2) there is a TI block that the standard's transmitter sends and the loop loses. */
  lemma SomeBlockIsLost(p: Plp, blockMax: nat, st: State) returns (f: seq<Complex>, g: seq<Complex>, c: seq<Complex>, tx: seq<Complex>)
    requires CellCount(p.cells) && TableFor(p.table, p.cells, blockMax) && st.Ok(p)
    requires st.column == st.row == 0 && st.columns == p.Columns(st.timeIl)
    requires Half(p.cells) < p.blocks[st.timeIl] <= blockMax && p.blocks[st.timeIl] <= p.cells
    ensures QDelayed(f, g, p.cells) && CellInterleaved(p.cells, p.blocks[st.timeIl], g, c) && TimeInterleaved(c, tx, st.columns, p.rows)
    ensures !Sent(p, st, Run(p, st, tx), f)
  {
    var F := p.blocks[st.timeIl];
    assert p.cells == SPLIT * p.rows && p.rows > 0;
    hide CellCount, TableFor, CellInterleaved, QDelayed, TimeInterleaved, Run, Sent, State.Ok, Plp.Ok, Half;
    f := Numbered(F * p.cells);
    g, c, tx := EveryBlockCanBeSent(p.cells, p.rows, F, f);
    TiBlockLost(p, blockMax, st, f, g, c, tx);
  }

  lemma Numbered(n: nat) returns (f: seq<Complex>)
    ensures |f| == n && AllDifferent(f)
  {
    f := seq(n, i requires 0 <= i < n => Complex(i as real, 0.0));
  }

  /** 1014 FEC blocks of 2025 cells (short 256-QAM), a number PLP_NUM_BLOCKS can carry, are such a TI block. */
  lemma BlockOf1014IsLost(table: seq<nat>) returns (p: Plp, st: State, f: seq<Complex>, g: seq<Complex>, c: seq<Complex>, tx: seq<Complex>)
    requires TableFor(table, 2025, 1014)
    ensures p == Plp(405, 2025, [1014], table) && st.Ok(p) && 1014 < 0x400
    ensures QDelayed(f, g, 2025) && CellInterleaved(2025, 1014, g, c) && TimeInterleaved(c, tx, SPLIT * 1014, 405)
    ensures !Sent(p, st, Run(p, st, tx), f)
  {
    hide TableFor, QDelayed, CellInterleaved, TimeInterleaved, Sent, Run, Plp.Ok, State.Ok;
    assert CellCount(2025);
    p := Plp(405, 2025, [1014], table);
    PlpIsOk(p, 1014);
    var empty := seq(|table|, i requires 0 <= i < |table| => ZERO);
    st := State(empty, empty, true, SPLIT * 1014, 0, 0, 0, 0, 0.0, []);
    FreshIsOk(p, st);
    f, g, c, tx := SomeBlockIsLost(p, 1014, st);
  }

  lemma FreshIsOk(p: Plp, st: State)
    requires p.Ok() && |st.a| == |st.b| == |p.table| && st.column == st.row == st.timeIl == 0 && st.columns == p.Columns(0)
    ensures st.Ok(p)
  {
    hide Plp.InTable;
  }

  lemma QDelay(f: seq<Complex>, cells: nat, F: nat) returns (g: seq<Complex>)
    requires cells > 0 && |f| == F * cells
    ensures QDelayed(f, g, cells)
  {
    hide Before;
    g := seq(|f|, a requires 0 <= a < |f| => Complex(f[a].re, Cells(f, Before(a, cells)).im));
    forall a | 0 <= a < |f| ensures Before(a, cells) < |f| && g[a] == Complex(f[a].re, f[Before(a, cells)].im) {
      BeforeInside(a, cells, F);
    }
  }

  lemma BeforeInside(a: nat, cells: nat, F: nat)
    requires cells > 0 && a < F * cells
    ensures Before(a, cells) < F * cells
  {
    var r, x := BlockAndPlace(a, cells, F);
    RoomFor(r, F, cells);
  }

  lemma ByRows(c: seq<Complex>, columns: nat, rows: nat) returns (tx: seq<Complex>)
    requires |c| == columns * rows
    ensures TimeInterleaved(c, tx, columns, rows)
  {
    hide Cells;
    tx := seq(|c|, i requires 0 <= i < |c| => if columns == 0 then c[i] else Cells(c, i % columns * rows + i / columns));
    forall k: nat, r: nat | k < columns && r < rows ensures WrittenByColumns(c, tx, columns, rows, k, r) {
      AddressInside(columns, rows, r, k);
      QuotientIsUnique(columns, r, k);
      assert columns * r == r * columns;
      CellsAt(tx, r * columns + k);
    }
  }

  lemma CellsAt(s: seq<Complex>, i: nat)
    requires i < |s|
    ensures Cells(s, i) == s[i]
  {
  }

  // ---- The object ----

  class Deinterleaver {
    const blockMax: nat
    const numRows: nat
    const cellsPerFecBlock: nat
    const nTi: nat
    const permutations: array<nat>
    const bufferA: array<Complex>
    const bufferB: array<Complex>

    var fecBlocks: seq<nat>          // FEC blocks of each TI block of the frame
    var timeDeintCell: array<Complex>   // the buffer being filled
    var swapBuffers: bool
    var tiBlockSize: nat
    var idxStepTi: nat
    var idxRowTi: nat
    var idxTimeIl: nat
    var endCellFecBlock: nat
    var qFirstCellFecBlock: real
    var tiBlocks: seq<seq<Complex>>     // the TI blocks signalled so far

    ghost var column: nat            // idxStepTi counted in columns
    ghost var columns: nat           // tiBlockSize counted in columns

    ghost predicate Valid()
      reads this, permutations
    {
      && bufferA != bufferB
      && CellCount(cellsPerFecBlock) && numRows > 0 && cellsPerFecBlock == SPLIT * numRows
      && TableFor(permutations[..], cellsPerFecBlock, blockMax)
      && bufferA.Length == bufferB.Length == permutations.Length
    }

    /** A frame has been started. */
    ghost predicate Running()
      reads this, permutations, bufferA, bufferB
    {
      && Valid()
      && |fecBlocks| == nTi
      && Machine().Ok(Config())
      && timeDeintCell == (if swapBuffers then bufferA else bufferB)
      && idxStepTi == column * numRows
      && tiBlockSize == columns * numRows
    }

    ghost function Config(): Plp
      reads this, permutations
    {
      Plp(numRows, cellsPerFecBlock, fecBlocks, permutations[..])
    }

    ghost function Machine(): State
      reads this, bufferA, bufferB
    {
      State(bufferA[..], bufferB[..], swapBuffers, columns, column, idxRowTi, idxTimeIl,
                  endCellFecBlock, qFirstCellFecBlock, tiBlocks)
    }

    constructor (blockMax: nat, cells: nat, rows: nat, timeIlLength: nat)
      requires CellCount(cells) && rows > 0 && cells == SPLIT * rows
      ensures Valid() && this.blockMax == blockMax && cellsPerFecBlock == cells && numRows == rows && nTi == timeIlLength
      ensures tiBlocks == [] && fresh(permutations) && fresh(bufferA) && fresh(bufferB)
    {
      this.blockMax := blockMax;
      cellsPerFecBlock := cells;
      numRows := rows;
      nTi := timeIlLength;
      fecBlocks := [];
      tiBlocks := [];
      swapBuffers := true;
      column, columns := 0, 0;
      tiBlockSize, idxStepTi, idxRowTi, idxTimeIl := 0, 0, 0, 0;
      endCellFecBlock, qFirstCellFecBlock := 0, 0.0;
      var table := new nat[blockMax * cells];
      AddressCellDeinterleaving(blockMax, cells, table);
      permutations := table;
      var a := new Complex[blockMax * cells];
      var b := new Complex[blockMax * cells];
      bufferA, bufferB, timeDeintCell := a, b, a;
    }

    /**
     Shares the frame's FEC blocks out over its TI blocks. The loop then runs within its table exactly if there are TI blocks, none
     is empty and the last and largest fits.
     */
    method SizeBlocks(numBlocks: nat)
      requires Valid()
      modifies `fecBlocks
      ensures Valid() && |fecBlocks| == nTi && forall j :: 0 <= j < nTi ==> fecBlocks[j] == BlockCount(numBlocks, nTi, j)
      ensures Config().Ok() <==> 0 < nTi <= numBlocks && BlockCount(numBlocks, nTi, nTi - 1) <= blockMax
    {
      hide CellCount, TableFor;
      fecBlocks := [];
      for j := 0 to nTi
        invariant |fecBlocks| == j && forall i :: 0 <= i < j ==> fecBlocks[i] == BlockCount(numBlocks, nTi, i)
      {
        var f := numBlocks / nTi;
        if j >= nTi - numBlocks % nTi { f := f + 1; }
        fecBlocks := fecBlocks + [f];
      }
      SizesFitExactly(Config(), numBlocks, nTi, blockMax);
    }

    /** Takes the dynamic signalling of a frame, sizes its TI blocks and starts on the cells after the signalling. */
    method L1DynExecute(numBlocks: nat, p2Start: nat, cells: seq<Complex>)
      requires Valid() && 0 < nTi <= numBlocks && BlockCount(numBlocks, nTi, nTi - 1) <= blockMax && p2Start <= |cells|
      modifies this, bufferA, bufferB
      ensures Running() && |fecBlocks| == nTi
      ensures forall j :: 0 <= j < nTi ==> fecBlocks[j] == BlockCount(numBlocks, nTi, j)
      ensures Started(Config(), old(Machine())).Ok(Config())
      ensures Machine() == Run(Config(), Started(Config(), old(Machine())), cells[p2Start..])
    {
      SizeBlocks(numBlocks);
      StartFrame();
      hide CellCount, TableFor, BlockCount, Plp.Ok, State.Ok;
      Execute(cells[p2Start..]);
    }

    method StartFrame()
      requires Valid() && |fecBlocks| == nTi && Config().Ok()
      modifies this
      ensures Running() && fecBlocks == old(fecBlocks)
      ensures Machine() == Started(Config(), old(Machine()))
    {
      hide CellCount, TableFor, Plp.Ok, State.Ok;
      StartFits(Config(), Machine());
      idxTimeIl := 0;
      columns := SPLIT * fecBlocks[0];
      tiBlockSize := SPLIT * fecBlocks[0] * numRows;
      column := 0;
      idxStepTi := 0;
      idxRowTi := 0;
      timeDeintCell := if swapBuffers then bufferA else bufferB;
      assert Machine() == Started(Config(), old(Machine()));
    }

    /** Deinterleaves one chunk of received cells. */
    method Execute(cells: seq<Complex>)
      requires Running()
      modifies this, bufferA, bufferB
      ensures Running() && fecBlocks == old(fecBlocks)
      ensures Machine() == Run(old(Config()), old(Machine()), cells)
    {
      for i := 0 to |cells|
        invariant Running() && fecBlocks == old(fecBlocks)
        invariant Run(Config(), Machine(), cells[i..]) == Run(old(Config()), old(Machine()), cells)
      {
        RunFrom(Config(), Machine(), cells, i);
        StoreCell(cells[i]);
        Advance();
      }
    }

    method StoreCell(x: Complex)
      requires Running()
      modifies this, bufferA, bufferB
      ensures Running() && fecBlocks == old(fecBlocks) && endCellFecBlock < permutations.Length
      ensures Machine() == Store(Config(), old(Machine()), x)
    {
      hide CellCount, TableFor, Plp.Ok, State.Ok, Store, SetIm, SetRe;
      var d := idxStepTi + idxRowTi;
      StoreCases(Config(), Machine(), d, x);
      var iAddress := permutations[d];
      if iAddress % cellsPerFecBlock == 0 {
        if iAddress != 0 {
          PutImag(timeDeintCell, endCellFecBlock, qFirstCellFecBlock);
        }
        qFirstCellFecBlock := x.im;
        endCellFecBlock := iAddress - 1 + cellsPerFecBlock;
      } else {
        PutImag(timeDeintCell, iAddress - 1, x.im);
      }
      PutReal(timeDeintCell, iAddress, x.re);
      assert Machine() == Store(old(Config()), old(Machine()), x);
    }

    static method PutImag(s: array<Complex>, i: nat, q: real)
      requires i < s.Length
      modifies s
      ensures s[..] == SetIm(old(s[..]), i, q)
    {
      s[i] := Complex(s[i].re, q);
    }

    static method PutReal(s: array<Complex>, i: nat, x: real)
      requires i < s.Length
      modifies s
      ensures s[..] == SetRe(old(s[..]), i, x)
    {
      s[i] := Complex(x, s[i].im);
    }

    method Advance()
      requires Running() && endCellFecBlock < permutations.Length
      modifies this, bufferA, bufferB
      ensures Running() && fecBlocks == old(fecBlocks)
      ensures Machine() == TimeInterleaver.Advance(Config(), old(Machine()))
    {
      LastColumn(column, columns, numRows);
      hide CellCount, TableFor, Plp.Ok, Send, SetIm;
      idxStepTi := idxStepTi + numRows;
      column := column + 1;
      if idxStepTi == tiBlockSize {
        PutImag(timeDeintCell, endCellFecBlock, qFirstCellFecBlock);
        idxStepTi := 0;
        column := 0;
        idxRowTi := idxRowTi + 1;
        if idxRowTi == numRows {
          idxRowTi := 0;
          SendBlock();
        }
      }
    }

    method SendBlock()
      requires Running() && column == idxRowTi == 0
      modifies this
      ensures Running() && fecBlocks == old(fecBlocks)
      ensures Machine() == Send(Config(), old(Machine()))
    {
      hide CellCount, TableFor, Plp.Ok, State.Ok;
      SendFits(Config(), Machine());
      tiBlocks := tiBlocks + [timeDeintCell[..tiBlockSize]];
      if swapBuffers {
        swapBuffers := false;
        timeDeintCell := bufferB;
      } else {
        swapBuffers := true;
        timeDeintCell := bufferA;
      }
      idxTimeIl := idxTimeIl + 1;
      if idxTimeIl == nTi {
        idxTimeIl := 0;
      } else {
        columns := SPLIT * fecBlocks[idxTimeIl];
        tiBlockSize := SPLIT * fecBlocks[idxTimeIl] * numRows;
      }
      assert Machine() == Send(Config(), old(Machine()));
    }
  }

  /** The cases of storing the cell for table entry `d`, and that every write they make is inside the buffer. */
  lemma StoreCases(p: Plp, st: State, d: nat, x: Complex)
    requires st.Ok(p) && d == st.column * p.rows + st.row
    ensures d < |p.table| && |st.a| == |st.b| == |p.table|
    ensures var i, s := p.table[d], st.Filling();
            && p.cells > 0 && i < |p.table|
            && if i % p.cells == 0 then
                 && i + p.cells <= |p.table| && (i != 0 ==> st.end < |p.table|)
                 && Store(p, st, x) == st.Fill(SetRe(if i != 0 then SetIm(s, st.end, st.q) else s, i, x.re))
                                         .(end := i - 1 + p.cells, q := x.im)
               else
                 i > 0 && Store(p, st, x) == st.Fill(SetRe(SetIm(s, i - 1, x.im), i, x.re))
    ensures Store(p, st, x).Ok(p) && Store(p, st, x).end < |p.table|
  {
    hide SetIm, SetRe;
    AddressInside(p.rows, st.columns, st.column, st.row);
    assert p.InTable(p.table[d]);
    QuotientIsUnique(p.cells, 0, 0);
  }

  lemma SendFits(p: Plp, st: State)
    requires st.Ok(p) && st.column == st.row == 0
    ensures st.columns * p.rows <= |st.a| == |st.b| && st.timeIl < |p.blocks|
    ensures Send(p, st).Ok(p)
  {
    hide Send;
  }

  /** A frame can be started from any counters, the buffers being the table's size. */
  lemma StartFits(p: Plp, before: State)
    requires p.Ok() && |before.a| == |before.b| == |p.table|
    ensures |p.blocks| > 0 && Started(p, before).Ok(p)
  {
    hide Plp.InTable;
    MulAtLeast(p.rows, p.Columns(0));
  }

  lemma LastColumn(column: nat, columns: nat, rows: nat)
    requires column < columns && rows > 0
    ensures column * rows + rows == (column + 1) * rows
    ensures (column + 1) * rows == columns * rows <==> column + 1 == columns
  {
    if column + 1 < columns {
      MulAtLeast(rows, columns - column - 1);
      assert columns * rows == (column + 1) * rows + (columns - column - 1) * rows;
    }
  }

  /** The machine at the start of a frame: counters reset, the first TI block sized, buffers and signals as they were. */
  function Started(p: Plp, before: State): State
    requires |p.blocks| > 0
  {
    before.(columns := p.Columns(0), column := 0, row := 0, timeIl := 0)
  }

  /** TI block `t` of a frame, as the transmitter of the standard makes it. */
  ghost predicate StandardBlock(p: Plp, t: nat, f: seq<Complex>, g: seq<Complex>, c: seq<Complex>, tx: seq<Complex>)
    requires CellCount(p.cells) && p.cells > 0 && t < |p.blocks|
  {
    && p.blocks[t] <= Half(p.cells) <= p.cells
    && QDelayed(f, g, p.cells) && CellInterleaved(p.cells, p.blocks[t], g, c)
    && TimeInterleaved(c, tx, p.Columns(t), p.rows)
  }

  /**
   A whole interleaving frame: whatever the buffers hold when it starts, and however its cells
   are cut into chunks (`RunChunks`), the receiver signals exactly its original TI blocks, in order.
   */
  lemma InterleavingFrameRestored(p: Plp, blockMax: nat, before: State,
                                  fs: seq<seq<Complex>>, gs: seq<seq<Complex>>, cs: seq<seq<Complex>>, txs: seq<seq<Complex>>)
    requires CellCount(p.cells) && TableFor(p.table, p.cells, blockMax) && p.Ok() && Started(p, before).Ok(p)
    requires |fs| == |gs| == |cs| == |txs| == |p.blocks|
    requires forall t :: 0 <= t < |fs| ==> p.blocks[t] <= blockMax && StandardBlock(p, t, fs[t], gs[t], cs[t], txs[t])
    ensures Run(p, Started(p, before), Joined(txs, 0)).sent == before.sent + fs
  {
    forall t | 0 <= t < |fs| ensures FrameBlock(p, t, fs[t], txs[t]) {
      StandardIsFrameBlock(p, blockMax, t, fs[t], gs[t], cs[t], txs[t]);
    }
    hide CellCount, TableFor, StandardBlock, FrameBlock, State.Ok, Run;
    assert fs[0..] == fs;
    FrameRestored(p, Started(p, before), fs, txs);
  }

  lemma StandardIsFrameBlock(p: Plp, blockMax: nat, t: nat, f: seq<Complex>, g: seq<Complex>, c: seq<Complex>, tx: seq<Complex>)
    requires CellCount(p.cells) && TableFor(p.table, p.cells, blockMax) && p.Ok()
    requires t < |p.blocks| && p.blocks[t] <= blockMax && StandardBlock(p, t, f, g, c, tx)
    ensures FrameBlock(p, t, f, tx)
  {
    hide CellCount, TableFor, QDelayed, TimeInterleaved, CellMoved, Plp.InTable;
    var F := p.blocks[t];
    TablePermutes(p.table, p.cells, blockMax, F);
    TableUndoesInterleaver(p.table, p.cells, blockMax, F, g, c);
    Multiple(p.cells, F);
    assert |g| == |f| by { DelayKeepsLength(f, g, p.cells); }
  }

  lemma DelayKeepsLength(f: seq<Complex>, g: seq<Complex>, cells: nat)
    requires cells > 0 && QDelayed(f, g, cells)
    ensures |f| == |g|
  {
  }

  /** The deinterleaving machine's conditions on the sizes of TI blocks, exactly. */
  lemma SizesFitExactly(p: Plp, numBlocks: nat, nTi: nat, blockMax: nat)
    requires CellCount(p.cells) && p.rows > 0 && p.cells == SPLIT * p.rows && TableFor(p.table, p.cells, blockMax)
    requires |p.blocks| == nTi && forall j :: 0 <= j < nTi ==> p.blocks[j] == BlockCount(numBlocks, nTi, j)
    ensures p.Ok() <==> 0 < nTi <= numBlocks && BlockCount(numBlocks, nTi, nTi - 1) <= blockMax
  {
    hide CellCount, TableFor, BlockCount, Sum;
    if 0 < nTi {
      BlocksConserved(numBlocks, nTi, p.blocks);
      TableLength(p.table, p.cells, blockMax);
      ColumnsFitExactly(p.blocks[nTi - 1], blockMax, p.rows);
      if nTi <= numBlocks && p.blocks[nTi - 1] <= blockMax {
        PlpIsOk(p, blockMax);
      }
    }
  }
}
