/**
 The time deinterleaver's streaming loop as a machine on values, and the transmitter it
 undoes: cyclic Q delay, cell interleaver and row-column time interleaver (sections 6.3,
 6.4 and 6.5.2 of EN 302 755).
 */
module TimeInterleaver {
  import opened Samples
  import opened Permutations
  import opened Primes

  const SPLIT := 5  // columns each FEC block fills

  /** One PLP: rows of its TI blocks, cells of a FEC block, FEC blocks of each TI block, and the cell table. */
  datatype Plp = Plp(rows: nat, cells: nat, blocks: seq<nat>, table: seq<nat>) {
    ghost predicate Ok() {
      && rows > 0 && cells == SPLIT * rows
      && |blocks| > 0
      && |table| > 0 && table[0] == 0
      && (forall t :: 0 <= t < |blocks| ==> blocks[t] > 0 && SPLIT * blocks[t] * rows <= |table|)
      && (forall d :: 0 <= d < |table| ==> InTable(table[d]))
    }

    /** An address and, for the first cell of a block, the whole block after it lie inside the buffer. */
    ghost predicate InTable(i: nat) {
      i < |table| && (cells > 0 && i % cells == 0 ==> i + cells <= |table|)
    }

    function Columns(t: nat): nat
      requires t < |blocks|
    {
      SPLIT * blocks[t]
    }
  }

  /** The fields the loop updates; `sent` lists the TI blocks handed on, and the next one fills the buffer `swap` selects. */
  datatype State = State(a: seq<Complex>, b: seq<Complex>, swap: bool, columns: nat, column: nat, row: nat, timeIl: nat,
                         end: nat, q: real, sent: seq<seq<Complex>>) {
    ghost predicate Ok(p: Plp) {
      && p.Ok()
      && |a| == |b| == |p.table|
      && timeIl < |p.blocks|
      && 0 < columns && columns * p.rows <= |p.table|
      && column < columns && row < p.rows
      && (column > 0 || row > 0 ==> end < |p.table|)
    }

    function Filling(): seq<Complex> {
      if swap then a else b
    }

    function Waiting(): seq<Complex> {
      if swap then b else a
    }

    function Fill(s: seq<Complex>): State {
      if swap then this.(a := s) else this.(b := s)
    }
  }

  function SetIm(s: seq<Complex>, i: nat, q: real): seq<Complex>
    requires i < |s|
  {
    s[i := Complex(s[i].re, q)]
  }

  function SetRe(s: seq<Complex>, i: nat, x: real): seq<Complex>
    requires i < |s|
  {
    s[i := Complex(x, s[i].im)]
  }

  lemma AddressInside(rows: nat, columns: nat, column: nat, row: nat)
    requires column < columns && row < rows
    ensures column * rows + row < columns * rows
  {
    assert columns * rows == column * rows + (columns - column) * rows;
    MulAtLeast(rows, columns - column);
    assert (columns - column) * rows == rows * (columns - column);
  }

  /** Stores one received cell: its real part at its address, its imaginary part one cell earlier in its block. */
  function Store(p: Plp, st: State, x: Complex): (r: State)
    requires st.Ok(p)
    ensures r.Ok(p) && r.end < |p.table|
    ensures r == st.Fill(r.Filling()).(end := r.end, q := r.q)
  {
    AddressInside(p.rows, st.columns, st.column, st.row);
    var i := p.table[st.column * p.rows + st.row];
    assert p.InTable(i);
    var s := st.Filling();
    if i % p.cells == 0 then
      assert i != 0 ==> st.column > 0 || st.row > 0;
      var s := if i != 0 then SetIm(s, st.end, st.q) else s;
      st.Fill(SetRe(s, i, x.re)).(end := i - 1 + p.cells, q := x.im)
    else
      st.Fill(SetRe(SetIm(s, i - 1, x.im), i, x.re))
  }

  /** Moves on to the next column; at the end of a row the pending Q goes out, at the last row the whole block. */
  function Advance(p: Plp, st: State): (r: State)
    requires st.Ok(p) && st.end < |p.table|
    ensures r.Ok(p)
  {
    if st.column + 1 < st.columns then st.(column := st.column + 1)
    else
      var st := st.Fill(SetIm(st.Filling(), st.end, st.q)).(column := 0);
      if st.row + 1 < p.rows then st.(row := st.row + 1)
      else Send(p, st.(row := 0))
  }

  /** Hands the full block on, swaps buffers and sizes the next block. */
  function Send(p: Plp, st: State): (r: State)
    requires st.Ok(p) && st.column == st.row == 0
    ensures r.Ok(p)
  {
    var next := if st.timeIl + 1 == |p.blocks| then 0 else st.timeIl + 1;
    var columns := if next == 0 then st.columns else p.Columns(next);
    st.(swap := !st.swap, columns := columns, timeIl := next, sent := st.sent + [st.Filling()[..st.columns * p.rows]])
  }

  function Step(p: Plp, st: State, x: Complex): (r: State)
    requires st.Ok(p)
    ensures r.Ok(p)
  {
    Advance(p, Store(p, st, x))
  }

  function Run(p: Plp, st: State, xs: seq<Complex>): (r: State)
    requires st.Ok(p)
    ensures r.Ok(p)
    decreases |xs|
  {
    if xs == [] then st else Run(p, Step(p, st, xs[0]), xs[1..])
  }

  /** Cells may come in chunks of any sizes: the state and the blocks sent depend only on their concatenation. */
  lemma {:induction false} RunChunks(p: Plp, st: State, xs: seq<Complex>, ys: seq<Complex>)
    requires st.Ok(p)
    ensures Run(p, Run(p, st, xs), ys) == Run(p, st, xs + ys)
    decreases |xs|
  {
    hide Step, State.Ok;
    if xs == [] {
      assert xs + ys == ys;
    } else {
      RunChunks(p, Step(p, st, xs[0]), xs[1..], ys);
      assert (xs + ys)[1..] == xs[1..] + ys;
    }
  }

  /** A step sends at most one block; if it sends none it leaves the waiting buffer alone. */
  lemma StepSends(p: Plp, st: State, x: Complex)
    requires st.Ok(p)
    ensures var r := Step(p, st, x);
            && st.sent <= r.sent
            && (r.sent == st.sent ==> r.Waiting() == st.Waiting() && r.swap == st.swap)
            && (r.sent != st.sent ==> |r.sent| == |st.sent| + 1 && r.sent[|st.sent|] <= r.Waiting())
  {
    hide State.Ok, Store, Advance;
    StoreSends(p, st, x);
    AdvanceSends(p, Store(p, st, x));
  }

  lemma StoreSends(p: Plp, st: State, x: Complex)
    requires st.Ok(p)
    ensures var r := Store(p, st, x); r.sent == st.sent && r.Waiting() == st.Waiting() && r.swap == st.swap
  {
    hide State.Ok, Store;
  }

  lemma AdvanceSends(p: Plp, st: State)
    requires st.Ok(p) && st.end < |p.table|
    ensures var r := Advance(p, st);
            && st.sent <= r.sent
            && (r.sent == st.sent ==> r.Waiting() == st.Waiting() && r.swap == st.swap)
            && (r.sent != st.sent ==> |r.sent| == |st.sent| + 1 && r.sent[|st.sent|] <= r.Waiting())
  {
    hide Plp.Ok, SetIm;
  }

  /** The last block sent stays in its buffer, untouched, until the next block is sent. */
  lemma {:induction false} SentBufferIsKept(p: Plp, st: State, xs: seq<Complex>)
    requires st.Ok(p) && |Run(p, st, xs).sent| == |st.sent|
    ensures Run(p, st, xs).Waiting() == st.Waiting() && Run(p, st, xs).swap == st.swap
    decreases |xs|
  {
    hide State.Ok, Step;
    if xs != [] {
      var next := Step(p, st, xs[0]);
      SentGrows(p, next, xs[1..]);
      StepSends(p, st, xs[0]);
      SentBufferIsKept(p, next, xs[1..]);
    }
  }

  lemma {:induction false} SentGrows(p: Plp, st: State, xs: seq<Complex>)
    requires st.Ok(p)
    ensures st.sent <= Run(p, st, xs).sent
    decreases |xs|
  {
    hide State.Ok, Step;
    if xs != [] {
      StepSends(p, st, xs[0]);
      SentGrows(p, Step(p, st, xs[0]), xs[1..]);
    }
  }

  /** What was last sent is still what the waiting buffer holds. */
  ghost predicate SentWaits(st: State)
  {
    st.sent != [] ==> st.sent[|st.sent| - 1] <= st.Waiting()
  }

  lemma {:induction false} SentWaitsAlways(p: Plp, st: State, xs: seq<Complex>)
    requires st.Ok(p) && SentWaits(st)
    ensures SentWaits(Run(p, st, xs))
    decreases |xs|
  {
    hide State.Ok, Step;
    if xs != [] {
      StepSends(p, st, xs[0]);
      SentWaitsAlways(p, Step(p, st, xs[0]), xs[1..]);
    }
  }

  // ---- The transmitter ----

  /** The cell before `a` in its FEC block, cyclically. */
  function Before(a: nat, cells: nat): nat
    requires cells > 0
  {
    if a % cells == 0 then a + cells - 1 else a - 1
  }

  /** `g` is `f` with the imaginary part of each cell delayed to the next cell of its block. */
  ghost predicate QDelayed(f: seq<Complex>, g: seq<Complex>, cells: nat)
    requires cells > 0
  {
    && |g| == |f|
    && forall a :: 0 <= a < |f| ==> Before(a, cells) < |f| && g[a] == Complex(f[a].re, f[Before(a, cells)].im)
  }

  /** `tx` is `c`, written into `columns` columns of `rows` cells and read out by rows. */
  ghost predicate TimeInterleaved(c: seq<Complex>, tx: seq<Complex>, columns: nat, rows: nat)
  {
    && |c| == |tx| == columns * rows
    && forall k: nat, r: nat :: k < columns && r < rows ==> WrittenByColumns(c, tx, columns, rows, k, r)
  }

  predicate WrittenByColumns(c: seq<Complex>, tx: seq<Complex>, columns: nat, rows: nat, k: nat, r: nat)
  {
    Cells(c, k * rows + r) == Cells(tx, r * columns + k)
  }

  function Cells(s: seq<Complex>, i: nat): Complex
  {
    if i < |s| then s[i] else ZERO
  }

  /** `tx` is what the transmitter makes of `f`, when `table` undoes its cell interleaver. */
  ghost predicate Transmitted(f: seq<Complex>, tx: seq<Complex>, table: seq<nat>, cells: nat, columns: nat, rows: nat)
    requires cells > 0
  {
    exists g, c :: QDelayed(f, g, cells) && |c| == |g| <= |table| && (forall d :: 0 <= d < |c| ==> table[d] < |g| && c[d] == g[table[d]])
                   && TimeInterleaved(c, tx, columns, rows)
  }

  // ---- One TI block ----

  /** The address of the cell received in column `k` of row `r`. */
  function Address(p: Plp, k: nat, r: nat): nat
  {
    if k * p.rows + r < |p.table| then p.table[k * p.rows + r] else 0
  }

  /** The cell received in column `k` of row `r` carries the right parts of `f`. */
  ghost predicate Carries(p: Plp, f: seq<Complex>, x: Complex, k: nat, r: nat)
    requires p.cells > 0
  {
    var i := Address(p, k, r);
    i < |f| && Before(i, p.cells) < |f| && x == Complex(f[i].re, f[Before(i, p.cells)].im)
  }

  predicate Received(k: nat, r: nat, columns: nat, column: nat, row: nat)
  {
    k < columns && (r < row || (r == row && k < column))
  }

  /** All parts received before (column, row) are in place in `s`, but for an imaginary part pending for `end`. */
  ghost predicate InPlace(p: Plp, f: seq<Complex>, s: seq<Complex>, columns: nat, column: nat, row: nat, end: nat)
    requires p.cells > 0
  {
    && |f| <= |s|
    && forall k: nat, r: nat :: Received(k, r, columns, column, row) ==>
         var i := Address(p, k, r);
         var j := Before(i, p.cells);
         i < |f| && j < |f| && s[i].re == f[i].re && (s[j].im == f[j].im || j == end)
  }

  /** The pending imaginary part is the right one. */
  ghost predicate Pending(f: seq<Complex>, column: nat, row: nat, end: nat, q: real)
  {
    column > 0 || row > 0 ==> end < |f| && q == f[end].im
  }

  ghost predicate Restoring(p: Plp, f: seq<Complex>, st: State, column: nat)
    requires p.cells > 0
  {
    InPlace(p, f, st.Filling(), st.columns, column, st.row, st.end) && Pending(f, column, st.row, st.end, st.q)
  }

  /** Writing right values keeps in place what is in place. */
  lemma WritesKeep(p: Plp, f: seq<Complex>, s: seq<Complex>, t: seq<Complex>, columns: nat, column: nat, row: nat, old_end: nat, end: nat)
    requires p.cells > 0 && InPlace(p, f, s, columns, column, row, old_end) && |t| == |s|
    requires forall i :: 0 <= i < |f| ==> t[i].re == s[i].re || t[i].re == f[i].re
    requires forall j :: 0 <= j < |f| ==> t[j].im == s[j].im || t[j].im == f[j].im
    requires old_end < |f| && (column > 0 || row > 0) ==> t[old_end].im == f[old_end].im || old_end == end
    ensures InPlace(p, f, t, columns, column, row, end)
  {
    forall k: nat, r: nat | Received(k, r, columns, column, row)
      ensures var i := Address(p, k, r); var j := Before(i, p.cells);
              i < |f| && j < |f| && t[i].re == f[i].re && (t[j].im == f[j].im || j == end)
    {
    }
  }

  lemma OneMoreReceived(p: Plp, f: seq<Complex>, t: seq<Complex>, columns: nat, column: nat, row: nat, end: nat)
    requires p.cells > 0 && InPlace(p, f, t, columns, column, row, end)
    requires var i := Address(p, column, row); var j := Before(i, p.cells);
             i < |f| && j < |f| && t[i].re == f[i].re && (t[j].im == f[j].im || j == end)
    ensures InPlace(p, f, t, columns, column + 1, row, end)
  {
    forall k: nat, r: nat | Received(k, r, columns, column + 1, row)
      ensures var i := Address(p, k, r); var j := Before(i, p.cells);
              i < |f| && j < |f| && t[i].re == f[i].re && (t[j].im == f[j].im || j == end)
    {
      assert Received(k, r, columns, column, row) || (k == column && r == row);
    }
  }

  /** Storing the next cell of a block keeps the block on its way back to `f`. */
  lemma StoreRestores(p: Plp, f: seq<Complex>, st: State, x: Complex)
    requires st.Ok(p) && Restoring(p, f, st, st.column) && Carries(p, f, x, st.column, st.row)
    requires Address(p, st.column, st.row) == 0 ==> st.column == st.row == 0
    ensures Restoring(p, f, Store(p, st, x), st.column + 1)
  {
    hide InPlace, Store, State.Ok, Plp.Ok;
    var s, r := st.Filling(), Store(p, st, x);
    var t := r.Filling();
    StoreInTable(p, st);
    InPlaceFits(p, f, s, st.columns, st.column, st.row, st.end);
    StoreWrites(p, f, st, x);
    WritesKeep(p, f, s, t, st.columns, st.column, st.row, st.end, r.end);
    OneMoreReceived(p, f, t, st.columns, st.column, st.row, r.end);
  }

  /** What storing a cell that carries the right parts writes: right parts only, its own among them, one possibly pending. */
  lemma StoreWrites(p: Plp, f: seq<Complex>, st: State, x: Complex)
    requires st.Ok(p) && Carries(p, f, x, st.column, st.row) && Pending(f, st.column, st.row, st.end, st.q)
    requires Address(p, st.column, st.row) == 0 ==> st.column == st.row == 0
    requires |f| <= |st.Filling()|
    ensures var r := Store(p, st, x);
            var s, t, i := st.Filling(), r.Filling(), Address(p, st.column, st.row);
            var j := Before(i, p.cells);
            && |t| == |s| && (r.columns, r.column, r.row) == (st.columns, st.column, st.row)
            && (forall i :: 0 <= i < |f| ==> t[i].re == s[i].re || t[i].re == f[i].re)
            && (forall j :: 0 <= j < |f| ==> t[j].im == s[j].im || t[j].im == f[j].im)
            && (st.end < |f| && (st.column > 0 || st.row > 0) ==> t[st.end].im == f[st.end].im || st.end == r.end)
            && t[i].re == f[i].re && (t[j].im == f[j].im || j == r.end)
            && Pending(f, st.column + 1, st.row, r.end, r.q)
  {
    hide State.Ok;
    StoreInTable(p, st);
  }

  lemma InPlaceFits(p: Plp, f: seq<Complex>, s: seq<Complex>, columns: nat, column: nat, row: nat, end: nat)
    requires p.cells > 0 && InPlace(p, f, s, columns, column, row, end)
    ensures |f| <= |s|
  {
  }

  lemma StoreInTable(p: Plp, st: State)
    requires st.Ok(p)
    ensures st.column * p.rows + st.row < |p.table| == |st.a| == |st.b|
    ensures p.InTable(p.table[st.column * p.rows + st.row]) && p.cells > 0
    ensures st.column > 0 || st.row > 0 ==> st.end < |p.table|
    ensures p.table[0] == 0
  {
    AddressInside(p.rows, st.columns, st.column, st.row);
  }

  /** A block length that is a whole number of FEC blocks, whose addresses permute it. */
  ghost predicate Whole(p: Plp, n: nat)
  {
    && p.cells > 0 && n <= |p.table| && IsPermutation(p.table[..n], n)
    && n % p.cells == 0
  }

  lemma NextInBlock(b: nat, cells: nat, n: nat) returns (a: nat)
    requires cells > 0 && b < n && n % cells == 0
    ensures a < n && Before(a, cells) == b
  {
    var q, r := b / cells, b % cells;
    assert b == cells * q + r;
    if r + 1 == cells {
      a := b + 1 - cells;
      assert a == cells * q + 0;
      QuotientIsUnique(cells, q, 0);
    } else {
      a := b + 1;
      QuotientIsUnique(cells, q, r + 1);
    }
  }

  lemma ColumnAndRow(d: nat, columns: nat, rows: nat) returns (k: nat, r: nat)
    requires rows > 0 && d < columns * rows
    ensures k < columns && r < rows && d == k * rows + r
  {
    k, r := d / rows, d % rows;
    assert d == rows * k + r;
    if k >= columns {
      MulMonotone(columns, k, rows);
    }
  }

  /** Every cell of the block has been received in some column and row. */
  lemma Delivered(p: Plp, n: nat, columns: nat, a: nat) returns (k: nat, r: nat)
    requires Whole(p, n) && p.rows > 0 && n == columns * p.rows && a < n
    ensures k < columns && r < p.rows && Address(p, k, r) == a
  {
    var d := Reaches(p.table[..n], n, a);
    k, r := ColumnAndRow(d, columns, p.rows);
  }

  lemma AllInPlace(p: Plp, f: seq<Complex>, s: seq<Complex>, columns: nat, end: nat)
    requires Whole(p, |f|) && p.rows > 0 && |f| == columns * p.rows
    requires InPlace(p, f, s, columns, 0, p.rows, end) && end < |f| && s[end].im == f[end].im
    ensures s[..|f|] == f
  {
    forall b: nat | b < |f| ensures s[b] == f[b] {
      var k, r := Delivered(p, |f|, columns, b);
      assert Received(k, r, columns, 0, p.rows);
      var a := NextInBlock(b, p.cells, |f|);
      k, r := Delivered(p, |f|, columns, a);
      assert Received(k, r, columns, 0, p.rows);
    }
  }

  lemma RowDone(p: Plp, f: seq<Complex>, s: seq<Complex>, columns: nat, row: nat, end: nat)
    requires p.cells > 0 && InPlace(p, f, s, columns, columns, row, end)
    ensures InPlace(p, f, s, columns, 0, row + 1, end)
  {
    forall k: nat, r: nat | Received(k, r, columns, 0, row + 1)
      ensures var i := Address(p, k, r); var j := Before(i, p.cells);
              i < |f| && j < |f| && s[i].re == f[i].re && (s[j].im == f[j].im || j == end)
    {
      assert Received(k, r, columns, columns, row);
    }
  }

  /** Moving on within a block keeps it on its way; completing it sends exactly `f`. */
  lemma AdvanceRestores(p: Plp, f: seq<Complex>, st: State)
    requires st.Ok(p) && st.end < |p.table| && Restoring(p, f, st, st.column + 1)
    requires Whole(p, |f|) && |f| == st.columns * p.rows
    ensures var r := Advance(p, st);
            if st.column + 1 == st.columns && st.row + 1 == p.rows
            then r.sent == st.sent + [f]
            else r.sent == st.sent && r.columns == st.columns && r.swap == st.swap && r.timeIl == st.timeIl
                 && Restoring(p, f, r, r.column)
                 && (if st.column + 1 < st.columns then r.column == st.column + 1 && r.row == st.row
                     else r.column == 0 && r.row == st.row + 1)
  {
    hide InPlace, Whole;
    if st.column + 1 == st.columns {
      var s := st.Filling();
      var t := SetIm(s, st.end, st.q);
      WritesKeep(p, f, s, t, st.columns, st.columns, st.row, st.end, st.end);
      RowDone(p, f, t, st.columns, st.row, st.end);
      if st.row + 1 == p.rows {
        AllInPlace(p, f, t, st.columns, st.end);
      }
    }
  }

  /** `tx` brings, row by row, the cells of a block that carry the parts of `f`. */
  ghost predicate CarriesAll(p: Plp, f: seq<Complex>, tx: seq<Complex>, columns: nat)
    requires p.cells > 0
  {
    && |tx| == columns * p.rows
    && forall k: nat, r: nat :: k < columns && r < p.rows ==> CarriesAt(p, f, tx, columns, k, r)
  }

  ghost predicate CarriesAt(p: Plp, f: seq<Complex>, tx: seq<Complex>, columns: nat, k: nat, r: nat)
    requires p.cells > 0
  {
    Carries(p, f, Cells(tx, r * columns + k), k, r)
  }

  /** The machine at the start of the block after `st`'s. */
  function Next(p: Plp, st: State): State
    requires st.Ok(p)
  {
    var next := if st.timeIl + 1 == |p.blocks| then 0 else st.timeIl + 1;
    st.(swap := !st.swap, column := 0, row := 0, timeIl := next, columns := if next == 0 then st.columns else p.Columns(next))
  }

  /** `r` is ready for the block after `st`'s, having sent `f`. */
  ghost predicate Sent(p: Plp, st: State, r: State, f: seq<Complex>)
    requires st.Ok(p)
  {
    r == Next(p, st).(a := r.a, b := r.b, end := r.end, q := r.q, sent := st.sent + [f])
  }

  /** One cell of a block: the next cell is expected, or the block is complete and is exactly `f`. */
  lemma StepRestores(p: Plp, f: seq<Complex>, st: State, x: Complex)
    requires st.Ok(p) && Whole(p, |f|) && |f| == st.columns * p.rows
    requires Restoring(p, f, st, st.column) && Carries(p, f, x, st.column, st.row)
    ensures var r := Step(p, st, x);
            if st.column + 1 == st.columns && st.row + 1 == p.rows then Sent(p, st, r, f)
            else Next(p, r) == Next(p, st).(a := r.a, b := r.b, end := r.end, q := r.q) && r.columns == st.columns && r.sent == st.sent
                 && Restoring(p, f, r, r.column)
                 && (if st.column + 1 < st.columns then r.column == st.column + 1 && r.row == st.row
                     else r.column == 0 && r.row == st.row + 1)
  {
    hide InPlace, Whole, Store;
    OnlyOriginIsZero(p, |f|, st);
    StoreRestores(p, f, st, x);
    AdvanceRestores(p, f, Store(p, st, x));
  }

  lemma OnlyOriginIsZero(p: Plp, n: nat, st: State)
    requires st.Ok(p) && Whole(p, n) && n == st.columns * p.rows
    ensures Address(p, st.column, st.row) == 0 ==> st.column == st.row == 0
  {
    hide State.Ok, Plp.InTable, Plp.Ok, Whole;
    StoreInTable(p, st);
    InsideBlock(p, st);
    var d := st.column * p.rows + st.row;
    if p.table[d] == 0 {
      ZeroIsFirst(p, n, d);
    }
  }

  lemma ZeroIsFirst(p: Plp, n: nat, d: nat)
    requires Whole(p, n) && d < n && p.table[0] == 0 && p.table[d] == 0
    ensures d == 0
  {
    assert p.table[..n][d] == p.table[d] && p.table[..n][0] == 0;
  }

  lemma InsideBlock(p: Plp, st: State)
    requires st.Ok(p)
    ensures st.column * p.rows + st.row < st.columns * p.rows
    ensures st.column * p.rows + st.row == 0 ==> st.column == st.row == 0
  {
    hide Plp.InTable;
    AddressInside(p.rows, st.columns, st.column, st.row);
    if st.column > 0 {
      MulAtLeast(p.rows, st.column);
    }
  }

  /** Running the rest of a block sends exactly `f` and leaves the machine ready for the next block. */
  lemma {:induction false} RestRestores(p: Plp, f: seq<Complex>, st: State, tx: seq<Complex>, pos: nat)
    requires st.Ok(p) && Whole(p, |f|) && |f| == st.columns * p.rows && CarriesAll(p, f, tx, st.columns)
    requires Restoring(p, f, st, st.column) && pos == st.row * st.columns + st.column < |tx|
    ensures Sent(p, st, Run(p, st, tx[pos..]), f)
    decreases |tx| - pos
  {
    hide Restoring, Whole, CarriesAll, State.Ok, Plp.Ok, Step, Run, Sent, Next;
    var r := Step(p, st, tx[pos]);
    PositionMoves(p, f, st, tx, pos);
    StepRestores(p, f, st, tx[pos]);
    RunFrom(p, st, tx, pos);
    if pos + 1 < |tx| {
      assert r.row * r.columns + r.column
             == if st.column + 1 < st.columns then st.row * st.columns + st.column + 1 else (st.row + 1) * st.columns;
      RestRestores(p, f, r, tx, pos + 1);
      SentLater(p, st, r, Run(p, r, tx[pos + 1..]), f);
    }
  }

  lemma RunFrom(p: Plp, st: State, xs: seq<Complex>, pos: nat)
    requires st.Ok(p) && pos < |xs|
    ensures var r := Step(p, st, xs[pos]);
            Run(p, st, xs[pos..]) == Run(p, r, xs[pos + 1..]) && (pos + 1 == |xs| ==> Run(p, st, xs[pos..]) == r)
  {
    hide Step, State.Ok;
    assert xs[pos..][1..] == xs[pos + 1..];
  }

  lemma SentLater(p: Plp, st: State, mid: State, r: State, f: seq<Complex>)
    requires st.Ok(p) && mid.Ok(p) && Sent(p, mid, r, f)
    requires Next(p, mid) == Next(p, st).(a := mid.a, b := mid.b, end := mid.end, q := mid.q) && mid.sent == st.sent
    ensures Sent(p, st, r, f)
  {
    hide Next;
  }

  lemma PositionMoves(p: Plp, f: seq<Complex>, st: State, tx: seq<Complex>, pos: nat)
    requires st.Ok(p) && CarriesAll(p, f, tx, st.columns) && pos == st.row * st.columns + st.column
    ensures pos < |tx| && st.column < st.columns && Carries(p, f, tx[pos], st.column, st.row)
    ensures pos + 1 == |tx| <==> st.column + 1 == st.columns && st.row + 1 == p.rows
    ensures st.column + 1 == st.columns ==> pos + 1 == (st.row + 1) * st.columns
  {
    LastPosition(st.columns, p.rows, st.column, st.row);
    assert CarriesAt(p, f, tx, st.columns, st.column, st.row);
  }

  lemma LastPosition(columns: nat, rows: nat, column: nat, row: nat)
    requires column < columns && row < rows
    ensures var pos := row * columns + column;
            && pos < columns * rows
            && (pos + 1 == columns * rows <==> column + 1 == columns && row + 1 == rows)
            && (column + 1 == columns ==> pos + 1 == (row + 1) * columns)
  {
    var left := rows - row - 1;
    assert columns * rows == row * columns + columns + left * columns;
    assert left * columns >= 0;
    if left > 0 {
      MulAtLeast(columns, left);
      assert left * columns == columns * left;
    }
    assert (row + 1) * columns == row * columns + columns;
  }

  // ---- Whole blocks and interleaving frames ----

  lemma CellCarries(p: Plp, f: seq<Complex>, g: seq<Complex>, c: seq<Complex>, tx: seq<Complex>, columns: nat, k: nat, r: nat)
    requires p.cells > 0 && |f| == columns * p.rows && k < columns && r < p.rows
    requires QDelayed(f, g, p.cells) && |c| == |g| <= |p.table| && TimeInterleaved(c, tx, columns, p.rows)
    requires forall d :: 0 <= d < |c| ==> p.table[d] < |g| && c[d] == g[p.table[d]]
    ensures CarriesAt(p, f, tx, columns, k, r)
  {
    hide TimeInterleaved;
    AddressInside(p.rows, columns, k, r);
    AddressInside(columns, p.rows, r, k);
    ReadByRows(c, tx, columns, p.rows, k, r);
    var d := k * p.rows + r;
    assert c[d] == g[p.table[d]] && Address(p, k, r) == p.table[d];
  }

  lemma ReadByRows(c: seq<Complex>, tx: seq<Complex>, columns: nat, rows: nat, k: nat, r: nat)
    requires TimeInterleaved(c, tx, columns, rows) && k < columns && r < rows
    ensures |c| == |tx| == columns * rows && Cells(c, k * rows + r) == Cells(tx, r * columns + k)
  {
    assert WrittenByColumns(c, tx, columns, rows, k, r);
  }

  /** What the transmitter makes of `f` carries, cell by cell, what the machine expects. */
  lemma TransmittedCarries(p: Plp, f: seq<Complex>, tx: seq<Complex>, columns: nat)
    requires p.cells > 0 && |f| == columns * p.rows
    requires Transmitted(f, tx, p.table, p.cells, columns, p.rows)
    ensures CarriesAll(p, f, tx, columns)
  {
    var g, c :| QDelayed(f, g, p.cells) && |c| == |g| <= |p.table| && (forall d :: 0 <= d < |c| ==> p.table[d] < |g| && c[d] == g[p.table[d]])
                && TimeInterleaved(c, tx, columns, p.rows);
    assert |tx| == columns * p.rows;
    hide QDelayed, TimeInterleaved, CarriesAt;
    forall k: nat, r: nat | k < columns && r < p.rows ensures CarriesAt(p, f, tx, columns, k, r) {
      CellCarries(p, f, g, c, tx, columns, k, r);
    }
  }

  /**
   The deinterleaver inverts the transmitter: fed with one transmitted TI block from its start,
   whatever the buffers and the pending Q hold, the machine sends exactly the original cells.
   */
  lemma BlockRestored(p: Plp, st: State, f: seq<Complex>, tx: seq<Complex>)
    requires st.Ok(p) && st.column == st.row == 0
    requires Whole(p, |f|) && |f| == st.columns * p.rows
    requires Transmitted(f, tx, p.table, p.cells, st.columns, p.rows)
    ensures Sent(p, st, Run(p, st, tx), f)
  {
    hide Whole, Transmitted, Run, Sent, CarriesAt, InPlace;
    TransmittedCarries(p, f, tx, st.columns);
    NothingReceived(p, f, st);
    assert tx[0..] == tx;
    RestRestores(p, f, st, tx, 0);
  }

  lemma NothingReceived(p: Plp, f: seq<Complex>, st: State)
    requires st.Ok(p) && st.column == st.row == 0 && |f| == st.columns * p.rows
    ensures Restoring(p, f, st, 0) && 0 < st.columns * p.rows
  {
    hide Plp.InTable;
    MulAtLeast(st.columns, p.rows);
  }

  /** The transmitted TI blocks of an interleaving frame from block `t` on, one after the other. */
  function Joined(txs: seq<seq<Complex>>, t: nat): seq<Complex>
    requires t <= |txs|
    decreases |txs| - t
  {
    if t == |txs| then [] else txs[t] + Joined(txs, t + 1)
  }

  /** Block `t` of the frame: `tx` transmits `f` over the columns the frame gives it. */
  ghost predicate FrameBlock(p: Plp, t: nat, f: seq<Complex>, tx: seq<Complex>)
  {
    && p.Ok() && t < |p.blocks|
    && |f| == p.Columns(t) * p.rows && Whole(p, |f|)
    && Transmitted(f, tx, p.table, p.cells, p.Columns(t), p.rows)
  }

  /** A whole interleaving frame comes out as its original TI blocks, in order. */
  lemma {:induction false} FrameRestored(p: Plp, st: State, fs: seq<seq<Complex>>, txs: seq<seq<Complex>>)
    requires st.Ok(p) && st.column == st.row == 0 && st.columns == p.Columns(st.timeIl)
    requires |fs| == |txs| == |p.blocks| && forall t :: st.timeIl <= t < |fs| ==> FrameBlock(p, t, fs[t], txs[t])
    ensures Run(p, st, Joined(txs, st.timeIl)).sent == st.sent + fs[st.timeIl..]
    decreases |fs| - st.timeIl
  {
    hide State.Ok, Plp.Ok, Whole, Transmitted, Run;
    var t := st.timeIl;
    TimeIlInRange(p, st);
    BlockRestored(p, st, fs[t], txs[t]);
    RunChunks(p, st, txs[t], Joined(txs, t + 1));
    var r := Run(p, st, txs[t]);
    if t + 1 == |fs| {
      RunNothing(p, r);
      assert txs[t] + [] == txs[t];
      assert fs[t..] == [fs[t]];
    } else {
      FrameRestored(p, r, fs, txs);
      assert fs[t..] == [fs[t]] + fs[t + 1..];
      assert st.sent + [fs[t]] + fs[t + 1..] == st.sent + fs[t..];
    }
  }

  lemma TimeIlInRange(p: Plp, st: State)
    requires st.Ok(p)
    ensures st.timeIl < |p.blocks|
  {
  }

  lemma RunNothing(p: Plp, st: State)
    requires st.Ok(p)
    ensures Run(p, st, []) == st
  {
  }
}
